/**
 * The layout template script: the distinct province names of the election
 * sheet, in order of first appearance, and an object giving each of them
 * the position `{ x: 0, y: 0 }`, to be filled in by hand.
 */
module LayoutTemplate {
  import opened Wrappers
  import opened Seqs
  import opened JsValues
  import opened JsObject
  import opened DashboardData

  /** A grid position. */
  datatype Coord = Coord(x: int, y: int)

  const ORIGIN: Coord := Coord(0, 0)

  function ProvinceOf(row: PlotRow): Value {
    row.province
  }

  /** `[...new Set(data.map(d => d['จังหวัด']).filter(Boolean))]`: the set
      compares values themselves, so the number 1 and the string "1" are two
      entries. */
  function Provinces(data: seq<PlotRow>): (provinces: seq<Value>)
    ensures Distinct(provinces)
  {
    Dedup(Filter(Map(data, ProvinceOf), Truthy))
  }

  /** The list holds exactly the truthy province values of the data. */
  lemma ProvincesMembers(data: seq<PlotRow>)
    ensures forall p :: p in Provinces(data) <==> Truthy(p) && exists i :: 0 <= i < |data| && data[i].province == p
  {
    var names := Map(data, ProvinceOf);
    var kept := Filter(names, Truthy);
    forall p | Truthy(p) && (exists i :: 0 <= i < |data| && data[i].province == p) ensures p in kept {
      var i :| 0 <= i < |data| && data[i].province == p;
      assert names[i] == p;
      assert multiset(kept)[p] == multiset(names)[p];
    }
    forall p | p in kept ensures exists i :: 0 <= i < |data| && data[i].province == p {
      var i :| 0 <= i < |names| && names[i] == p;
    }
  }

  /** The provinces run in the order in which each first appears among the
      kept names. */
  lemma ProvincesInFirstOrder(data: seq<PlotRow>)
    ensures var kept := Filter(Map(data, ProvinceOf), Truthy);
      var provinces := Provinces(data);
      forall i, j :: 0 <= i < j < |provinces| ==> FirstIndex(kept, provinces[i]) < FirstIndex(kept, provinces[j])
  {
    DedupOrder(Filter(Map(data, ProvinceOf), Truthy));
  }

  /** `provinces.reduce((acc, p) => { acc[p] = { x: 0, y: 0 }; return acc; }, {})`.
      A property key is `String(p)`. */
  function Template(provinces: seq<Value>): (t: Dict<Coord>)
    ensures |t.keys| <= |provinces|
  {
    if provinces == [] then Empty()
    else
      var init, last := provinces[..|provinces| - 1], provinces[|provinces| - 1];
      Template(init).Put(ToJsString(last), ORIGIN)
  }

  function KeyOf(p: Value): string {
    ToJsString(p)
  }

  /** The template is a well-formed object. */
  lemma {:induction false} TemplateValid(provinces: seq<Value>)
    ensures Template(provinces).Valid()
  {
    if provinces != [] {
      TemplateValid(provinces[..|provinces| - 1]);
    }
  }

  /** Each province's key holds the origin; no other key is present. */
  lemma {:induction false} TemplateGet(provinces: seq<Value>, k: string)
    ensures Template(provinces).Get(k) == if k in Map(provinces, KeyOf) then Some(ORIGIN) else None
  {
    if provinces != [] {
      var init, last := provinces[..|provinces| - 1], provinces[|provinces| - 1];
      var t, key := Template(init), KeyOf(last);
      TemplateGet(init, k);
      assert Template(provinces) == t.Put(key, ORIGIN);
      assert Map(provinces, KeyOf) == Map(init, KeyOf) + [key];
      assert k in Map(provinces, KeyOf) <==> k in Map(init, KeyOf) || k == key;
    }
  }

  /** The keys are the provinces' keys, each once, in the order of first
      assignment. */
  lemma {:induction false} TemplateKeys(provinces: seq<Value>)
    ensures Template(provinces).keys == Dedup(Map(provinces, KeyOf))
  {
    if provinces != [] {
      var init, last := provinces[..|provinces| - 1], provinces[|provinces| - 1];
      var t, k := Template(init), KeyOf(last);
      var m := Map(provinces, KeyOf);
      assert m[..|m| - 1] == Map(init, KeyOf) && m[|m| - 1] == k;
      TemplateKeys(init);
      TemplateGet(init, k);
      assert k in t.values <==> k in Dedup(Map(init, KeyOf));
      assert Template(provinces) == t.Put(k, ORIGIN);
    }
  }

  /** Distinct provinces with distinct keys give one key per province. */
  lemma TemplateSize(provinces: seq<Value>)
    requires Distinct(Map(provinces, KeyOf))
    ensures |Template(provinces).keys| == |provinces|
  {
    TemplateKeys(provinces);
    DedupOfDistinct(Map(provinces, KeyOf));
  }
}
