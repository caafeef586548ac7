/**
 * Plain JavaScript objects used as dictionaries, and `Map`s built from entry
 * lists.
 *
 * An object enumerates its keys (`Object.keys`, `Object.entries`) in the
 * order they were first assigned. A `new Map(entries)` keeps, for each key,
 * the value of the last entry with that key.
 */
module JsObject {
  import opened Wrappers
  import opened Seqs

  /** An object with string keys: its keys in insertion order and the value
      stored under each. */
  datatype Dict<V> = Dict(keys: seq<string>, values: map<string, V>) {

    /** Every key is listed once, and exactly the stored keys are listed. */
    ghost predicate Valid() {
      Distinct(keys) && forall k :: k in values <==> k in keys
    }

    /** `obj[k]`, `None` standing for `undefined`. */
    function Get(k: string): Option<V> {
      if k in values then Some(values[k]) else None
    }

    /** `obj[k] = v`: a new key goes to the end of the key order, an existing
        key keeps its place. */
    function Put(k: string, v: V): (r: Dict<V>)
      ensures Valid() ==> r.Valid()
      ensures r.Get(k) == Some(v)
      ensures forall k' :: k' != k ==> r.Get(k') == Get(k')
      ensures k in values ==> r.keys == keys
      ensures k !in values ==> r.keys == keys + [k]
    {
      if k in values then Dict(keys, values[k := v])
      else Dict(keys + [k], values[k := v])
    }

    /** `Object.entries(obj)`: the key-value pairs in key order. */
    function Entries(): (es: seq<(string, V)>)
      requires Valid()
      ensures |es| == |keys|
      ensures forall i :: 0 <= i < |es| ==> es[i].0 == keys[i] && Get(keys[i]) == Some(es[i].1)
    {
      seq(|keys|, i requires 0 <= i < |keys| => (keys[i], values[keys[i]]))
    }
  }

  /** Overwriting a key replaces its entry in place. */
  lemma PutExistingEntries<V>(d: Dict<V>, j: int, v: V)
    requires d.Valid() && 0 <= j < |d.keys|
    ensures d.Put(d.keys[j], v).Valid()
    ensures d.Put(d.keys[j], v).Entries() == d.Entries()[j := (d.keys[j], v)]
  {
    var k := d.keys[j];
    var es, es' := d.Entries(), d.Put(k, v).Entries();
    forall i | 0 <= i < |es| ensures es'[i] == es[j := (k, v)][i] {
      if i != j {
        assert d.keys[i] != k;
      }
    }
  }

  /** Assigning a new key appends its entry. */
  lemma PutNewEntries<V>(d: Dict<V>, k: string, v: V)
    requires d.Valid() && k !in d.values
    ensures d.Put(k, v).Valid()
    ensures d.Put(k, v).Entries() == d.Entries() + [(k, v)]
  {
    var es, es' := d.Entries(), d.Put(k, v).Entries();
    forall i | 0 <= i < |es| ensures es'[i] == es[i] {
      assert d.keys[i] != k;
    }
  }

  /** `{}`. */
  function Empty<V>(): (d: Dict<V>)
    ensures d.Valid() && d.keys == []
    ensures forall k :: d.Get(k) == None
  {
    Dict([], map[])
  }

  /** `row` is the last of `rows` under key `k`. */
  predicate IsLastWithKey<R>(rows: seq<R>, key: R -> string, k: string, i: int) {
    0 <= i < |rows| && key(rows[i]) == k && forall j :: i < j < |rows| ==> key(rows[j]) != k
  }

  /** `new Map(rows.map(r => [key(r), r]))`: every key of some row is present,
      and it holds the last row with that key. */
  function IndexBy<R>(rows: seq<R>, key: R -> string): (m: map<string, R>)
    ensures forall k :: k in m <==> exists i :: 0 <= i < |rows| && key(rows[i]) == k
    ensures forall k :: k in m ==> exists i :: IsLastWithKey(rows, key, k, i) && m[k] == rows[i]
  {
    if rows == [] then map[]
    else
      var init, last := rows[..|rows| - 1], rows[|rows| - 1];
      var m := IndexBy(init, key);
      var r := m[key(last) := last];
      assert IsLastWithKey(rows, key, key(last), |rows| - 1);
      forall k | k in r && k != key(last)
        ensures exists i :: IsLastWithKey(rows, key, k, i) && r[k] == rows[i]
      {
        var i :| IsLastWithKey(init, key, k, i) && m[k] == init[i];
        assert IsLastWithKey(rows, key, k, i);
      }
      forall k | (exists i :: 0 <= i < |rows| && key(rows[i]) == k) && k != key(last)
        ensures k in m
      {
        var i :| 0 <= i < |rows| && key(rows[i]) == k;
        assert key(init[i]) == k;
      }
      r
  }

  /** A row that no later row shadows is what the index holds for its key. */
  lemma IndexByLastWins<R>(rows: seq<R>, key: R -> string, i: int)
    requires 0 <= i < |rows|
    requires forall j :: i < j < |rows| ==> key(rows[j]) != key(rows[i])
    ensures key(rows[i]) in IndexBy(rows, key)
    ensures IndexBy(rows, key)[key(rows[i])] == rows[i]
  {
    var m := IndexBy(rows, key);
    var k := key(rows[i]);
    assert k in m;
    var i' :| IsLastWithKey(rows, key, k, i') && m[k] == rows[i'];
    if i' < i {
      assert key(rows[i]) == k;
    } else if i < i' {
      assert key(rows[i']) == k;
    }
  }
}
