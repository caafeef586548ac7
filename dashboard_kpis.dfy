/**
 * The dashboard's headline figures: one pass over the district records sums
 * the absolute discrepancies, keeps the district with the largest one, counts
 * the critical districts, and tallies the seats each party won on each ballot;
 * the party with the most seats is then read off the sorted tally.
 */
module DashboardKpis {
  import opened Wrappers
  import opened Seqs
  import opened Sorting
  import opened JsObject
  import opened DashboardData

  /** The figures `kpis` holds. */
  datatype Kpis = Kpis(
    totalDistricts: nat,
    totalDiscrepancy: int,
    maxDiscrepancyDistrict: District,
    topConstituencyParty: (string, int),
    topPartyListParty: (string, int),
    constituencyWins: Dict<int>,
    criticalCount: nat)

  function AbsDiscrepancy(d: District): int {
    d.absDiscrepancy
  }

  function IsCritical(d: District): bool {
    d.isCritical
  }

  function ConstituencyWinner(d: District): string {
    d.winningConstituencyParty
  }

  function PartyListWinner(d: District): string {
    d.winningPartyListParty
  }

  function Count(e: (string, int)): int {
    e.1
  }

  /** `wins[name] = (wins[name] || 0) + 1`. */
  function Bump(wins: Dict<int>, name: string): (r: Dict<int>)
    ensures wins.Valid() ==> r.Valid()
    ensures r.Get(name) == Some(wins.Get(name).GetOr(0) + 1)
    ensures forall p :: p != name ==> r.Get(p) == wins.Get(p)
  {
    wins.Put(name, wins.Get(name).GetOr(0) + 1)
  }

  /** The win dictionary after counting `names` one by one. */
  function Tally(names: seq<string>): (wins: Dict<int>)
    ensures |wins.keys| <= |names|
  {
    if names == [] then Empty()
    else
      var init, last := names[..|names| - 1], names[|names| - 1];
      Bump(Tally(init), last)
  }

  /** The tally is a well-formed object. */
  lemma {:induction false} TallyValid(names: seq<string>)
    ensures Tally(names).Valid()
  {
    if names != [] {
      TallyValid(names[..|names| - 1]);
    }
  }

  /** Each name that won holds its number of wins; no other name has an
      entry. */
  lemma {:induction false} TallyCount(names: seq<string>, p: string)
    ensures Tally(names).Get(p) == if p in names then Some(Occurrences(names, p)) else None
  {
    if names != [] {
      var init, last := names[..|names| - 1], names[|names| - 1];
      TallyCount(init, p);
      assert names == init + [last];
    }
  }

  /** The keys are the distinct names in the order of their first win. */
  lemma {:induction false} TallyKeys(names: seq<string>)
    ensures Tally(names).keys == Dedup(names)
  {
    if names != [] {
      var init, last := names[..|names| - 1], names[|names| - 1];
      TallyKeys(init);
      TallyCount(init, last);
    }
  }

  /** The counts of a tally add up to the number of names counted. */
  lemma {:induction false} TallySum(names: seq<string>)
    ensures Tally(names).Valid() && SumBy(Tally(names).Entries(), Count) == |names|
  {
    TallyValid(names);
    if names != [] {
      var init, last := names[..|names| - 1], names[|names| - 1];
      TallySum(init);
      var d := Tally(init);
      var d' := Tally(names);
      var es := d.Entries();
      TallyCount(init, last);
      if last in d.values {
        var j :| 0 <= j < |d.keys| && d.keys[j] == last;
        PutExistingEntries(d, j, d.values[last] + 1);
        SumByUpdate(es, j, (last, d.values[last] + 1), Count);
      } else {
        PutNewEntries(d, last, 1);
        SumByConcat(es, [(last, 1)], Count);
      }
    }
  }

  /** `Object.entries(wins).sort((a, b) => b[1] - a[1])[0]`. */
  function TopEntry(wins: Dict<int>): (string, int)
    requires wins.Valid() && wins.keys != []
  {
    SortBy(wins.Entries(), Desc(Count))[0]
  }

  /** `Object.entries(wins).sort((a, b) => b[1] - a[1])[0]` for the tally of
      a non-empty list of winners. */
  function TopParty(names: seq<string>): (string, int)
    requires names != []
  {
    TallyValid(names);
    TallyCount(names, names[0]);
    TopEntry(Tally(names))
  }

  /** Entry `i` of the tally is a name that won, with its count. */
  lemma TallyEntry(names: seq<string>, i: int)
    requires 0 <= i < |Tally(names).keys|
    ensures Tally(names).Valid()
    ensures var k := Tally(names).keys[i];
      k in names && Tally(names).Entries()[i] == (k, Occurrences(names, k))
  {
    TallyValid(names);
    TallyCount(names, Tally(names).keys[i]);
  }

  /** A name that won has an entry holding its count. */
  lemma TallyHasEntry(names: seq<string>, p: string) returns (i: int)
    requires p in names
    ensures Tally(names).Valid() && 0 <= i < |Tally(names).keys|
    ensures Tally(names).Entries()[i] == (p, Occurrences(names, p))
  {
    TallyValid(names);
    TallyCount(names, p);
    i :| 0 <= i < |Tally(names).keys| && Tally(names).keys[i] == p;
  }

  /** The entry holding the first largest count beats every name: it won
      at least as often, and on a tie its first win comes first. */
  lemma FirstMaxEntryBeats(names: seq<string>, k: int, p: string)
    requires Tally(names).Valid() && IsFirstMax(Tally(names).Entries(), Count, k)
    requires p in names
    ensures var top := Tally(names).Entries()[k];
      && top.0 in names
      && Occurrences(names, p) <= top.1
      && (Occurrences(names, p) == top.1 ==> FirstIndex(names, top.0) <= FirstIndex(names, p))
  {
    var es := Tally(names).Entries();
    var keys := Tally(names).keys;
    TallyKeys(names);
    var j :| 0 <= j < |keys| && keys[j] == p;
    TallyEntry(names, j);
    TallyEntry(names, k);
    var top := es[k];
    assert top == (keys[k], Occurrences(names, keys[k]));
    assert es[j] == (p, Occurrences(names, p));
    assert Occurrences(names, p) <= top.1;
    if Occurrences(names, p) == top.1 {
      if k < j {
        DedupOrder(names);
        assert keys == Dedup(names);
        assert FirstIndex(names, Dedup(names)[k]) < FirstIndex(names, Dedup(names)[j]);
      }
    }
  }

  /** The top party has won the most seats; among parties with as many it is
      the one whose first seat comes first in the data. */
  lemma TopEntryMostWins(names: seq<string>)
    requires names != []
    ensures Tally(names).Valid() && Tally(names).keys != []
    ensures var top := TopEntry(Tally(names));
      && top.0 in names
      && top.1 == Occurrences(names, top.0)
      && (forall p :: p in names ==> Occurrences(names, p) <= top.1)
      && (forall p :: p in names && Occurrences(names, p) == top.1 ==> FirstIndex(names, top.0) <= FirstIndex(names, p))
  {
    TallyValid(names);
    TallyCount(names, names[0]);
    var es := Tally(names).Entries();
    SortDescHead(es, Count);
    var k := FirstMaxIndex(es, Count);
    TallyEntry(names, k);
    forall p | p in names
      ensures Occurrences(names, p) <= es[k].1
      ensures Occurrences(names, p) == es[k].1 ==> FirstIndex(names, es[k].0) <= FirstIndex(names, p)
    {
      FirstMaxEntryBeats(names, k, p);
    }
  }

  /** The running values of the `kpis` pass. */
  datatype Tallies = Tallies(
    totalDiscrepancy: int,
    maxDiscrepancyDistrict: District,
    constituencyWins: Dict<int>,
    partyListWins: Dict<int>,
    criticalCount: nat)

  /** The `forEach` callback: one district added to the running values. */
  function Visit(acc: Tallies, row: District): Tallies {
    Tallies(
      acc.totalDiscrepancy + row.absDiscrepancy,
      if row.absDiscrepancy > acc.maxDiscrepancyDistrict.absDiscrepancy then row else acc.maxDiscrepancyDistrict,
      Bump(acc.constituencyWins, row.winningConstituencyParty),
      Bump(acc.partyListWins, row.winningPartyListParty),
      if row.isCritical then acc.criticalCount + 1 else acc.criticalCount)
  }

  /** The running values after visiting `rows`, starting from `first` as the
      largest discrepancy. */
  function Scan(rows: seq<District>, first: District): Tallies {
    if rows == [] then Tallies(0, first, Empty(), Empty(), 0)
    else Visit(Scan(rows[..|rows| - 1], first), rows[|rows| - 1])
  }

  lemma ScanPrefix(rows: seq<District>, first: District, i: int)
    requires 0 <= i < |rows|
    ensures Scan(rows[..i + 1], first) == Visit(Scan(rows[..i], first), rows[i])
  {
    assert rows[..i + 1][..i] == rows[..i];
  }

  /** The running total is the sum of the absolute discrepancies. */
  lemma {:induction false} ScanTotal(rows: seq<District>, first: District)
    ensures Scan(rows, first).totalDiscrepancy == SumBy(rows, AbsDiscrepancy)
  {
    if rows != [] {
      ScanTotal(rows[..|rows| - 1], first);
    }
  }

  /** The running count is the number of critical districts. */
  lemma {:induction false} ScanCritical(rows: seq<District>, first: District)
    ensures Scan(rows, first).criticalCount == |Filter(rows, IsCritical)|
  {
    if rows != [] {
      ScanCritical(rows[..|rows| - 1], first);
    }
  }

  /** Starting from the first district, the kept district is the first one
      with the largest absolute discrepancy. */
  lemma {:induction false} ScanMax(rows: seq<District>)
    requires rows != []
    ensures Scan(rows, rows[0]).maxDiscrepancyDistrict == rows[FirstMaxIndex(rows, AbsDiscrepancy)]
  {
    if |rows| > 1 {
      var init := rows[..|rows| - 1];
      ScanMax(init);
      assert init[0] == rows[0];
    }
  }

  /** The constituency win dictionary tallies the constituency winners. */
  lemma {:induction false} ScanConstituencyWins(rows: seq<District>, first: District)
    ensures Scan(rows, first).constituencyWins == Tally(Map(rows, ConstituencyWinner))
  {
    if rows != [] {
      var init := rows[..|rows| - 1];
      ScanConstituencyWins(init, first);
      assert Map(rows, ConstituencyWinner)[..|init|] == Map(init, ConstituencyWinner);
    }
  }

  /** The party-list win dictionary tallies the party-list winners. */
  lemma {:induction false} ScanPartyListWins(rows: seq<District>, first: District)
    ensures Scan(rows, first).partyListWins == Tally(Map(rows, PartyListWinner))
  {
    if rows != [] {
      var init := rows[..|rows| - 1];
      ScanPartyListWins(init, first);
      assert Map(rows, PartyListWinner)[..|init|] == Map(init, PartyListWinner);
    }
  }

  /** The `kpis` computation: `None` (`null`) for no data, otherwise one pass
      over the records. */
  method ComputeKpis(data: seq<District>) returns (kpis: Option<Kpis>)
    ensures kpis.None? <==> data == []
    ensures kpis.Some? ==>
      && kpis.value.totalDistricts == |data|
      && kpis.value.totalDiscrepancy == SumBy(data, AbsDiscrepancy)
      && kpis.value.maxDiscrepancyDistrict == data[FirstMaxIndex(data, AbsDiscrepancy)]
      && kpis.value.criticalCount == |Filter(data, IsCritical)|
      && kpis.value.constituencyWins == Tally(Map(data, ConstituencyWinner))
      && kpis.value.topConstituencyParty == TopParty(Map(data, ConstituencyWinner))
      && kpis.value.topPartyListParty == TopParty(Map(data, PartyListWinner))
  {
    if |data| == 0 {
      return None;
    }
    var totalDiscrepancy := 0;
    var maxDiscrepancyDistrict := data[0];
    var constituencyWins := Empty<int>();
    var partyListWins := Empty<int>();
    var criticalCount := 0;
    for i := 0 to |data|
      invariant Tallies(totalDiscrepancy, maxDiscrepancyDistrict, constituencyWins, partyListWins, criticalCount)
        == Scan(data[..i], data[0])
    {
      var row := data[i];
      ScanPrefix(data, data[0], i);
      totalDiscrepancy := totalDiscrepancy + row.absDiscrepancy;
      if row.absDiscrepancy > maxDiscrepancyDistrict.absDiscrepancy {
        maxDiscrepancyDistrict := row;
      }
      if row.isCritical {
        criticalCount := criticalCount + 1;
      }
      constituencyWins := Bump(constituencyWins, row.winningConstituencyParty);
      partyListWins := Bump(partyListWins, row.winningPartyListParty);
    }
    assert data[..|data|] == data;
    ScanTotal(data, data[0]);
    ScanCritical(data, data[0]);
    ScanMax(data);
    ScanConstituencyWins(data, data[0]);
    ScanPartyListWins(data, data[0]);
    var cNames, pNames := Map(data, ConstituencyWinner), Map(data, PartyListWinner);
    TallyValid(cNames);
    TallyValid(pNames);
    TallyCount(cNames, cNames[0]);
    TallyCount(pNames, pNames[0]);
    var topConstituencyParty := TopEntry(constituencyWins);
    var topPartyListParty := TopEntry(partyListWins);
    kpis := Some(Kpis(
      totalDistricts := |data|,
      totalDiscrepancy := totalDiscrepancy,
      maxDiscrepancyDistrict := maxDiscrepancyDistrict,
      topConstituencyParty := topConstituencyParty,
      topPartyListParty := topPartyListParty,
      constituencyWins := constituencyWins,
      criticalCount := criticalCount));
  }

  /** The total is at least the discrepancy of every district, the largest
      included. */
  lemma TotalBoundsEach(data: seq<District>, i: int)
    requires 0 <= i < |data|
    requires forall d :: d in data ==> d.absDiscrepancy >= 0
    ensures SumBy(data, AbsDiscrepancy) >= data[i].absDiscrepancy
  {
    SumByBoundsTerm(data, AbsDiscrepancy, i);
  }
}
