/**
 * The OCR reconciliation script: it pairs the constituency tally sheet and the
 * party-list tally sheet of each district (both read by OCR, keyed by file
 * name), keeps the districts where both sides were read with a turnout, and
 * derives for each the ballot discrepancy, the winners, the margins and the
 * "critical" flag; the records come out sorted by province, then district.
 *
 * The two loaded directories are the inputs; reading and writing files is not
 * part of the model.
 */
module OcrReconcile {
  import opened Wrappers
  import opened Seqs
  import opened Sorting
  import opened JsValues
  import opened JsObject

  /** "Unknown", the script's name for a missing winner. */
  const UNKNOWN: string := "ไม่ทราบ"

  /** One line of a sheet's `results`: a party and its votes. */
  datatype PartyResult = PartyResult(party: Value, votes: int)

  /** A tally sheet as its JSON file holds it; a field the file lacks is
      `Undefined`, and `results` is `None` when missing. */
  datatype Sheet = Sheet(
    provinceName: Value,
    constituencyNumber: Value,
    votersCame: Value,
    invalidVotes: Value,
    eligibleVoters: Value,
    results: Option<seq<PartyResult>>)

  /** One output record of `plot-ocr.json`. */
  datatype OcrRecord = OcrRecord(
    province: string,
    district: int,
    constituencyVoters: int,
    partyListVoters: int,
    discrepancy: int,
    absDiscrepancy: int,
    winningConstituencyParty: string,
    winningPartyListParty: string,
    constituencyMargin: int,
    partyListMargin: int,
    invalidVotes: int,
    eligibleVoters: int,
    invalidPercentage: real,
    isCritical: bool,
    referendumTurnout: int,
    turnoutDifference: int,
    turnoutDiffPercentage: real,
    dataSource: string)

  function Votes(r: PartyResult): int {
    r.votes
  }

  /** `getTopParty`: the party of the first line with the most votes, or
      "unknown" when there are no lines. */
  function TopParty(results: Option<seq<PartyResult>>): (p: Value)
    ensures results.None? || results.value == [] ==> p == Str(UNKNOWN)
    ensures results.Some? && results.value != [] ==>
      exists k :: IsFirstMax(results.value, Votes, k) && p == results.value[k].party
  {
    match results
    case None => Str(UNKNOWN)
    case Some(rs) => if rs == [] then Str(UNKNOWN) else rs[FirstMaxIndex(rs, Votes)].party
  }

  /** `top` holds the most votes and `second` the most among the other lines:
      the two leaders of `rs`. */
  ghost predicate TopTwo(rs: seq<PartyResult>, top: PartyResult, second: PartyResult) {
    && multiset{top, second} <= multiset(rs)
    && (forall y :: y in rs ==> y.votes <= top.votes)
    && (forall y :: y in multiset(rs) - multiset{top} ==> y.votes <= second.votes)
  }

  /** `getMargin`: the lead of the winner over the runner-up, 0 with fewer
      than two lines. The lines are sorted on a copy. */
  function Margin(results: Option<seq<PartyResult>>): (m: int)
    ensures results.None? || |results.value| < 2 ==> m == 0
    ensures results.Some? && |results.value| >= 2 ==>
      exists top, second :: TopTwo(results.value, top, second) && m == top.votes - second.votes
    ensures m >= 0
  {
    match results
    case None => 0
    case Some(rs) =>
      if |rs| < 2 then 0
      else
        var sorted := SortBy(rs, Desc(Votes));
        SortedLeaders(rs);
        assert sorted[1] in multiset(rs);
        sorted[0].votes - sorted[1].votes
  }

  /** After the descending sort the first two lines are the two leaders. */
  lemma SortedLeaders(rs: seq<PartyResult>)
    requires |rs| >= 2
    ensures TopTwo(rs, SortBy(rs, Desc(Votes))[0], SortBy(rs, Desc(Votes))[1])
  {
    var s := SortBy(rs, Desc(Votes));
    SortDescOrdered(rs, Votes);
    assert |s| == |rs|;
    assert forall i, j :: 0 <= i < j < |s| ==> s[i].votes >= s[j].votes by {
      forall i, j | 0 <= i < j < |s| ensures s[i].votes >= s[j].votes {
        assert Votes(s[i]) >= Votes(s[j]);
      }
    }
    LeadersOfDescending(rs, s);
  }

  lemma LeadersOfDescending(rs: seq<PartyResult>, s: seq<PartyResult>)
    requires |s| >= 2 && multiset(s) == multiset(rs)
    requires forall i, j :: 0 <= i < j < |s| ==> s[i].votes >= s[j].votes
    ensures TopTwo(rs, s[0], s[1])
  {
    assert s == [s[0], s[1]] + s[2..];
    assert multiset(s) == multiset{s[0], s[1]} + multiset(s[2..]);
    forall y | y in rs ensures y.votes <= s[0].votes {
      assert y in multiset(s);
      var i :| 0 <= i < |s| && s[i] == y;
    }
    RestOfDescending(rs, s);
  }

  lemma RestOfDescending(rs: seq<PartyResult>, s: seq<PartyResult>)
    requires |s| >= 2 && multiset(s) == multiset(rs)
    requires forall i, j :: 0 <= i < j < |s| ==> s[i].votes >= s[j].votes
    ensures forall y :: y in multiset(rs) - multiset{s[0]} ==> y.votes <= s[1].votes
  {
    assert s == [s[0]] + s[1..];
    assert multiset(rs) - multiset{s[0]} == multiset(s[1..]);
    forall y | y in multiset(s[1..]) ensures y.votes <= s[1].votes {
      assert y in s[1..];
      var i :| 0 <= i < |s[1..]| && s[1..][i] == y;
      assert s[i + 1] == y;
    }
  }

  /** `String(w || 'ไม่ทราบ')`. */
  function WinnerName(w: Value): (name: string)
    ensures name != []
    ensures Truthy(w) ==> name == ToJsString(w)
    ensures !Truthy(w) ==> name == UNKNOWN
  {
    if Truthy(w) then ToJsString(w) else UNKNOWN
  }

  /** `voters > 0 ? (invalid / voters) * 100 : 0`: the invalid votes per
      hundred voters. */
  function InvalidShare(invalid: int, voters: int): (p: real)
    ensures voters > 0 ==> p * (voters as real) == (invalid as real) * 100.0
    ensures voters <= 0 ==> p == 0.0
  {
    if voters > 0 then
      var q := invalid as real / voters as real;
      assert q * (voters as real) == invalid as real;
      q * 100.0
    else 0.0
  }

  /** The record the script builds for a district both sheets cover. */
  function MakeRecord(con: Sheet, pl: Sheet): (r: OcrRecord)
    ensures r.province == (if Truthy(con.provinceName) then ToJsString(con.provinceName) else "")
    ensures r.district == NumberOrZero(con.constituencyNumber)
    ensures r.constituencyVoters == NumberOrZero(con.votersCame) && r.partyListVoters == NumberOrZero(pl.votersCame)
    ensures r.invalidVotes == NumberOrZero(con.invalidVotes) && r.eligibleVoters == NumberOrZero(con.eligibleVoters)
    ensures r.constituencyMargin == Margin(con.results) && r.partyListMargin == Margin(pl.results)
    ensures r.winningConstituencyParty == WinnerName(TopParty(con.results))
    ensures r.winningPartyListParty == WinnerName(TopParty(pl.results))
    ensures r.discrepancy == r.constituencyVoters - r.partyListVoters
    ensures r.absDiscrepancy >= 0
    ensures r.absDiscrepancy == r.discrepancy || r.absDiscrepancy == -r.discrepancy
    ensures r.isCritical <==> r.absDiscrepancy > r.constituencyMargin && r.constituencyMargin > 0
    ensures r.constituencyMargin >= 0 && r.partyListMargin >= 0
    ensures r.winningConstituencyParty != [] && r.winningPartyListParty != []
    ensures r.invalidPercentage == InvalidShare(r.invalidVotes, r.constituencyVoters)
    ensures r.referendumTurnout == 0 && r.turnoutDifference == 0 && r.turnoutDiffPercentage == 0.0
    ensures r.dataSource == "ocr"
  {
    var constituencyVoters := NumberOrZero(con.votersCame);
    var partyListVoters := NumberOrZero(pl.votersCame);
    var discrepancy := constituencyVoters - partyListVoters;
    var absDiscrepancy := if discrepancy < 0 then -discrepancy else discrepancy;
    var constituencyMargin := Margin(con.results);
    var invalidVotes := NumberOrZero(con.invalidVotes);
    var invalidPercentage := InvalidShare(invalidVotes, constituencyVoters);
    OcrRecord(
      province := if Truthy(con.provinceName) then ToJsString(con.provinceName) else "",
      district := NumberOrZero(con.constituencyNumber),
      constituencyVoters := constituencyVoters,
      partyListVoters := partyListVoters,
      discrepancy := discrepancy,
      absDiscrepancy := absDiscrepancy,
      winningConstituencyParty := WinnerName(TopParty(con.results)),
      winningPartyListParty := WinnerName(TopParty(pl.results)),
      constituencyMargin := constituencyMargin,
      partyListMargin := Margin(pl.results),
      invalidVotes := invalidVotes,
      eligibleVoters := NumberOrZero(con.eligibleVoters),
      invalidPercentage := invalidPercentage,
      isCritical := absDiscrepancy > constituencyMargin && constituencyMargin > 0,
      referendumTurnout := 0,
      turnoutDifference := 0,
      turnoutDiffPercentage := 0.0,
      dataSource := "ocr")
  }

  /** A file name yields a record: both directories have a sheet under it and
      both sheets report a non-zero turnout. */
  predicate Accepted(con: Dict<Sheet>, pl: Dict<Sheet>, key: string) {
    && key in con.values && key in pl.values
    && NumberOrZero(con.values[key].votersCame) != 0
    && NumberOrZero(pl.values[key].votersCame) != 0
  }

  function AcceptedIn(con: Dict<Sheet>, pl: Dict<Sheet>): string -> bool {
    key => Accepted(con, pl, key)
  }

  /** `r` is the record built for `key`. */
  predicate Produces(con: Dict<Sheet>, pl: Dict<Sheet>, key: string, r: OcrRecord) {
    Accepted(con, pl, key) && r == RecordFor(con, pl, key)
  }

  /** The records the loop pushes while visiting `keys`, in visiting order:
      one for each accepted key and nothing for the others. */
  function Collect(con: Dict<Sheet>, pl: Dict<Sheet>, keys: seq<string>): (rs: seq<OcrRecord>)
    ensures |rs| <= |keys|
  {
    if keys == [] then []
    else
      var init, last := keys[..|keys| - 1], keys[|keys| - 1];
      var rs := Collect(con, pl, init);
      if Accepted(con, pl, last) then rs + [RecordFor(con, pl, last)] else rs
  }

  /** Every record pushed comes from a visited key that is accepted. */
  lemma {:induction false} CollectSound(con: Dict<Sheet>, pl: Dict<Sheet>, keys: seq<string>, r: OcrRecord)
    requires r in Collect(con, pl, keys)
    ensures exists k :: k in keys && Produces(con, pl, k, r)
  {
    var init, last := keys[..|keys| - 1], keys[|keys| - 1];
    assert keys == init + [last];
    if r in Collect(con, pl, init) {
      CollectSound(con, pl, init, r);
      var k :| k in init && Produces(con, pl, k, r);
      assert k in keys;
    } else {
      assert Produces(con, pl, last, r);
    }
  }

  /** Every visited key that is accepted gets its record pushed. */
  lemma {:induction false} CollectComplete(con: Dict<Sheet>, pl: Dict<Sheet>, keys: seq<string>, k: string)
    requires k in keys && Accepted(con, pl, k)
    ensures RecordFor(con, pl, k) in Collect(con, pl, keys)
  {
    var init, last := keys[..|keys| - 1], keys[|keys| - 1];
    assert keys == init + [last];
    if k != last {
      CollectComplete(con, pl, init, k);
    }
  }

  function RecordFor(con: Dict<Sheet>, pl: Dict<Sheet>, key: string): OcrRecord
    requires key in con.values && key in pl.values
  {
    MakeRecord(con.values[key], pl.values[key])
  }

  /** One record per accepted key. */
  lemma {:induction false} CollectCount(con: Dict<Sheet>, pl: Dict<Sheet>, keys: seq<string>)
    ensures |Collect(con, pl, keys)| == |Filter(keys, AcceptedIn(con, pl))|
  {
    if keys != [] {
      CollectCount(con, pl, keys[..|keys| - 1]);
    }
  }

  /** The keys visited: the constituency file names, then the party-list file
      names, each once (`new Set([...a, ...b])`). */
  function AllKeys(con: Dict<Sheet>, pl: Dict<Sheet>): seq<string> {
    Dedup(con.keys + pl.keys)
  }

  /** The comparator of the final sort: province by plain string order, then
      district number. */
  function OcrOrder(a: OcrRecord, b: OcrRecord): int {
    if LexLess(a.province, b.province) then -1
    else if LexLess(b.province, a.province) then 1
    else a.district - b.district
  }

  /** `a` may precede `b`: a smaller province, or the same province and a
      district not larger. */
  predicate InOcrOrder(a: OcrRecord, b: OcrRecord) {
    LexLess(a.province, b.province) || (a.province == b.province && a.district <= b.district)
  }

  lemma OcrOrderMeaning(a: OcrRecord, b: OcrRecord)
    ensures OcrOrder(a, b) <= 0 <==> InOcrOrder(a, b)
  {
    LexLessTrichotomy(a.province, b.province);
    LexLessIrreflexive(a.province);
  }

  /** The comparator is a total preorder, so the sort is well defined. */
  lemma OcrOrderConsistent(s: seq<OcrRecord>)
    ensures ConsistentOn(OcrOrder, s)
  {
    forall a, b | a in s && b in s ensures OcrOrder(a, b) <= 0 || OcrOrder(b, a) <= 0 {
      OcrOrderMeaning(a, b);
      OcrOrderMeaning(b, a);
    }
    forall a, b, c | a in s && b in s && c in s && OcrOrder(a, b) <= 0 && OcrOrder(b, c) <= 0
      ensures OcrOrder(a, c) <= 0
    {
      OcrOrderMeaning(a, b);
      OcrOrderMeaning(b, c);
      OcrOrderMeaning(a, c);
      if LexLess(a.province, b.province) && LexLess(b.province, c.province) {
        LexLessTransitive(a.province, b.province, c.province);
      }
    }
  }

  /** The body of `main`: visit every key once, skip the keys one side lacks
      or whose turnout is missing, push a record for the rest, then sort. */
  method Reconcile(constituencyMap: Dict<Sheet>, partyListMap: Dict<Sheet>) returns (results: seq<OcrRecord>)
    ensures results == SortBy(Collect(constituencyMap, partyListMap, AllKeys(constituencyMap, partyListMap)), OcrOrder)
  {
    results := [];
    var allKeys := Dedup(constituencyMap.keys + partyListMap.keys);
    for i := 0 to |allKeys|
      invariant results == Collect(constituencyMap, partyListMap, allKeys[..i])
    {
      var key := allKeys[i];
      assert allKeys[..i + 1][..i] == allKeys[..i];
      var con := constituencyMap.Get(key);
      var pl := partyListMap.Get(key);
      if con.None? && pl.None? {
        continue;
      }
      if con.None? || pl.None? {
        continue;
      }
      var conVoters := NumberOrZero(con.value.votersCame);
      var plVoters := NumberOrZero(pl.value.votersCame);
      if conVoters == 0 || plVoters == 0 {
        continue;
      }
      results := results + [RecordFor(constituencyMap, partyListMap, key)];
    }
    assert allKeys[..|allKeys|] == allKeys;
    results := SortBy(results, OcrOrder);
  }

  /** The output of the script: exactly the records of the accepted keys (a
      permutation of them), ordered by province and then district. */
  lemma ReconcileOrdered(con: Dict<Sheet>, pl: Dict<Sheet>)
    ensures var out := SortBy(Collect(con, pl, AllKeys(con, pl)), OcrOrder);
      && multiset(out) == multiset(Collect(con, pl, AllKeys(con, pl)))
      && forall i, j :: 0 <= i < j < |out| ==> InOcrOrder(out[i], out[j])
  {
    var rs := Collect(con, pl, AllKeys(con, pl));
    OcrOrderConsistent(rs);
    SortBySorted(rs, OcrOrder);
    var out := SortBy(rs, OcrOrder);
    forall i, j | 0 <= i < j < |out| ensures InOcrOrder(out[i], out[j]) {
      OcrOrderMeaning(out[i], out[j]);
    }
  }

  /** A record comes from a file name both directories hold, with a non-zero
      turnout on both sides. */
  lemma ReconcileSound(con: Dict<Sheet>, pl: Dict<Sheet>, r: OcrRecord)
    requires r in SortBy(Collect(con, pl, AllKeys(con, pl)), OcrOrder)
    ensures exists k :: k in AllKeys(con, pl) && Produces(con, pl, k, r)
  {
    var rs := Collect(con, pl, AllKeys(con, pl));
    assert r in multiset(SortBy(rs, OcrOrder));
    assert r in multiset(rs);
    CollectSound(con, pl, AllKeys(con, pl), r);
  }

  /** Every file name both directories hold with a non-zero turnout on both
      sides gives its record. */
  lemma ReconcileComplete(con: Dict<Sheet>, pl: Dict<Sheet>, key: string)
    requires con.Valid() && pl.Valid()
    requires Accepted(con, pl, key)
    ensures RecordFor(con, pl, key) in SortBy(Collect(con, pl, AllKeys(con, pl)), OcrOrder)
  {
    var rs := Collect(con, pl, AllKeys(con, pl));
    assert key in con.keys + pl.keys;
    assert key in AllKeys(con, pl);
    CollectComplete(con, pl, AllKeys(con, pl), key);
    assert RecordFor(con, pl, key) in multiset(rs);
    assert RecordFor(con, pl, key) in multiset(SortBy(rs, OcrOrder));
  }

  /** Each file name gives at most one record, so there are no more records
      than names common to both directories; directories without a common
      name give none. */
  lemma ReconcileCount(con: Dict<Sheet>, pl: Dict<Sheet>)
    ensures |SortBy(Collect(con, pl, AllKeys(con, pl)), OcrOrder)| <= |con.values.Keys * pl.values.Keys|
  {
    var keys := AllKeys(con, pl);
    var f := Filter(keys, AcceptedIn(con, pl));
    CollectCount(con, pl, keys);
    FilterDistinct(keys, AcceptedIn(con, pl));
    DistinctCardinality(f);
    var fs := set x | x in f;
    assert fs <= con.values.Keys * pl.values.Keys;
    SubsetCardinality(fs, con.values.Keys * pl.values.Keys);
  }

  lemma SubsetCardinality<T>(a: set<T>, b: set<T>)
    requires a <= b
    ensures |a| <= |b|
  {
    assert b == a + (b - a);
  }
}
