/**
 * The dashboard's `processData`: each row of the election sheet (`plot.json`)
 * becomes a district record, joined by name with the constituency sheet
 * (invalid ballots, "vote no") and the referendum sheet (turnout).
 *
 * Cells are raw JSON values; the sheets' Thai column names are given beside
 * each field.
 */
module DashboardData {
  import opened Wrappers
  import opened Seqs
  import opened JsValues
  import opened JsObject

  /** The dashboard's name for a missing winner. */
  const UNKNOWN_WINNER: string := "Unknown"

  /** A row of the election sheet. */
  datatype PlotRow = PlotRow(
    province: Value,            // จังหวัด
    district: Value,            // เขตเลือกตั้งที่
    constituencyVoters: Value,  // ผู้มาใช้สิทธิ์ ส.ส. เขต
    partyListVoters: Value,     // ผู้มาใช้สิทธิ์ บัญชีรายชื่อ
    ballotDifference: Value,    // ผลต่าง บัตร
    margin: Value,              // ผลต่าง เขต ที่ 1 - ที่ 2
    constituencyWinner: Value,  // พรรคชนะ ส.ส. เขต
    partyListWinner: Value)     // พรรคชนะ บัญชีรายชือ

  /** A row of the constituency sheet. */
  datatype ConstituencyRow = ConstituencyRow(
    province: Value,            // จังหวัด
    district: Value,            // เขตเลือกตั้งที่
    invalidBallots: Value,      // บัตรเสีย
    voteNo: Value)              // บัตรไม่เลือกผู้ใด

  /** A row of the referendum sheet. */
  datatype ReferendumRow = ReferendumRow(
    province: Value,            // จังหวัด
    district: Value,            // เขตเลือกตั้งที่
    turnout: Value)             // ผู้มาใช้สิทธิ์

  /** The record the dashboard works on; `district` is `None` for `NaN`. */
  datatype District = District(
    province: string,
    district: Option<int>,
    constituencyVoters: int,
    partyListVoters: int,
    discrepancy: int,
    absDiscrepancy: int,
    marginOfVictory: int,
    isCritical: bool,
    winningConstituencyParty: string,
    winningPartyListParty: string,
    invalidBallots: int,
    voteNo: int,
    invalidPercentage: Percentage,
    referendumTurnout: int,
    turnoutDifference: int,
    turnoutDiffPercentage: Percentage)

  /** `getNum`: a number as is, a string with its thousands separators
      dropped and its leading integer read (0 when there is none), anything
      else 0. */
  function GetNum(v: Value): (n: int)
    ensures v.Num? ==> n == v.n
    ensures v.Str? && v.s != [] && AllDigits(v.s) ==> n == DigitsValue(v.s)
    ensures v.Undefined? || v.Null? ==> n == 0
  {
    match v
    case Num(n) => n
    case Str(s) => GetNumDigits(s); ParseInt(RemoveCommas(s)).GetOr(0)
    case _ => 0
  }

  /** A cell of bare digits holds no separator, so it is read whole. */
  lemma GetNumDigits(s: string)
    ensures s != [] && AllDigits(s) ==> ParseInt(RemoveCommas(s)) == Some(DigitsValue(s))
  {
    if s != [] && AllDigits(s) {
      assert ',' !in s by {
        assert !IsDigit(',');
      }
      RemoveCommasNone(s);
      ParseIntOfDigits("", s, "");
      assert "" + s + "" == s;
    }
  }

  /** A vote count written with thousands separators reads back as itself. */
  lemma GetNumGrouped(n: int)
    ensures GetNum(Str(Grouped(n))) == n
  {
    if n >= 0 {
      GetNumGroupedNat(n);
    } else {
      GetNumGroupedNegative(n);
    }
  }

  lemma GetNumGroupedNat(n: nat)
    ensures GetNum(Str(GroupedNat(n))) == n
  {
    GroupedNatDigits(n);
    var d := RemoveCommas(GroupedNat(n));
    ParseIntOfDigits("", d, "");
    assert "" + d + "" == d;
  }

  lemma GetNumGroupedNegative(n: int)
    requires n < 0
    ensures GetNum(Str(Grouped(n))) == n
  {
    var m: nat := -n;
    var g := GroupedNat(m);
    var d := RemoveCommas(g);
    GroupedNatDigits(m);
    assert AllDigits(d) && d != [] && DigitsValue(d) == m;
    var x := Grouped(n);
    assert x == "-" + g;
    var y := RemoveCommas(x);
    assert y == "-" + d by {
      RemoveCommasConcat("-", g);
      assert RemoveCommas("-") == "-" by {
        assert "-"[..0] == [];
      }
    }
    ParseIntNegated(d);
    assert ParseInt("-" + d) == Some(n);
  }

  /** A number written plainly reads back as itself. */
  lemma GetNumPlain(n: int)
    ensures GetNum(Str(IntToString(n))) == n
  {
    assert ',' !in IntToString(n) by {
      if n < 0 {
        assert IntToString(n) == "-" + NatToString(-n);
      }
    }
    RemoveCommasNone(IntToString(n));
    ParseIntOfIntToString(n);
  }

  /** Text without any digit, the empty string among it, counts as 0. */
  lemma GetNumNoDigits(s: string)
    requires forall c :: c in s ==> !IsDigit(c)
    ensures GetNum(Str(s)) == 0
  {
    ParseIntNoDigits(RemoveCommas(s));
  }


  /** The key a side sheet is indexed by: trimmed province, `-`, and the
      district cell as written. */
  function SideKey(province: Value, district: Value): string {
    Trim(ToJsString(province)) + "-" + ToJsString(district)
  }

  function ConstituencyKey(row: ConstituencyRow): string {
    SideKey(row.province, row.district)
  }

  function ReferendumKey(row: ReferendumRow): string {
    SideKey(row.province, row.district)
  }

  /** `${district}` for the parsed district: `NaN` when it did not parse. */
  function DistrictText(district: Option<int>): string {
    match district
    case None => "NaN"
    case Some(n) => IntToString(n)
  }

  /** The key a plot row looks the side sheets up with: trimmed province, `-`,
      and the district as `parseInt` read it. */
  function LookupKey(province: string, district: Option<int>): string {
    province + "-" + DistrictText(district)
  }

  /** The join works for districts written as numbers, or as plain digit
      strings, on both sides: a plot row finds the side row with the same
      trimmed province and district number. */
  lemma JoinKeysAgree(plotProvince: Value, sideProvince: Value, n: int, plotDistrict: Value, sideDistrict: Value)
    requires Trim(ToJsString(plotProvince)) == Trim(ToJsString(sideProvince))
    requires plotDistrict == Num(n) || plotDistrict == Str(IntToString(n))
    requires sideDistrict == Num(n) || sideDistrict == Str(IntToString(n))
    ensures LookupKey(Trim(ToJsString(plotProvince)), ParseInt(ToJsString(plotDistrict))) == SideKey(sideProvince, sideDistrict)
  {
    ParseIntOfIntToString(n);
  }

  /** A percentage `part / whole * 100`, kept as the exact fraction; the
      zero share is `Percentage(0, 1)`. */
  datatype Percentage = Percentage(part: int, whole: int) {

    /** The number the dashboard holds. */
    function Real(): real {
      if whole == 0 then 0.0 else (part as real / whole as real) * 100.0
    }
  }

  /** `whole > 0 ? (part / whole) * 100 : 0`. */
  function Percent(part: int, whole: int): (p: Percentage)
    ensures p.whole > 0
  {
    if whole > 0 then Percentage(part, whole) else Percentage(0, 1)
  }

  /** The share is the part per hundred of the whole, 0 for a whole that is
      not positive, and positive exactly when both part and whole are. */
  lemma PercentMeaning(part: int, whole: int)
    ensures whole > 0 ==> Percent(part, whole).Real() * (whole as real) == (part as real) * 100.0
    ensures whole <= 0 ==> Percent(part, whole).Real() == 0.0
    ensures Percent(part, whole).Real() > 0.0 <==> whole > 0 && part > 0
  {
    if whole > 0 {
      var q := part as real / whole as real;
      assert q * (whole as real) == part as real;
      assert q > 0.0 <==> part > 0;
    }
  }

  /** A share of a positive whole reads 0 exactly when its part is 0. */
  lemma ZeroPercent(share: Percentage)
    requires share.whole > 0
    ensures share.Real() == 0.0 <==> share.part == 0
  {
  }

  /** `String(w || 'Unknown').trim()`. */
  function Winner(w: Value): (name: string)
    ensures Truthy(w) ==> name == Trim(ToJsString(w))
    ensures name == [] || (!IsWhitespace(name[0]) && !IsWhitespace(name[|name| - 1]))
  {
    var t := TrimStart(ToJsString(if Truthy(w) then w else Str(UNKNOWN_WINNER)));
    var r := TrimEnd(t);
    assert r != [] ==> r[0] == t[0];
    r
  }

  /** The fields `processData` computes from the others: the absolute gap,
      the critical flag (the gap exceeds the margin), the turnout difference
      and the two shares. */
  predicate DerivedFields(r: District) {
    && r.absDiscrepancy >= 0
    && (r.absDiscrepancy == r.discrepancy || r.absDiscrepancy == -r.discrepancy)
    && (r.isCritical <==> r.absDiscrepancy > r.marginOfVictory)
    && r.turnoutDifference == r.constituencyVoters - r.referendumTurnout
    && r.invalidPercentage == Percent(r.invalidBallots + r.voteNo, r.constituencyVoters)
    && r.turnoutDiffPercentage == Percent(r.turnoutDifference, r.referendumTurnout)
  }

  /** The record for one row once its cells are read: the gap falls back to
      the difference of the two turnouts when the sheet gives none, the row is
      critical when the gap exceeds the margin, and the two shares are taken
      of the constituency and of the referendum turnout. */
  function MakeDistrict(province: string, district: Option<int>, constituencyVoters: int, partyListVoters: int,
                        difference: int, marginOfVictory: int, invalidBallots: int, voteNo: int,
                        referendumTurnout: int, constituencyWinner: string, partyListWinner: string): (r: District)
    ensures r.province == province && r.district == district
    ensures r.constituencyVoters == constituencyVoters && r.partyListVoters == partyListVoters
    ensures r.marginOfVictory == marginOfVictory && r.referendumTurnout == referendumTurnout
    ensures r.invalidBallots == invalidBallots && r.voteNo == voteNo
    ensures r.winningConstituencyParty == constituencyWinner && r.winningPartyListParty == partyListWinner
    ensures difference != 0 ==> r.discrepancy == difference
    ensures difference == 0 ==> r.discrepancy == constituencyVoters - partyListVoters
    ensures DerivedFields(r)
  {
    var discrepancy := if difference != 0 then difference else constituencyVoters - partyListVoters;
    var absDiscrepancy := if discrepancy < 0 then -discrepancy else discrepancy;
    var turnoutDifference := constituencyVoters - referendumTurnout;
    District(
      province := province,
      district := district,
      constituencyVoters := constituencyVoters,
      partyListVoters := partyListVoters,
      discrepancy := discrepancy,
      absDiscrepancy := absDiscrepancy,
      marginOfVictory := marginOfVictory,
      isCritical := absDiscrepancy > marginOfVictory,
      winningConstituencyParty := constituencyWinner,
      winningPartyListParty := partyListWinner,
      invalidBallots := invalidBallots,
      voteNo := voteNo,
      invalidPercentage := Percent(invalidBallots + voteNo, constituencyVoters),
      referendumTurnout := referendumTurnout,
      turnoutDifference := turnoutDifference,
      turnoutDiffPercentage := Percent(turnoutDifference, referendumTurnout))
  }

  /** The constituency sheet's row under a key; a missing one reads every
      cell as `undefined`. */
  function ConstituencyMatch(key: string, constituencyIndex: map<string, ConstituencyRow>): (c: ConstituencyRow)
    ensures key in constituencyIndex ==> c == constituencyIndex[key]
    ensures key !in constituencyIndex ==> GetNum(c.invalidBallots) == 0 && GetNum(c.voteNo) == 0
  {
    if key in constituencyIndex then constituencyIndex[key] else ConstituencyRow(Undefined, Undefined, Undefined, Undefined)
  }

  /** The referendum sheet's row under a key; a missing one reads every cell
      as `undefined`. */
  function ReferendumMatch(key: string, referendumIndex: map<string, ReferendumRow>): (c: ReferendumRow)
    ensures key in referendumIndex ==> c == referendumIndex[key]
    ensures key !in referendumIndex ==> GetNum(c.turnout) == 0
  {
    if key in referendumIndex then referendumIndex[key] else ReferendumRow(Undefined, Undefined, Undefined)
  }

  /** The record `processData` builds for one kept row, given the two side
      indexes. */
  function ToDistrict(row: PlotRow, constituencyIndex: map<string, ConstituencyRow>,
                      referendumIndex: map<string, ReferendumRow>): (r: District)
    ensures r.province == Trim(ToJsString(row.province))
    ensures r.district == ParseInt(ToJsString(row.district))
    ensures r.constituencyVoters == GetNum(row.constituencyVoters) && r.partyListVoters == GetNum(row.partyListVoters)
    ensures r.marginOfVictory == GetNum(row.margin)
    ensures r.winningConstituencyParty == Winner(row.constituencyWinner)
    ensures r.winningPartyListParty == Winner(row.partyListWinner)
    ensures GetNum(row.ballotDifference) != 0 ==> r.discrepancy == GetNum(row.ballotDifference)
    ensures GetNum(row.ballotDifference) == 0 ==> r.discrepancy == r.constituencyVoters - r.partyListVoters
    ensures DerivedFields(r)
    ensures var key := LookupKey(r.province, r.district);
      && (key in constituencyIndex ==>
            r.invalidBallots == GetNum(constituencyIndex[key].invalidBallots)
            && r.voteNo == GetNum(constituencyIndex[key].voteNo))
      && (key !in constituencyIndex ==> r.invalidBallots == 0 && r.voteNo == 0)
      && (key in referendumIndex ==> r.referendumTurnout == GetNum(referendumIndex[key].turnout))
      && (key !in referendumIndex ==> r.referendumTurnout == 0)
  {
    var province := Trim(ToJsString(row.province));
    var district := ParseInt(ToJsString(row.district));
    var key := LookupKey(province, district);
    var constRow := ConstituencyMatch(key, constituencyIndex);
    var refRow := ReferendumMatch(key, referendumIndex);
    var r := MakeDistrict(province, district, GetNum(row.constituencyVoters), GetNum(row.partyListVoters),
                          GetNum(row.ballotDifference), GetNum(row.margin),
                          GetNum(constRow.invalidBallots), GetNum(constRow.voteNo), GetNum(refRow.turnout),
                          Winner(row.constituencyWinner), Winner(row.partyListWinner));
    assert LookupKey(r.province, r.district) == key;
    r
  }

  /** A missing winner is shown as "Unknown". */
  lemma WinnerUnknown(w: Value)
    requires !Truthy(w)
    ensures Winner(w) == UNKNOWN_WINNER
  {
    var u := UNKNOWN_WINNER;
    assert TrimStart(u) == u by {
      assert !IsWhitespace(u[0]);
    }
    assert TrimEnd(u) == u by {
      assert !IsWhitespace(u[|u| - 1]);
    }
  }

  /** A record shows a winner cell's trimmed text, and "Unknown" for a
      missing winner. */
  lemma ToDistrictWinners(row: PlotRow, constituencyIndex: map<string, ConstituencyRow>,
                          referendumIndex: map<string, ReferendumRow>)
    ensures var r := ToDistrict(row, constituencyIndex, referendumIndex);
      && (Truthy(row.constituencyWinner) ==> r.winningConstituencyParty == Trim(ToJsString(row.constituencyWinner)))
      && (Truthy(row.partyListWinner) ==> r.winningPartyListParty == Trim(ToJsString(row.partyListWinner)))
      && (!Truthy(row.constituencyWinner) ==> r.winningConstituencyParty == UNKNOWN_WINNER)
      && (!Truthy(row.partyListWinner) ==> r.winningPartyListParty == UNKNOWN_WINNER)
  {
    if !Truthy(row.constituencyWinner) {
      WinnerUnknown(row.constituencyWinner);
    }
    if !Truthy(row.partyListWinner) {
      WinnerUnknown(row.partyListWinner);
    }
  }

  /** The rows `processData` keeps: those with a truthy province and district. */
  predicate Kept(row: PlotRow) {
    Truthy(row.province) && Truthy(row.district)
  }

  /** `processData(plotData, constituencyData, referendumData)`: the side
      sheets are indexed (a later row with the same key replaces an earlier
      one), the blank rows of the plot sheet are dropped and each other row is
      turned into its record. */
  function ProcessData(plot: seq<PlotRow>, constituencyData: seq<ConstituencyRow>,
                       referendumData: seq<ReferendumRow>): (ds: seq<District>)
    ensures |ds| <= |plot|
    ensures forall i :: 0 <= i < |ds| ==> DerivedFields(ds[i])
  {
    var constituencyIndex := IndexBy(constituencyData, ConstituencyKey);
    var referendumIndex := IndexBy(referendumData, ReferendumKey);
    FilterLength(plot, Kept);
    Map(Filter(plot, Kept), (row: PlotRow) => ToDistrict(row, constituencyIndex, referendumIndex))
  }

  /** One record per kept row, in row order: appending a row appends its
      record when it is kept and nothing when it is blank. */
  lemma ProcessDataAppend(plot: seq<PlotRow>, row: PlotRow, cs: seq<ConstituencyRow>, rs: seq<ReferendumRow>)
    ensures Kept(row) ==>
      ProcessData(plot + [row], cs, rs) == ProcessData(plot, cs, rs) + [ToDistrict(row, IndexBy(cs, ConstituencyKey), IndexBy(rs, ReferendumKey))]
    ensures !Kept(row) ==> ProcessData(plot + [row], cs, rs) == ProcessData(plot, cs, rs)
  {
    var s := plot + [row];
    assert s[..|s| - 1] == plot;
    var f := (r: PlotRow) => ToDistrict(r, IndexBy(cs, ConstituencyKey), IndexBy(rs, ReferendumKey));
    var kept := Filter(plot, Kept);
    if Kept(row) {
      assert Filter(s, Kept) == kept + [row];
      MapAppend(kept, row, f);
    } else {
      assert Filter(s, Kept) == kept;
    }
  }

  /** There is a record for each kept row and for no other. */
  lemma ProcessDataLength(plot: seq<PlotRow>, cs: seq<ConstituencyRow>, rs: seq<ReferendumRow>)
    ensures |ProcessData(plot, cs, rs)| <= |plot|
    ensures |ProcessData(plot, cs, rs)| == |plot| <==> forall row :: row in plot ==> Kept(row)
  {
    FilterLength(plot, Kept);
  }

  /** The record of a row is found in the side sheet under the key the last
      matching side row was indexed by. */
  lemma ProcessDataJoin(row: PlotRow, cs: seq<ConstituencyRow>, i: int, rs: seq<ReferendumRow>)
    requires 0 <= i < |cs|
    requires ConstituencyKey(cs[i]) == LookupKey(Trim(ToJsString(row.province)), ParseInt(ToJsString(row.district)))
    requires forall j :: i < j < |cs| ==> ConstituencyKey(cs[j]) != ConstituencyKey(cs[i])
    ensures ToDistrict(row, IndexBy(cs, ConstituencyKey), IndexBy(rs, ReferendumKey)).invalidBallots == GetNum(cs[i].invalidBallots)
    ensures ToDistrict(row, IndexBy(cs, ConstituencyKey), IndexBy(rs, ReferendumKey)).voteNo == GetNum(cs[i].voteNo)
  {
    IndexByLastWins(cs, ConstituencyKey, i);
  }

  /** Likewise for the referendum sheet: the turnout is read from the last
      referendum row under the row's key. */
  lemma ProcessDataJoinReferendum(row: PlotRow, cs: seq<ConstituencyRow>, rs: seq<ReferendumRow>, i: int)
    requires 0 <= i < |rs|
    requires ReferendumKey(rs[i]) == LookupKey(Trim(ToJsString(row.province)), ParseInt(ToJsString(row.district)))
    requires forall j :: i < j < |rs| ==> ReferendumKey(rs[j]) != ReferendumKey(rs[i])
    ensures ToDistrict(row, IndexBy(cs, ConstituencyKey), IndexBy(rs, ReferendumKey)).referendumTurnout == GetNum(rs[i].turnout)
  {
    IndexByLastWins(rs, ReferendumKey, i);
  }
}
