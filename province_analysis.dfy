/**
 * The province panel: which provinces are expanded, the expand-all,
 * collapse-all and toggle buttons, the district total in the header and the
 * marker of a province with gaps.
 *
 * The expanded state is an object read only by key, so it is a map from
 * province name to flag; a missing name reads as `undefined`, which is
 * falsy.
 */
module ProvinceAnalysis {
  import opened Seqs
  import opened DashboardData
  import opened OverviewTab

  /** One entry of the province analysis data the panel receives. */
  datatype ProvinceSummary = ProvinceSummary(
    province: string,
    region: string,
    districtCount: int,
    totalDiscrepancy: int,
    constituencyGreater: seq<District>,
    partyListGreater: seq<District>)

  /** `expandedProvinces[province]` taken as a condition. */
  predicate IsExpanded(expanded: map<string, bool>, province: string) {
    province in expanded && expanded[province]
  }

  /** `toggleProvince`: the province's entry becomes the negation of its old
      truthiness; every other entry is kept. */
  function Toggle(prev: map<string, bool>, province: string): (next: map<string, bool>)
    ensures IsExpanded(next, province) == !IsExpanded(prev, province)
    ensures forall p :: p != province ==> (p in next <==> p in prev) && (p in prev ==> next[p] == prev[p])
  {
    prev[province := !IsExpanded(prev, province)]
  }

  /** Toggling a province twice restores how every province reads. */
  lemma ToggleTwice(prev: map<string, bool>, province: string)
    ensures forall p :: IsExpanded(Toggle(Toggle(prev, province), province), p) == IsExpanded(prev, p)
  {
  }

  /** `expandAll`: an entry `true` for each province of the data, and no
      other entry. */
  method ExpandAll(data: seq<ProvinceSummary>) returns (allExpanded: map<string, bool>)
    ensures allExpanded.Keys == set i | 0 <= i < |data| :: data[i].province
    ensures forall p :: p in allExpanded ==> allExpanded[p]
    ensures forall p :: IsExpanded(allExpanded, p) <==> exists i :: 0 <= i < |data| && data[i].province == p
  {
    allExpanded := map[];
    for i := 0 to |data|
      invariant allExpanded.Keys == set j | 0 <= j < i :: data[j].province
      invariant forall p :: p in allExpanded ==> allExpanded[p]
    {
      assert (set j | 0 <= j < i + 1 :: data[j].province) == (set j | 0 <= j < i :: data[j].province) + {data[i].province};
      allExpanded := allExpanded[data[i].province := true];
    }
  }

  /** `collapseAll`: the empty object, under which no province reads as
      expanded. */
  function CollapseAll(): (collapsed: map<string, bool>)
    ensures forall p :: !IsExpanded(collapsed, p)
  {
    map[]
  }

  function DistrictCount(s: ProvinceSummary): int {
    s.districtCount
  }

  /** `totalDistricts`: the district counts of the listed provinces added up. */
  function TotalDistricts(data: seq<ProvinceSummary>): (total: int)
    ensures data == [] ==> total == 0
    ensures data != [] ==> total == TotalDistricts(data[..|data| - 1]) + data[|data| - 1].districtCount
    ensures (forall s :: s in data ==> s.districtCount >= 0) ==> total >= 0
  {
    if data != [] && (forall s :: s in data ==> s.districtCount >= 0) then
      SumByBoundsTerm(data, DistrictCount, 0);
      SumBy(data, DistrictCount)
    else
      SumBy(data, DistrictCount)
  }

  /** The total of two lists of provinces is the sum of their totals. */
  lemma TotalDistrictsConcat(a: seq<ProvinceSummary>, b: seq<ProvinceSummary>)
    ensures TotalDistricts(a + b) == TotalDistricts(a) + TotalDistricts(b)
  {
    SumByConcat(a, b, DistrictCount);
  }

  /** With non-negative counts the total covers each province's count. */
  lemma TotalDistrictsCoversEach(data: seq<ProvinceSummary>, i: int)
    requires forall s :: s in data ==> s.districtCount >= 0
    requires 0 <= i < |data|
    ensures TotalDistricts(data) >= data[i].districtCount >= 0
  {
    SumByBoundsTerm(data, DistrictCount, i);
  }

  /** `hasDiscrepancy`: the province lists a district on either side. */
  predicate HasDiscrepancy(s: ProvinceSummary) {
    |s.constituencyGreater| > 0 || |s.partyListGreater| > 0
  }

  /** When the two lists are the province's rows with a positive and with a
      negative gap, the marker shows exactly when some row has a gap. */
  lemma HasDiscrepancyMeaning(s: ProvinceSummary, rows: seq<District>)
    requires s.constituencyGreater == FilteredTableData(rows, CONSTITUENCY_GREATER)
    requires s.partyListGreater == FilteredTableData(rows, PARTY_LIST_GREATER)
    ensures HasDiscrepancy(s) <==> exists d :: d in rows && d.discrepancy != 0
  {
    SignFilterTests();
    SignFilterExact(rows);
    if d :| d in rows && d.discrepancy != 0 {
      if d.discrepancy > 0 {
        assert d in multiset(s.constituencyGreater);
      } else {
        assert d in multiset(s.partyListGreater);
      }
    }
  }
}
