/**
 * The overview tab's table filter: the rows of the gap-sorted table kept for
 * the selected filter button.
 */
module OverviewTab {
  import opened Seqs
  import opened DashboardData

  const ALL: string := "all"
  const CONSTITUENCY_GREATER: string := "constituencyGreater"
  const PARTY_LIST_GREATER: string := "partyListGreater"
  const NO_DISCREPANCY: string := "noDiscrepancy"

  /** One of the three buttons that select rows by the sign of their gap. */
  predicate IsSignFilter(tableFilter: string) {
    tableFilter == CONSTITUENCY_GREATER || tableFilter == PARTY_LIST_GREATER || tableFilter == NO_DISCREPANCY
  }

  /** The test the filter callback applies to a row, in the callback's order:
      `'all'` keeps it, each sign filter keeps the rows of its sign, any other
      value keeps it. */
  predicate Keeps(tableFilter: string, row: District) {
    if tableFilter == ALL then true
    else if tableFilter == CONSTITUENCY_GREATER then row.discrepancy > 0
    else if tableFilter == PARTY_LIST_GREATER then row.discrepancy < 0
    else if tableFilter == NO_DISCREPANCY then row.discrepancy == 0
    else true
  }

  /** `filteredTableData`: the kept rows, in the table's order. */
  function FilteredTableData(sortedTableData: seq<District>, tableFilter: string): (r: seq<District>)
    ensures IsSubsequence(r, sortedTableData)
    ensures forall row :: row in r ==> row in sortedTableData && Keeps(tableFilter, row)
  {
    Filter(sortedTableData, row => Keeps(tableFilter, row))
  }

  /** `'all'`, and any value that is not a sign filter, keeps every row in
      place. */
  lemma FilterKeepsEveryRow(rows: seq<District>, tableFilter: string)
    requires !IsSignFilter(tableFilter)
    ensures FilteredTableData(rows, tableFilter) == rows
  {
    FilterKeepsAll(rows, row => Keeps(tableFilter, row));
  }

  /** A sign filter keeps exactly the rows of its sign, each as often as it
      occurs. */
  lemma SignFilterExact(rows: seq<District>)
    ensures forall row ::
      multiset(FilteredTableData(rows, CONSTITUENCY_GREATER))[row] == (if row.discrepancy > 0 then multiset(rows)[row] else 0)
    ensures forall row ::
      multiset(FilteredTableData(rows, PARTY_LIST_GREATER))[row] == (if row.discrepancy < 0 then multiset(rows)[row] else 0)
    ensures forall row ::
      multiset(FilteredTableData(rows, NO_DISCREPANCY))[row] == (if row.discrepancy == 0 then multiset(rows)[row] else 0)
  {
    forall f, row | IsSignFilter(f) && row !in rows
      ensures multiset(FilteredTableData(rows, f))[row] == 0
    {
      assert row !in FilteredTableData(rows, f);
    }
  }

  /** Each sign filter tests the sign of the gap. */
  lemma SignFilterTests()
    ensures forall row :: Keeps(CONSTITUENCY_GREATER, row) <==> row.discrepancy > 0
    ensures forall row :: Keeps(PARTY_LIST_GREATER, row) <==> row.discrepancy < 0
    ensures forall row :: Keeps(NO_DISCREPANCY, row) <==> row.discrepancy == 0
  {
  }

  /** The three sign filters split the table: their row counts add up to the
      number of rows. */
  lemma {:induction false} SignFiltersPartition(rows: seq<District>)
    ensures |FilteredTableData(rows, CONSTITUENCY_GREATER)| + |FilteredTableData(rows, PARTY_LIST_GREATER)|
      + |FilteredTableData(rows, NO_DISCREPANCY)| == |rows|
  {
    if rows != [] {
      var init, last := rows[..|rows| - 1], rows[|rows| - 1];
      SignFiltersPartition(init);
      SignFilterTests();
    }
  }
}
