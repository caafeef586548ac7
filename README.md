# Thai election audit: reconciliation and dashboard model

The project audits the 2026 Thai general election. For each constituency, the turnout recorded on the
constituency ballot (ส.ส. เขต) should match the turnout recorded on the party-list ballot (บัญชีรายชื่อ).
A district is flagged as *critical* when the gap between the two is larger than the winner's margin.

This Dafny project models the core of that tooling:

- **OCR reconciliation** (`ocr_reconcile.dfy`).
  - Pairs the OCR-read constituency and party-list tally sheets of each district.
  - Skips districts that lack one side or a turnout.
  - Derives the gap, the winners, the margins, the invalid-ballot share and the critical flag.
  - Sorts the records by province, then by district.
- **Dashboard data** (`dashboard_data.dfy`). The dashboard's `processData`:
  - Cleans the numeric cells (numbers, or strings with thousands separators).
  - Joins each election-sheet row with the constituency sheet and the referendum sheet, using a
    `province-district` key.
  - Builds the district record.
- **KPIs** (`dashboard_kpis.dfy`): the one-pass KPI scan, proved against a specification by folds. It yields:
  - the total absolute gap;
  - the first district with the largest gap;
  - the critical count;
  - the win tallies;
  - the leading parties.
- **Charts** (`dashboard_charts.dfy`):
  - the seat distribution;
  - the top 15 gaps;
  - the scatter;
  - the gap-sorted table;
  - the critical list;
  - the invalid-ballot chart;
  - the top 20 turnout differences.
- **Overview tab** (`overview_tab.dfy`): the table filter by sign of the gap.
- **Province panel** (`province_analysis.dfy`): expand, collapse and toggle; the district total; the gap
  marker.
- **Tile map** (`tile_map.dfy`):
  - groups the rows by province, each group sorted by district number;
  - lays out the row-major grid of cells from the province layout.
- **Layout template** (`layout_template.dfy`): the distinct provinces and the `{x: 0, y: 0}` template object.
- **Party colours** (`party_colors.dfy`): the shared colour table and a second, local copy inside the dashboard's main component.

Supporting modules model the JavaScript built-ins the code relies on:

- wrappers.dfy: `Option`.
- seqs.dfy:
  - `filter`;
  - summing `reduce`;
  - `[...new Set(..)]`;
  - `slice`;
  - first arg-max.
- sorting.dfy: `Array.prototype.sort`, which is stable. It is modelled as an insertion sort driven by the
  source's own comparator.
- jsvalues.dfy:
  - raw JSON cell values;
  - truthiness;
  - `String()`;
  - `trim`;
  - `parseInt`;
  - `Number(..) || 0` on integers;
  - string `<`, in code-point order (equal to JavaScript's order for text within the Basic Multilingual
    Plane, such as Thai).
- jsobject.dfy:
  - plain objects as insertion-ordered dictionaries;
  - `new Map(entries)`, where the last write wins.

Where the code does something step by step, the model does it step by step:

- The OCR loop (`OcrReconcile.Reconcile`), the KPI scan (`DashboardKpis.ComputeKpis`), the tile map's
  grouping (`TileMap.GroupByProvince`), the grid loops (`TileMap.BuildGrid`) and `expandAll`
  (`ProvinceAnalysis.ExpandAll`) are methods with loops.
- Each of these methods is proved equal to a specification function.
- The properties are then proved about those functions.

The two reconciliation paths fill the same kind of record in different ways, and the model follows
each piece of code as written:

- Critical flag: the dashboard's `isCritical` is `Math.abs(discrepancy) > marginOfVictory`, with no
  `margin > 0` guard (`dashboard/src/App.jsx:76`). The OCR script's flag also requires a positive
  margin (`convert-ocr-data.js:80`).
- Gap: the dashboard takes the sheet's ballot-difference cell and falls back to the difference of
  the two turnouts only when that cell reads as 0 (`dashboard/src/App.jsx:54`). The OCR script always
  computes the difference (`convert-ocr-data.js:68`).
- Invalid share: the dashboard divides invalid ballots plus "vote no" ballots by the turnout
  (`dashboard/src/App.jsx:61`). The OCR script divides the invalid votes alone
  (`convert-ocr-data.js:79`).
- Margin and winners: the dashboard reads them from the sheet's cells (`dashboard/src/App.jsx:55`,
  `dashboard/src/App.jsx:77-78`). The OCR script computes them from the results lists
  (`convert-ocr-data.js:71-75`), with one margin per ballot.
- Referendum: the dashboard joins the referendum sheet for the turnout and its difference
  (`dashboard/src/App.jsx:64-66`). The OCR script sets all three referendum fields to 0
  (`convert-ocr-data.js:97-99`).

## Model

| member | source | states |
|---|---|---|
| OcrReconcile.TopParty | convert-ocr-data.js:26-29 | With no results, or an empty list, the winner is "ไม่ทราบ". Otherwise it is the party of the first entry with the most votes. |
| OcrReconcile.Margin | convert-ocr-data.js:31-35 | 0 with fewer than two results. Otherwise it is the votes of the leader minus those of the runner-up among the results (a multiset pair), so it is never negative. |
| OcrReconcile.SortedLeaders | convert-ocr-data.js:33-34 | The first two entries of the list sorted by descending votes are the leader and the runner-up. |
| OcrReconcile.LeadersOfDescending | convert-ocr-data.js:33-34 | Any descending permutation of the results has the leader and the runner-up at its head. |
| OcrReconcile.RestOfDescending | convert-ocr-data.js:33-34 | Once the head of a descending permutation is removed, no entry beats its second element. |
| OcrReconcile.WinnerName | convert-ocr-data.js:89-90 | The stored winner name is never empty. A truthy winner is stored as its `String()` text; a falsy one becomes "ไม่ทราบ". |
| OcrReconcile.InvalidShare | convert-ocr-data.js:79 | The invalid share times the turnout is 100 × the invalid votes. With no turnout the share is 0. |
| OcrReconcile.MakeRecord | convert-ocr-data.js:63-101 | Province is the constituency sheet's `String(province_name)` ("" when falsy). District, both turnouts, invalid and eligible votes are the sheets' cells read by `Number()`, falling back to 0. Each margin is `Margin` of its sheet's results, and each winner is `WinnerName(TopParty(..))` of its sheet. Gap = constituency minus party-list turnout. Abs gap ≥ 0 and equal to ±gap. Critical iff abs gap > constituency margin > 0. Invalid share of the constituency turnout. Referendum fields 0. Source "ocr". |
| OcrReconcile.Collect | convert-ocr-data.js:49-102 | The loop produces at most one record per key. |
| OcrReconcile.CollectSound | convert-ocr-data.js:53-61 | Every record comes from a key whose two sheets are both present and both have a non-zero turnout. |
| OcrReconcile.CollectComplete | convert-ocr-data.js:53-61 | Every key with both sheets and non-zero turnouts produces its record. |
| OcrReconcile.CollectCount | convert-ocr-data.js:49-102 | The number of records equals the number of accepted keys. |
| OcrReconcile.OcrOrderMeaning | convert-ocr-data.js:104-108 | The comparator is ≤ 0 exactly when the province is lexicographically smaller, or equal with a district number not larger. |
| OcrReconcile.OcrOrderConsistent | convert-ocr-data.js:104-108 | The comparator is a consistent total preorder, so the sort is well defined. |
| OcrReconcile.Reconcile | convert-ocr-data.js:46-108 | The loop over the union of keys, followed by the sort, yields exactly the sorted collection of accepted records. |
| OcrReconcile.ReconcileOrdered | convert-ocr-data.js:104-108 | The output is a permutation of the collected records, ordered by province and then by district. |
| OcrReconcile.ReconcileSound | convert-ocr-data.js:47-61 | Every output record is produced by some key of either directory. |
| OcrReconcile.ReconcileComplete | convert-ocr-data.js:47-61 | Every accepted key's record is in the output. |
| OcrReconcile.ReconcileCount | convert-ocr-data.js:47-56 | The output is no longer than the number of keys present in both directories. |
| DashboardData.GetNum | dashboard/src/App.jsx:42-46 | A number cell is itself. A cell of bare digits is the integer they denote. `undefined` and `null` give 0. Its round trips are `GetNumPlain` and `GetNumGrouped`, and `GetNumNoDigits` gives the `NaN` fallback. |
| DashboardData.GetNumDigits | dashboard/src/App.jsx:44 | Text of bare digits has no separator to drop, and `parseInt` reads all of it. |
| DashboardData.GetNumPlain | dashboard/src/App.jsx:42-46 | `getNum` reads back every integer written in plain decimal. |
| DashboardData.GetNumGrouped | dashboard/src/App.jsx:42-46 | `getNum` reads back every integer written with thousands separators ("1,234"). |
| DashboardData.GetNumGroupedNat | dashboard/src/App.jsx:42-46 | The same, for non-negative integers. |
| DashboardData.GetNumGroupedNegative | dashboard/src/App.jsx:42-46 | The same, for negative integers. |
| DashboardData.GetNumNoDigits | dashboard/src/App.jsx:42-46 | A string without digits reads as 0, because `NaN` is replaced by 0. |
| DashboardData.JoinKeysAgree | dashboard/src/App.jsx:35-36 | When the provinces agree after trimming and both districts are the same integer (number or decimal text), the row's lookup key equals the side sheet's key. |
| DashboardData.PercentMeaning | dashboard/src/App.jsx:61 | The share times the whole is 100 × the part, or 0 when the whole is not positive. It is positive iff whole and part are positive. |
| DashboardData.ZeroPercent | dashboard/src/App.jsx:61 | With a positive whole, the share is 0 exactly when the part is 0. |
| DashboardData.MakeDistrict | dashboard/src/App.jsx:68-85 | Fields as given. Gap = ballot difference, or the turnout difference when that is 0. Abs gap = ±gap ≥ 0. Critical iff abs gap > margin. Turnout difference and both shares as defined. |
| DashboardData.ConstituencyMatch | dashboard/src/App.jsx:58-60 | A found key gives the indexed constituency row. A missing one reads as 0 invalid ballots and 0 "vote no". |
| DashboardData.ReferendumMatch | dashboard/src/App.jsx:64-65 | A found key gives the indexed referendum row. A missing one reads as 0 turnout. |
| DashboardData.ToDistrict | dashboard/src/App.jsx:41-85 | Trimmed province and `parseInt` district. Both turnouts and the margin are `getNum` of the row's cells, and the winners are the row's winner cells (trimmed, "Unknown" when falsy). Gap = the ballot-difference cell, or the turnout difference when that is 0. Abs gap, critical flag, turnout difference and both shares as defined. Invalid ballots, "vote no" and referendum turnout are `getNum` of the rows indexed under the key, or 0 when the key is missing. |
| DashboardData.Winner | dashboard/src/App.jsx:77-78 | A truthy cell gives its trimmed text. The name never starts or ends with whitespace. `WinnerUnknown` gives "Unknown" for a falsy cell, and `ToDistrictWinners` ties both to a record. |
| DashboardData.WinnerUnknown | dashboard/src/App.jsx:77-78 | A falsy winner cell becomes "Unknown". |
| DashboardData.ToDistrictWinners | dashboard/src/App.jsx:77-78 | A record's winners are the trimmed text of the row's winner cells, or "Unknown" when a cell is falsy. |
| DashboardData.ProcessData | dashboard/src/App.jsx:33-87 | At most one record per row, and every record keeps the derived-field relations (absolute gap, critical flag, turnout difference, both shares). `ProcessDataAppend` gives the row order and the blank-row filter, `ProcessDataLength` the record count, and `ProcessDataJoin` and `ProcessDataJoinReferendum` the joins. |
| DashboardData.ProcessDataAppend | dashboard/src/App.jsx:38-40 | A row with a truthy province and district adds its record at the end. Any other row adds nothing. |
| DashboardData.ProcessDataLength | dashboard/src/App.jsx:38-39 | At most one record per row. One per row exactly when every row is kept. |
| DashboardData.ProcessDataJoin | dashboard/src/App.jsx:35-60 | The join reads the last constituency row with the row's key. |
| DashboardData.ProcessDataJoinReferendum | dashboard/src/App.jsx:36-66 | The referendum turnout is read from the last referendum row with the row's key. |
| DashboardKpis.Bump | dashboard/src/App.jsx:131-132 | The party's count becomes its old count (0 when absent) plus one. Every other party is unchanged. |
| DashboardKpis.Tally | dashboard/src/App.jsx:131 | No more parties than rows. |
| DashboardKpis.TallyValid | dashboard/src/App.jsx:116-131 | The tally is a well-formed object. |
| DashboardKpis.TallyCount | dashboard/src/App.jsx:131 | Each party's count is its number of wins. A party with no win is absent. |
| DashboardKpis.TallyKeys | dashboard/src/App.jsx:131 | The parties are listed in order of first win, each once. |
| DashboardKpis.TallySum | dashboard/src/App.jsx:131 | The counts add up to the number of rows. |
| DashboardKpis.TallyEntry | dashboard/src/App.jsx:135 | Each entry is a party that won, with its number of wins. |
| DashboardKpis.TallyHasEntry | dashboard/src/App.jsx:135 | Every winning party has an entry. |
| DashboardKpis.FirstMaxEntryBeats | dashboard/src/App.jsx:135-136 | The first entry with the largest count has at least as many wins as any party. On a tie, it won first. |
| DashboardKpis.TopEntryMostWins | dashboard/src/App.jsx:135-136 | The leading party won, its count is its number of wins, no party has more, and among tied parties it is the one that won first. |
| DashboardKpis.ScanPrefix | dashboard/src/App.jsx:120-133 | Scanning one more row applies the loop body to it. |
| DashboardKpis.ScanTotal | dashboard/src/App.jsx:121 | The running total is the sum of the absolute gaps. |
| DashboardKpis.ScanCritical | dashboard/src/App.jsx:127-129 | The critical count is the number of critical rows. |
| DashboardKpis.ScanMax | dashboard/src/App.jsx:115-125 | The district kept is the first one with the largest absolute gap. |
| DashboardKpis.ScanConstituencyWins | dashboard/src/App.jsx:131 | The constituency tally is the tally of the constituency winners. |
| DashboardKpis.ScanPartyListWins | dashboard/src/App.jsx:132 | The party-list tally is the tally of the party-list winners. |
| DashboardKpis.ComputeKpis | dashboard/src/App.jsx:111-147 | No KPIs (null) exactly when there is no data. Otherwise: the row count, the sum of absolute gaps, the first row with the largest gap, the critical count, the constituency tally, and both leading parties. |
| DashboardKpis.TotalBoundsEach | dashboard/src/App.jsx:114-121 | The total covers each district's absolute gap. |
| DashboardCharts.SeatDistribution | dashboard/src/App.jsx:150-155 | Empty without KPIs. Otherwise one bar per party of the tally. |
| DashboardCharts.SeatDistributionOrdered | dashboard/src/App.jsx:154 | The bars are sorted by descending seats. |
| DashboardCharts.SeatsSum | dashboard/src/App.jsx:152-154 | Mapping and sorting keep the sum of seats. |
| DashboardCharts.SeatsOfEntries | dashboard/src/App.jsx:152-154 | The bars are exactly the tally's entries. |
| DashboardCharts.SeatDistributionTotal | dashboard/src/App.jsx:150-155 | The seats add up to the tally's total. |
| DashboardCharts.SeatDistributionSum | dashboard/src/App.jsx:150-155 | Over a tally of winners, the seats add up to the number of districts. |
| DashboardCharts.SeatDistributionParties | dashboard/src/App.jsx:150-155 | Each bar is a winning party with its number of wins. |
| DashboardCharts.SeatDistributionCovers | dashboard/src/App.jsx:150-155 | Every winning party has its bar. |
| DashboardCharts.TopDistricts | dashboard/src/App.jsx:158-160 | There are min(15, number of districts) of them. |
| DashboardCharts.TopDiscrepancy | dashboard/src/App.jsx:157-167 | There are min(15, number of districts) bars. |
| DashboardCharts.TopDiscrepancyBars | dashboard/src/App.jsx:161-166 | Each bar is a district's label and gaps. It is red exactly when the gap is positive. |
| DashboardCharts.TopDiscrepancyOrdered | dashboard/src/App.jsx:159 | The bars run by descending absolute gap. |
| DashboardCharts.TopDiscrepancyDominates | dashboard/src/App.jsx:159-160 | The bars are the first fifteen places of the list sorted by descending absolute gap, in that order. Every place from the sixteenth on has a gap no larger than any bar. No district left out has a larger gap than any bar. |
| DashboardCharts.Scatter | dashboard/src/App.jsx:169-176 | One point per district, in order. x is the constituency turnout and y the party-list turnout. It carries the district's label and its absolute gap. |
| DashboardCharts.SortedTable | dashboard/src/App.jsx:178-180 | The table is a permutation of the data. |
| DashboardCharts.SortedTableMeaning | dashboard/src/App.jsx:178-180 | The table is sorted by descending absolute gap, and its head is the first district with the largest gap. |
| DashboardCharts.CriticalDistricts | dashboard/src/App.jsx:182-184 | The list is a permutation of the critical districts. |
| DashboardCharts.CriticalDistrictsMeaning | dashboard/src/App.jsx:182-184 | The list holds exactly the critical districts, with their multiplicities, in descending absolute gap. |
| DashboardCharts.InvalidDistricts | dashboard/src/App.jsx:187-190 | At most 50 districts. |
| DashboardCharts.InvalidBallotsChart | dashboard/src/App.jsx:186-196 | At most 50 points. |
| DashboardCharts.InvalidBallotsChartPoints | dashboard/src/App.jsx:188-195 | Each point is a district with a positive invalid share. |
| DashboardCharts.InvalidBallotsChartOrdered | dashboard/src/App.jsx:189 | The points run by descending absolute gap. |
| DashboardCharts.InvalidBallotsChartDominates | dashboard/src/App.jsx:188-190 | No district with a positive invalid share that was left out has a larger gap than a shown point. |
| DashboardCharts.TurnoutComparison | dashboard/src/App.jsx:198-203 | At most 20 districts. |
| DashboardCharts.TurnoutComparisonMembers | dashboard/src/App.jsx:200-201 | Each is a district with a non-zero turnout difference, listed by descending difference. |
| DashboardCharts.TurnoutComparisonDominates | dashboard/src/App.jsx:200-202 | No district with a non-zero difference that was left out has a larger difference than one shown. |
| OverviewTab.FilteredTableData | dashboard/src/components/OverviewTab.jsx:13-19 | The kept rows are a subsequence of the table, and each passes the selected test. |
| OverviewTab.FilterKeepsEveryRow | dashboard/src/components/OverviewTab.jsx:14-18 | 'all', or an unknown filter, keeps the table unchanged. |
| OverviewTab.SignFilterExact | dashboard/src/components/OverviewTab.jsx:15-17 | Each sign filter keeps exactly the rows of its sign, with their multiplicities. |
| OverviewTab.SignFilterTests | dashboard/src/components/OverviewTab.jsx:15-17 | Each sign filter's test is exactly gap > 0, gap < 0 or gap = 0. |
| OverviewTab.SignFiltersPartition | dashboard/src/components/OverviewTab.jsx:15-17 | The three sign filters' row counts add up to the table's length. |
| ProvinceAnalysis.Toggle | dashboard/src/components/ProvinceAnalysis.jsx:8-13 | The province's expanded state flips (a missing entry reads as collapsed). Every other entry is unchanged. |
| ProvinceAnalysis.ToggleTwice | dashboard/src/components/ProvinceAnalysis.jsx:8-13 | Toggling twice restores how every province reads. |
| ProvinceAnalysis.ExpandAll | dashboard/src/components/ProvinceAnalysis.jsx:15-21 | One entry per listed province, all true, so a province reads as expanded iff it is listed. |
| ProvinceAnalysis.CollapseAll | dashboard/src/components/ProvinceAnalysis.jsx:23-25 | No province reads as expanded. |
| ProvinceAnalysis.TotalDistricts | dashboard/src/components/ProvinceAnalysis.jsx:32 | 0 for an empty list. Adding a province adds its count. With non-negative counts the total is non-negative. |
| ProvinceAnalysis.TotalDistrictsConcat | dashboard/src/components/ProvinceAnalysis.jsx:32 | The total of two lists is the sum of their totals. |
| ProvinceAnalysis.TotalDistrictsCoversEach | dashboard/src/components/ProvinceAnalysis.jsx:32 | With non-negative counts, the total covers each province's count. |
| ProvinceAnalysis.HasDiscrepancyMeaning | dashboard/src/components/ProvinceAnalysis.jsx:89 | When the lists are the province's positive-gap and negative-gap rows, the marker shows exactly when some row has a gap. |
| TileMap.GroupByProvince | dashboard/src/components/TileMap.jsx:6-23 | A group exists exactly for each province key with a row. It holds that province's rows, in data order, stably sorted by district number. |
| TileMap.RowInOneGroup | dashboard/src/components/TileMap.jsx:8-15 | A row sits, with all its copies, in the group of its own truthy province and in no other. |
| TileMap.GroupSorted | dashboard/src/components/TileMap.jsx:18-20 | With numeric district cells, each sorted group is in ascending district order. |
| TileMap.SortedDistricts | dashboard/src/components/TileMap.jsx:19 | A list sorted by the comparator has ascending district numbers. |
| TileMap.ByDistrictConsistent | dashboard/src/components/TileMap.jsx:19 | With numeric district cells, the comparator is a consistent preorder. |
| TileMap.Span | dashboard/src/components/TileMap.jsx:27-28 | The span (max + 1) exceeds every non-negative coordinate, and when positive it is reached by some entry. |
| TileMap.FirstAt | dashboard/src/components/TileMap.jsx:33 | It returns the index of the first layout entry at the point, or the end of the list. |
| TileMap.Find | dashboard/src/components/TileMap.jsx:33 | None iff no entry lies at the point. Otherwise the first entry there. |
| TileMap.CellAt | dashboard/src/components/TileMap.jsx:33-66 | A province cell exactly when some entry lies at the point, named by the first one. It has one tile per constituency of that province, with its district and the view's winner. |
| TileMap.BuildGrid | dashboard/src/components/TileMap.jsx:30-68 | The nested loops build exactly the row-major grid. |
| TileMap.GridRowStep | dashboard/src/components/TileMap.jsx:32-66 | One more column appends the cell at that column. |
| TileMap.GridRowsLength | dashboard/src/components/TileMap.jsx:31-32 | The grid has height × width cells. |
| TileMap.GridRowsIndex | dashboard/src/components/TileMap.jsx:31-66 | The cell at y × width + x is the cell for (x, y). |
| TileMap.Grid | dashboard/src/components/TileMap.jsx:30-68 | The grid has width × height cells. `GridIndex` places the cell for (x, y) at y × width + x, and `BuildGrid` is the nested loop proved equal to it. |
| TileMap.GridIndex | dashboard/src/components/TileMap.jsx:27-68 | The grid has width × height cells, and the cell at y × width + x is the cell for (x, y). |
| TileMap.LayoutEntryDrawn | dashboard/src/components/TileMap.jsx:27-36 | Every layout entry with non-negative coordinates falls inside the grid and is drawn as a province cell. |
| LayoutTemplate.Provinces | dashboard/public/generate_layout.js:4 | The province list has no duplicates. |
| LayoutTemplate.ProvincesMembers | dashboard/public/generate_layout.js:4 | It holds exactly the truthy province values of the data. |
| LayoutTemplate.ProvincesInFirstOrder | dashboard/public/generate_layout.js:4 | The provinces are ordered by first appearance. |
| LayoutTemplate.Template | dashboard/public/generate_layout.js:6-9 | The object has at most one key per province. `TemplateValid`, `TemplateGet`, `TemplateKeys` and `TemplateSize` give its form, its values and its key order. |
| LayoutTemplate.TemplateValid | dashboard/public/generate_layout.js:6-9 | The template is a well-formed object. |
| LayoutTemplate.TemplateGet | dashboard/public/generate_layout.js:6-9 | Each province's key holds (0, 0). No other key is present. |
| LayoutTemplate.TemplateKeys | dashboard/public/generate_layout.js:6-9 | The keys are the provinces' keys, each once, in first-assignment order. |
| LayoutTemplate.TemplateSize | dashboard/public/generate_layout.js:6-9 | Distinct province keys give one key per province. |
| PartyColors.GetPartyColor | dashboard/src/constants/partyColors.js:19 | A listed party's colour. Gray for any other name. Always a colour of the table. |
| PartyColors.GrayOnlyForOther | dashboard/src/constants/partyColors.js:1-19 | Gray is returned exactly for 'Other' and for unlisted names. |
| PartyColors.DashboardPartyColor | dashboard/src/App.jsx:8-24 | The same lookup over the dashboard's local table. |
| PartyColors.TablesDiffer | dashboard/src/App.jsx:8-24 | The two lookups agree on every name except กล้าธรรม and ไทรวมพลัง, which the local table draws gray. |
| JsValues.TrimIdempotent | dashboard/src/App.jsx:48 | Trimming twice is trimming once. |
| JsValues.TrimEnds | dashboard/src/App.jsx:48 | A trimmed string neither starts nor ends with whitespace. |
| JsValues.ParseIntOfIntToString | dashboard/src/App.jsx:49 | `parseInt` reads back the decimal text of every integer. |
| JsValues.IntToStringInjective | dashboard/src/App.jsx:50 | Different district numbers give different key texts. |
| JsValues.ParseIntNoDigits | dashboard/src/App.jsx:44 | Text with no digits parses to `NaN`. |
| JsValues.LexLessIrreflexive | convert-ocr-data.js:105-106 | String `<` is irreflexive. |
| JsValues.LexLessTransitive | convert-ocr-data.js:105-106 | String `<` is transitive. |
| JsValues.LexLessTrichotomy | convert-ocr-data.js:105-106 | Of two different strings, exactly one is smaller. |

## Left out

- File and network I/O are not modelled.
  - This covers `loadJsonDir`, reading `plot.json`, writing `plot-ocr.json` and `layout_template.json`, and
    the dashboard's `fetch` calls.
  - The loaded directories and sheets are parameters.
  - A JSON file that fails to parse, and is therefore skipped, is not modelled.
- Console logging is not modelled.
- React state, memoisation and rendering are not modelled.
  - Only the computed values are modelled.
  - The state setter is modelled as returning the new state.
- The province layout module (`provinceLayout`) is a parameter. So is the colour lookup the tile map receives.
- The region mapping and the province summary builder that feeds the province panel are not part of this model.
  The panel's input list is a parameter.
- Numbers are not floating point: cells hold integers.
  - `Number(..)` is modelled on integers and integer text only.
  - `parseInt` is modelled on decimal digits with an optional sign; its `0x` prefix is not modelled.
  - Percentages are exact rationals.
- DashboardCharts.InvalidBallotsChart: the rounding `parseFloat(x.toFixed(2))` of the invalid share is not
  modelled; the point carries the exact share.
- DashboardCharts.TurnoutComparison: the `!isNaN(..)` test is always true for integers, so only the
  non-zero test is modelled.
- Plain objects are modelled as insertion-ordered dictionaries. JavaScript enumerates integer-like keys first,
  in ascending order; that ordering is not modelled, and neither are prototype keys.
- Sorting is modelled as a stable insertion sort. The properties of a comparator result are stated only for
  comparators that are consistent on the data. For the district comparator in the tile map, that means rows
  whose district cell parses; `NaN` results are read as 0.
- OcrReconcile.Collect: its own contract gives only the length bound. What it produces is stated by
  `CollectSound`, `CollectComplete` and `CollectCount`.
- OcrReconcile.Reconcile: a sheet file whose JSON is `null` is not modelled, because a loaded sheet is always an object. The source skips such a key through its `!con || !pl` test.
- JsValues.LexLess: strings compare by code point. JavaScript compares UTF-16 code units, and the two orders differ for characters outside the Basic Multilingual Plane; the model does not capture that difference.
- OcrReconcile.MakeRecord: `Number(..) || 0` is modelled on integer cells. The `(con || pl)` fallbacks
  are not modelled, because both sheets are present once a key is accepted.
