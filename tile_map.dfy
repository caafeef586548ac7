/**
 * The tile map: the election sheet's rows grouped by province, each group
 * in district order, and the grid of cells laid out from the province
 * layout, one tile per constituency coloured by its winner.
 *
 * The layout module is not part of this model; it is a parameter, as is the
 * colour lookup the map is handed.
 */
module TileMap {
  import opened Wrappers
  import opened Seqs
  import opened Sorting
  import opened JsValues
  import opened DashboardData

  /** The view mode that shows constituency winners. */
  const CONSTITUENCY_VIEW: string := "constituency"
  /** Tile colour when the lookup gives nothing. */
  const FALLBACK_COLOR: string := "#ccc"

  /** `parseInt(row['เขตเลือกตั้งที่'])`, `None` standing for `NaN`. */
  function DistrictNumber(row: PlotRow): Option<int> {
    ParseInt(ToJsString(row.district))
  }

  /** The sort comparator `parseInt(a[…]) - parseInt(b[…])`. A `NaN`
      difference is read by the sort as 0, "keep the order". */
  function ByDistrict(a: PlotRow, b: PlotRow): int {
    if DistrictNumber(a).Some? && DistrictNumber(b).Some? then
      DistrictNumber(a).value - DistrictNumber(b).value
    else 0
  }

  /** `row` is grouped, under the object key `String(row['จังหวัด'])`,
      which is `k`. */
  predicate BelongsTo(row: PlotRow, k: string) {
    Truthy(row.province) && ToJsString(row.province) == k
  }

  /** The rows grouped under `k`, in the order of the data. */
  function ProvinceRows(data: seq<PlotRow>, k: string): seq<PlotRow> {
    Filter(data, row => BelongsTo(row, k))
  }

  lemma ProvinceRowsStep(data: seq<PlotRow>, i: int, k: string)
    requires 0 <= i < |data|
    ensures ProvinceRows(data[..i + 1], k) == ProvinceRows(data[..i], k) + (if BelongsTo(data[i], k) then [data[i]] else [])
  {
    assert data[..i + 1][..i] == data[..i];
  }

  /** Under key `k`, `grouped` holds the rows of `rows` grouped there, and
      nothing when there are none. */
  ghost predicate GroupedAt(grouped: map<string, seq<PlotRow>>, rows: seq<PlotRow>, k: string) {
    (k in grouped <==> ProvinceRows(rows, k) != []) && (k in grouped ==> grouped[k] == ProvinceRows(rows, k))
  }

  ghost predicate GroupedAs(grouped: map<string, seq<PlotRow>>, rows: seq<PlotRow>) {
    forall k :: GroupedAt(grouped, rows, k)
  }

  /** Pushing a row onto the list of its province, creating the list when
      missing, extends the grouping by that row; a row with a falsy province
      leaves it alone. */
  lemma GroupStep(prev: map<string, seq<PlotRow>>, next: map<string, seq<PlotRow>>, data: seq<PlotRow>, i: int)
    requires 0 <= i < |data| && GroupedAs(prev, data[..i])
    requires !Truthy(data[i].province) ==> next == prev
    requires Truthy(data[i].province) ==>
      var pName := ToJsString(data[i].province);
      next == prev[pName := Constituencies(prev, pName) + [data[i]]]
    ensures GroupedAs(next, data[..i + 1])
  {
    var rows := data[..i + 1];
    forall k ensures GroupedAt(next, rows, k) {
      assert GroupedAt(prev, data[..i], k);
      ProvinceRowsStep(data, i, k);
    }
  }

  /** Under key `k`, the group is sorted unless `k` is still pending. */
  ghost predicate SortingAt(grouped: map<string, seq<PlotRow>>, data: seq<PlotRow>, pending: set<string>, k: string) {
    && (k in grouped <==> ProvinceRows(data, k) != [])
    && (k in grouped ==> grouped[k] == if k in pending then ProvinceRows(data, k) else SortBy(ProvinceRows(data, k), ByDistrict))
  }

  ghost predicate SortingGroups(grouped: map<string, seq<PlotRow>>, data: seq<PlotRow>, pending: set<string>) {
    forall k :: SortingAt(grouped, data, pending, k)
  }

  /** Sorting one pending group in place moves it out of the pending keys. */
  lemma SortStep(prev: map<string, seq<PlotRow>>, data: seq<PlotRow>, pending: set<string>, k: string)
    requires SortingGroups(prev, data, pending) && k in pending && k in prev
    ensures SortingGroups(prev[k := SortBy(prev[k], ByDistrict)], data, pending - {k})
  {
    var next := prev[k := SortBy(prev[k], ByDistrict)];
    forall k' ensures SortingAt(next, data, pending - {k}, k') {
      assert SortingAt(prev, data, pending, k');
    }
  }

  /** `provincesData`: one list per province name, holding that province's
      rows sorted by district number; rows with a falsy province are in no
      list. */
  method GroupByProvince(data: seq<PlotRow>) returns (grouped: map<string, seq<PlotRow>>)
    ensures forall k :: k in grouped <==> ProvinceRows(data, k) != []
    ensures forall k :: k in grouped ==> grouped[k] == SortBy(ProvinceRows(data, k), ByDistrict)
  {
    grouped := map[];
    for i := 0 to |data|
      invariant GroupedAs(grouped, data[..i])
    {
      ghost var prev := grouped;
      var row := data[i];
      if !Truthy(row.province) {
        GroupStep(prev, grouped, data, i);
        continue;
      }
      var pName := ToJsString(row.province);
      if pName !in grouped {
        grouped := grouped[pName := []];
      }
      grouped := grouped[pName := grouped[pName] + [row]];
      assert grouped == prev[pName := Constituencies(prev, pName) + [row]];
      GroupStep(prev, grouped, data, i);
    }
    assert data[..|data|] == data;
    var pending := grouped.Keys;
    forall k ensures SortingAt(grouped, data, pending, k) {
      assert GroupedAt(grouped, data[..|data|], k);
    }
    while pending != {}
      invariant pending <= grouped.Keys
      invariant SortingGroups(grouped, data, pending)
      decreases pending
    {
      var k :| k in pending;
      SortStep(grouped, data, pending, k);
      grouped := grouped[k := SortBy(grouped[k], ByDistrict)];
      pending := pending - {k};
    }
    forall k
      ensures (k in grouped <==> ProvinceRows(data, k) != [])
      ensures k in grouped ==> grouped[k] == SortBy(ProvinceRows(data, k), ByDistrict)
    {
      assert SortingAt(grouped, data, pending, k);
    }
  }

  /** A row with a truthy province is in the group of its province, as often
      as it occurs in the data, and in no other group; a row with a falsy
      province is in no group. */
  lemma RowInOneGroup(data: seq<PlotRow>, row: PlotRow, k: string)
    requires row in data
    ensures multiset(ProvinceRows(data, k))[row] ==
      (if Truthy(row.province) && ToJsString(row.province) == k then multiset(data)[row] else 0)
  {
  }

  /** When every district number parses, a sorted group runs in ascending
      district order. */
  lemma GroupSorted(rows: seq<PlotRow>)
    requires forall row :: row in rows ==> DistrictNumber(row).Some?
    ensures var g := SortBy(rows, ByDistrict);
      forall i, j :: 0 <= i < j < |g| ==>
        DistrictNumber(g[i]).Some? && DistrictNumber(g[j]).Some? && DistrictNumber(g[i]).value <= DistrictNumber(g[j]).value
  {
    var g := SortBy(rows, ByDistrict);
    ByDistrictConsistent(rows);
    SortBySorted(rows, ByDistrict);
    forall row | row in g ensures DistrictNumber(row).Some? {
      assert row in multiset(rows);
    }
    SortedDistricts(g);
  }

  lemma SortedDistricts(g: seq<PlotRow>)
    requires SortedBy(g, ByDistrict)
    requires forall row :: row in g ==> DistrictNumber(row).Some?
    ensures forall i, j :: 0 <= i < j < |g| ==>
      DistrictNumber(g[i]).Some? && DistrictNumber(g[j]).Some? && DistrictNumber(g[i]).value <= DistrictNumber(g[j]).value
  {
    forall i, j | 0 <= i < j < |g|
      ensures DistrictNumber(g[i]).Some? && DistrictNumber(g[j]).Some? && DistrictNumber(g[i]).value <= DistrictNumber(g[j]).value
    {
      assert g[i] in g && g[j] in g;
      assert ByDistrict(g[i], g[j]) <= 0;
    }
  }

  /** With every district number parsed, the comparator orders the rows
      totally and transitively. */
  lemma ByDistrictConsistent(rows: seq<PlotRow>)
    requires forall row :: row in rows ==> DistrictNumber(row).Some?
    ensures ConsistentOn(ByDistrict, rows)
  {
    forall a, b | a in rows && b in rows
      ensures ByDistrict(a, b) <= 0 || ByDistrict(b, a) <= 0
    {
    }
    forall a, b, c | a in rows && b in rows && c in rows && ByDistrict(a, b) <= 0 && ByDistrict(b, c) <= 0
      ensures ByDistrict(a, c) <= 0
    {
    }
  }

  /** An entry of the province layout: a province and its grid position. */
  datatype LayoutEntry = LayoutEntry(name: string, x: int, y: int)

  /** One constituency square: its district, the winner shown and the
      colour. */
  datatype Tile = Tile(district: Value, party: Value, color: string)

  /** A grid cell: a province with its squares, or a blank. */
  datatype Cell = ProvinceCell(x: int, y: int, name: string, tiles: seq<Tile>) | EmptyCell(x: int, y: int)

  /** What the grid is drawn from: the layout, the grouped rows, the view
      mode and the colour lookup the map receives. */
  datatype MapInputs = MapInputs(
    layout: seq<LayoutEntry>,
    provincesData: map<string, seq<PlotRow>>,
    viewMode: string,
    colorOf: Value -> string)

  function XOf(p: LayoutEntry): int {
    p.x
  }

  function YOf(p: LayoutEntry): int {
    p.y
  }

  function Identity(v: int): int {
    v
  }

  /** How many times `for (v = 0; v <= Math.max(...vs); v++)` runs:
      `Math.max()` of nothing is `-Infinity`, so no time. */
  function Span(vs: seq<int>): (n: nat)
    ensures forall i :: 0 <= i < |vs| && vs[i] >= 0 ==> vs[i] < n
    ensures n > 0 ==> exists i :: 0 <= i < |vs| && vs[i] == n - 1
  {
    if vs == [] then 0
    else
      var m := vs[FirstMaxIndex(vs, Identity)];
      if m < 0 then 0 else m + 1
  }

  function Width(v: MapInputs): nat {
    Span(Map(v.layout, XOf))
  }

  function Height(v: MapInputs): nat {
    Span(Map(v.layout, YOf))
  }

  predicate At(p: LayoutEntry, x: int, y: int) {
    p.x == x && p.y == y
  }

  /** `layout[j]` is the first entry at or after `i` placed at `(x, y)`. */
  predicate FirstAtFrom(layout: seq<LayoutEntry>, x: int, y: int, i: int, j: int) {
    0 <= i <= j < |layout| && At(layout[j], x, y) && forall j' :: i <= j' < j ==> !At(layout[j'], x, y)
  }

  /** The index of the first entry at or after `i` placed at `(x, y)`, or
      `|layout|` when there is none. */
  function FirstAt(layout: seq<LayoutEntry>, x: int, y: int, i: nat): (j: nat)
    requires i <= |layout|
    ensures i <= j <= |layout|
    ensures j < |layout| ==> At(layout[j], x, y)
    ensures forall j' :: i <= j' < j ==> !At(layout[j'], x, y)
    decreases |layout| - i
  {
    if i == |layout| || At(layout[i], x, y) then i else FirstAt(layout, x, y, i + 1)
  }

  /** `layout.find(p => p.x === x && p.y === y)`: the first entry placed at
      `(x, y)`, `None` standing for `undefined`. */
  function Find(layout: seq<LayoutEntry>, x: int, y: int): (r: Option<LayoutEntry>)
    ensures r.None? <==> forall j :: 0 <= j < |layout| ==> !At(layout[j], x, y)
    ensures r.Some? ==> exists j :: FirstAtFrom(layout, x, y, 0, j) && layout[j] == r.value
  {
    var j := FirstAt(layout, x, y, 0);
    if j < |layout| then
      assert FirstAtFrom(layout, x, y, 0, j);
      Some(layout[j])
    else None
  }

  /** `provincesData[pName] || []`. */
  function Constituencies(provincesData: map<string, seq<PlotRow>>, name: string): seq<PlotRow> {
    if name in provincesData then provincesData[name] else []
  }

  /** The square of one constituency: the winner of the selected view and
      its colour, `'#ccc'` when the lookup gives an empty colour. */
  function ToTile(v: MapInputs, c: PlotRow): Tile {
    var party := if v.viewMode == CONSTITUENCY_VIEW then c.constituencyWinner else c.partyListWinner;
    var color := v.colorOf(party);
    Tile(c.district, party, if color == "" then FALLBACK_COLOR else color)
  }

  /** The cell at `(x, y)`: the first layout entry placed there, with a
      square per row of its province, or a blank when no entry is placed
      there. */
  function CellAt(v: MapInputs, x: int, y: int): (c: Cell)
    ensures c.x == x && c.y == y
    ensures c.ProvinceCell? <==> exists j :: 0 <= j < |v.layout| && At(v.layout[j], x, y)
    ensures c.ProvinceCell? ==> exists j :: FirstAtFrom(v.layout, x, y, 0, j) && c.name == v.layout[j].name
    ensures c.ProvinceCell? ==> |c.tiles| == |Constituencies(v.provincesData, c.name)|
    ensures c.ProvinceCell? ==> forall i :: 0 <= i < |c.tiles| ==>
      var row := Constituencies(v.provincesData, c.name)[i];
      && c.tiles[i].district == row.district
      && c.tiles[i].party == (if v.viewMode == CONSTITUENCY_VIEW then row.constituencyWinner else row.partyListWinner)
  {
    match Find(v.layout, x, y)
    case None => EmptyCell(x, y)
    case Some(p) => ProvinceCell(x, y, p.name, Map(Constituencies(v.provincesData, p.name), c => ToTile(v, c)))
  }

  /** Row `y` of the grid up to column `w`. */
  function GridRow(v: MapInputs, y: int, w: nat): seq<Cell> {
    seq(w, x requires 0 <= x < w => CellAt(v, x, y))
  }

  /** The first `h` rows of the grid, `w` columns each. */
  function GridRows(v: MapInputs, h: nat, w: nat): seq<Cell> {
    if h == 0 then [] else GridRows(v, h - 1, w) + GridRow(v, h - 1, w)
  }

  /** The cells in the order the nested loops push them. */
  function Grid(v: MapInputs): (g: seq<Cell>)
    ensures |g| == Width(v) * Height(v)
  {
    GridRowsLength(v, Height(v), Width(v));
    GridRows(v, Height(v), Width(v))
  }

  /** `gridCells`: rows `y = 0 … maxY` outside, columns `x = 0 … maxX`
      inside, each cell looked up in the layout. */
  method BuildGrid(v: MapInputs) returns (gridCells: seq<Cell>)
    ensures gridCells == Grid(v)
  {
    var width := Width(v);
    var height := Height(v);
    gridCells := [];
    for y := 0 to height
      invariant gridCells == GridRows(v, y, width)
    {
      assert GridRow(v, y, 0) == [];
      for x := 0 to width
        invariant gridCells == GridRows(v, y, width) + GridRow(v, y, x)
      {
        GridRowStep(v, y, x);
        gridCells := gridCells + [CellAt(v, x, y)];
      }
      assert GridRows(v, y + 1, width) == GridRows(v, y, width) + GridRow(v, y, width);
    }
  }

  lemma GridRowStep(v: MapInputs, y: int, x: nat)
    ensures GridRow(v, y, x + 1) == GridRow(v, y, x) + [CellAt(v, x, y)]
  {
  }

  /** Position `y * w + x` of a grid of `h` rows of `w` columns. */
  lemma RowMajorBound(x: int, y: int, w: int, h: int)
    requires 0 <= x < w && 0 <= y < h
    ensures 0 <= y * w + x < h * w
  {
    var d := h - (y + 1);
    assert h * w == (y + 1) * w + d * w;
    assert d * w >= 0;
  }

  lemma {:induction false} GridRowsLength(v: MapInputs, h: nat, w: nat)
    ensures |GridRows(v, h, w)| == h * w
  {
    if h > 0 {
      GridRowsLength(v, h - 1, w);
      assert (h - 1) * w + w == h * w;
    }
  }

  /** The cell at `(x, y)` of `h` rows of `w` columns sits at position
      `y * w + x`. */
  lemma {:induction false} GridRowsIndex(v: MapInputs, h: nat, w: nat, x: int, y: int)
    requires 0 <= x < w && 0 <= y < h
    ensures 0 <= y * w + x < |GridRows(v, h, w)|
    ensures GridRows(v, h, w)[y * w + x] == CellAt(v, x, y)
  {
    GridRowsLength(v, h, w);
    RowMajorBound(x, y, w, h);
    var k := y * w + x;
    var prefix, row := GridRows(v, h - 1, w), GridRow(v, h - 1, w);
    assert GridRows(v, h, w) == prefix + row;
    GridRowsLength(v, h - 1, w);
    assert |prefix| == (h - 1) * w;
    if y < h - 1 {
      GridRowsIndex(v, h - 1, w, x, y);
      assert k < |prefix|;
      assert prefix[k] == CellAt(v, x, y);
      assert GridRows(v, h, w)[k] == prefix[k];
    } else {
      assert k == (h - 1) * w + x;
      assert k == |prefix| + x;
      assert row[x] == CellAt(v, x, y);
      assert GridRows(v, h, w)[k] == row[x];
    }
  }

  /** The grid holds `(maxX + 1) * (maxY + 1)` cells in row-major order. */
  lemma GridIndex(v: MapInputs, x: int, y: int)
    requires 0 <= x < Width(v) && 0 <= y < Height(v)
    ensures |Grid(v)| == Width(v) * Height(v)
    ensures 0 <= y * Width(v) + x < |Grid(v)|
    ensures Grid(v)[y * Width(v) + x] == CellAt(v, x, y)
  {
    GridRowsLength(v, Height(v), Width(v));
    GridRowsIndex(v, Height(v), Width(v), x, y);
  }

  /** Every layout entry at a non-negative position lies inside the grid, and
      the cell at its position is a province cell. */
  lemma LayoutEntryDrawn(v: MapInputs, i: int)
    requires 0 <= i < |v.layout| && v.layout[i].x >= 0 && v.layout[i].y >= 0
    ensures 0 <= v.layout[i].x < Width(v) && 0 <= v.layout[i].y < Height(v)
    ensures CellAt(v, v.layout[i].x, v.layout[i].y).ProvinceCell?
  {
    var p := v.layout[i];
    assert Map(v.layout, XOf)[i] == p.x;
    assert Map(v.layout, YOf)[i] == p.y;
    assert At(v.layout[i], p.x, p.y);
  }
}
