/**
 * The series the dashboard's charts and tables draw from the district
 * records: the seat distribution, the fifteen largest gaps, the scatter of
 * the two turnouts, the table sorted by gap, the critical districts, the
 * invalid-ballot series and the largest turnout differences.
 */
module DashboardCharts {
  import opened Wrappers
  import opened Seqs
  import opened Sorting
  import opened JsObject
  import opened DashboardData
  import opened DashboardKpis

  /** Fill of a bar whose constituency count is the larger. */
  const RED: string := "#ef4444"
  /** Fill of a bar whose party-list count is the larger, or equal. */
  const BLUE: string := "#3b82f6"

  /** `${province} เขต ${district}`. */
  function Label(d: District): string {
    d.province + " เขต " + DistrictText(d.district)
  }

  /** One slice of the seat chart. */
  datatype Seat = Seat(name: string, value: int)

  function SeatValue(s: Seat): int {
    s.value
  }

  function ToSeat(e: (string, int)): Seat {
    Seat(e.0, e.1)
  }

  /** `seatDistributionData`: the constituency wins as `{ name, value }`,
      most seats first; nothing without figures. */
  function SeatDistribution(kpis: Option<Kpis>): (r: seq<Seat>)
    requires kpis.Some? ==> kpis.value.constituencyWins.Valid()
    ensures kpis.None? ==> r == []
    ensures kpis.Some? ==> |r| == |kpis.value.constituencyWins.keys|
  {
    match kpis
    case None => []
    case Some(k) => SortBy(Map(k.constituencyWins.Entries(), ToSeat), Desc(SeatValue))
  }

  /** The seat chart runs from the most seats down. */
  lemma SeatDistributionOrdered(kpis: Option<Kpis>)
    requires kpis.Some? ==> kpis.value.constituencyWins.Valid()
    ensures var r := SeatDistribution(kpis);
      forall i, j :: 0 <= i < j < |r| ==> r[i].value >= r[j].value
  {
    if kpis.Some? {
      SortDescOrdered(Map(kpis.value.constituencyWins.Entries(), ToSeat), SeatValue);
    }
  }

  /** The slices of a list of entries add up to the entries' counts. */
  lemma SeatsSum(es: seq<(string, int)>)
    ensures SumBy(SortBy(Map(es, ToSeat), Desc(SeatValue)), SeatValue) == SumBy(es, Count)
  {
    var seats := Map(es, ToSeat);
    SumBySortBy(seats, Desc(SeatValue), SeatValue);
    SumByMap(es, ToSeat, Count, SeatValue);
  }

  /** The slices of a list of entries are those entries, reordered. */
  lemma SeatsOfEntries(es: seq<(string, int)>)
    ensures var r := SortBy(Map(es, ToSeat), Desc(SeatValue));
      && (forall s :: s in r ==> exists i :: 0 <= i < |es| && es[i] == (s.name, s.value))
      && (forall i :: 0 <= i < |es| ==> Seat(es[i].0, es[i].1) in r)
  {
    var seats := Map(es, ToSeat);
    var r := SortBy(seats, Desc(SeatValue));
    forall s | s in r ensures exists i :: 0 <= i < |es| && es[i] == (s.name, s.value) {
      assert s in multiset(seats);
      var i :| 0 <= i < |seats| && seats[i] == s;
    }
    forall i | 0 <= i < |es| ensures Seat(es[i].0, es[i].1) in r {
      assert seats[i] in multiset(r);
    }
  }

  /** The slices add up to the counts of the wins they are drawn from. */
  lemma SeatDistributionTotal(k: Kpis)
    requires k.constituencyWins.Valid()
    ensures SumBy(SeatDistribution(Some(k)), SeatValue) == SumBy(k.constituencyWins.Entries(), Count)
  {
    SeatsSum(k.constituencyWins.Entries());
  }

  /** For the figures of a set of districts, the slices add up to the number
      of districts. */
  lemma SeatDistributionSum(k: Kpis, names: seq<string>)
    requires k.constituencyWins == Tally(names)
    ensures Tally(names).Valid()
    ensures SumBy(SeatDistribution(Some(k)), SeatValue) == |names|
  {
    TallySum(names);
    SeatDistributionTotal(k);
  }

  /** For the figures of a set of districts, every slice is a winning party
      with its number of seats. */
  lemma SeatDistributionParties(k: Kpis, names: seq<string>)
    requires k.constituencyWins == Tally(names)
    ensures Tally(names).Valid()
    ensures forall s :: s in SeatDistribution(Some(k)) ==> s.name in names && s.value == Occurrences(names, s.name)
  {
    TallyValid(names);
    var es := Tally(names).Entries();
    SeatsOfEntries(es);
    forall s | s in SeatDistribution(Some(k)) ensures s.name in names && s.value == Occurrences(names, s.name) {
      var i :| 0 <= i < |es| && es[i] == (s.name, s.value);
      TallyEntry(names, i);
    }
  }

  /** For the figures of a set of districts, every winning party has its
      slice. */
  lemma SeatDistributionCovers(k: Kpis, names: seq<string>)
    requires k.constituencyWins == Tally(names)
    ensures Tally(names).Valid()
    ensures forall p :: p in names ==> Seat(p, Occurrences(names, p)) in SeatDistribution(Some(k))
  {
    TallyValid(names);
    var es := Tally(names).Entries();
    SeatsOfEntries(es);
    forall p | p in names ensures Seat(p, Occurrences(names, p)) in SeatDistribution(Some(k)) {
      var i := TallyHasEntry(names, p);
    }
  }

  /** One bar of the largest-gap chart. */
  datatype Bar = Bar(name: string, discrepancy: int, absDiscrepancy: int, fill: string)

  function ToBar(d: District): Bar {
    Bar(Label(d), d.discrepancy, d.absDiscrepancy, if d.discrepancy > 0 then RED else BLUE)
  }

  /** The fifteen districts with the largest absolute gap. */
  function TopDistricts(data: seq<District>): (r: seq<District>)
    ensures |r| == if |data| < 15 then |data| else 15
  {
    TopBy(data, AbsDiscrepancy, 15)
  }

  /** `topDiscrepancyData`: those fifteen districts as bars. */
  function TopDiscrepancy(data: seq<District>): (r: seq<Bar>)
    ensures |r| == if |data| < 15 then |data| else 15
  {
    Map(TopDistricts(data), ToBar)
  }

  /** Each bar stands for a district of the data, red exactly when its
      constituency count is the larger. */
  lemma TopDiscrepancyBars(data: seq<District>)
    ensures forall b :: b in TopDiscrepancy(data) ==>
      exists d :: d in data && b == ToBar(d) && (b.fill == RED <==> d.discrepancy > 0)
  {
    TopBySubset(data, AbsDiscrepancy, 15);
    MapMembers(TopDistricts(data), ToBar);
    forall d | d in TopDistricts(data) ensures d in data {
      assert d in multiset(TopDistricts(data));
    }
  }

  /** The bars run from the largest gap down. */
  lemma TopDiscrepancyOrdered(data: seq<District>)
    ensures var r := TopDiscrepancy(data);
      forall i, j :: 0 <= i < j < |r| ==> r[i].absDiscrepancy >= r[j].absDiscrepancy
  {
    TopByOrdered(data, AbsDiscrepancy, 15);
  }

  /** A district without a bar has a gap no larger than that of any bar: the
      bars are the first fifteen places of the list sorted by gap, and every
      place from the sixteenth on has a gap no larger than any bar's. */
  lemma TopDiscrepancyDominates(data: seq<District>)
    ensures var r := TopDiscrepancy(data);
      forall d, i :: d in data && d !in TopDistricts(data) && 0 <= i < |r| ==> r[i].absDiscrepancy >= d.absDiscrepancy
    ensures var r := TopDiscrepancy(data);
      var sorted := SortBy(data, Desc(AbsDiscrepancy));
      forall i :: 0 <= i < |r| ==> r[i] == ToBar(sorted[i])
    ensures var r := TopDiscrepancy(data);
      var sorted := SortBy(data, Desc(AbsDiscrepancy));
      forall i, j :: 0 <= i < |r| && 15 <= j < |sorted| ==> r[i].absDiscrepancy >= sorted[j].absDiscrepancy
  {
    var top, r := TopDistricts(data), TopDiscrepancy(data);
    var sorted := SortBy(data, Desc(AbsDiscrepancy));
    TopByDominates(data, AbsDiscrepancy, 15);
    TopByCut(data, AbsDiscrepancy, 15);
    forall i, j | 0 <= i < |r| && 15 <= j < |sorted| ensures r[i].absDiscrepancy >= sorted[j].absDiscrepancy {
      assert r[i] == ToBar(top[i]);
      assert AbsDiscrepancy(top[i]) >= AbsDiscrepancy(sorted[j]);
    }
    forall d, i | d in data && d !in top && 0 <= i < |r| ensures r[i].absDiscrepancy >= d.absDiscrepancy {
      assert r[i] == ToBar(top[i]);
      assert top[i] in top;
      assert AbsDiscrepancy(top[i]) >= AbsDiscrepancy(d);
    }
  }

  /** One point of the turnout scatter. */
  datatype Point = Point(x: int, y: int, name: string, discrepancy: int)

  /** `scatterData`: a point per district, in data order, at its constituency
      and party-list turnouts. */
  function Scatter(data: seq<District>): (r: seq<Point>)
    ensures |r| == |data|
    ensures forall i :: 0 <= i < |r| ==>
      && r[i].x == data[i].constituencyVoters && r[i].y == data[i].partyListVoters
      && r[i].name == Label(data[i]) && r[i].discrepancy == data[i].absDiscrepancy
  {
    Map(data, (d: District) => Point(d.constituencyVoters, d.partyListVoters, Label(d), d.absDiscrepancy))
  }

  /** `sortedTableData`: every district, largest absolute gap first. */
  function SortedTable(data: seq<District>): (r: seq<District>)
    ensures multiset(r) == multiset(data)
  {
    SortBy(data, Desc(AbsDiscrepancy))
  }

  /** The table is a reordering of the data with gaps that never increase,
      and its first row is the first district with the largest gap. */
  lemma SortedTableMeaning(data: seq<District>)
    ensures var r := SortedTable(data);
      && (forall i, j :: 0 <= i < j < |r| ==> r[i].absDiscrepancy >= r[j].absDiscrepancy)
      && (data != [] ==> r[0] == data[FirstMaxIndex(data, AbsDiscrepancy)])
  {
    SortDescOrdered(data, AbsDiscrepancy);
    if data != [] {
      SortDescHead(data, AbsDiscrepancy);
    }
  }

  /** `criticalDistrictsData`: the critical districts, largest absolute gap
      first. */
  function CriticalDistricts(data: seq<District>): (r: seq<District>)
    ensures multiset(r) == multiset(Filter(data, IsCritical))
  {
    SortBy(Filter(data, IsCritical), Desc(AbsDiscrepancy))
  }

  /** Every critical district is listed, as often as in the data, and nothing
      else; the gaps never increase. */
  lemma CriticalDistrictsMeaning(data: seq<District>)
    ensures var r := CriticalDistricts(data);
      && (forall d :: d in r <==> d in data && d.isCritical)
      && (forall d :: d in data && d.isCritical ==> multiset(r)[d] == multiset(data)[d])
      && (forall i, j :: 0 <= i < j < |r| ==> r[i].absDiscrepancy >= r[j].absDiscrepancy)
  {
    var f := Filter(data, IsCritical);
    var r := CriticalDistricts(data);
    SortDescOrdered(f, AbsDiscrepancy);
    forall d ensures d in r <==> d in data && d.isCritical {
      assert d in r <==> d in multiset(f);
      if d in data && d.isCritical {
        assert multiset(f)[d] == multiset(data)[d];
      }
    }
  }

  /** A district with a positive invalid-ballot share. */
  predicate HasInvalidShare(d: District) {
    d.invalidPercentage.Real() > 0.0
  }

  /** One point of the invalid-ballot series. */
  datatype InvalidPoint = InvalidPoint(name: string, discrepancy: int, invalidPercentage: Percentage)

  function ToInvalidPoint(d: District): InvalidPoint {
    InvalidPoint(Label(d), d.absDiscrepancy, d.invalidPercentage)
  }

  /** Of the districts with invalid or "vote no" ballots, the fifty with the
      largest absolute gap. */
  function InvalidDistricts(data: seq<District>): (r: seq<District>)
    ensures |r| <= 50
  {
    TopBy(Filter(data, HasInvalidShare), AbsDiscrepancy, 50)
  }

  /** `invalidBallotsChartData`: those fifty districts as points. */
  function InvalidBallotsChart(data: seq<District>): (r: seq<InvalidPoint>)
    ensures |r| <= 50
  {
    Map(InvalidDistricts(data), ToInvalidPoint)
  }

  /** Every point comes from a district of the data with a positive share. */
  lemma InvalidBallotsChartPoints(data: seq<District>)
    ensures forall p :: p in InvalidBallotsChart(data) ==>
      p.invalidPercentage.Real() > 0.0 && exists d :: d in data && p == ToInvalidPoint(d)
  {
    TopByFilterMembers(data, HasInvalidShare, AbsDiscrepancy, 50);
    MapMembers(InvalidDistricts(data), ToInvalidPoint);
  }

  /** The points run from the largest gap down. */
  lemma InvalidBallotsChartOrdered(data: seq<District>)
    ensures var r := InvalidBallotsChart(data);
      forall i, j :: 0 <= i < j < |r| ==> r[i].discrepancy >= r[j].discrepancy
  {
    TopByOrdered(Filter(data, HasInvalidShare), AbsDiscrepancy, 50);
  }

  /** A district with a positive share but no point has a gap no larger than
      that of any point. */
  lemma InvalidBallotsChartDominates(data: seq<District>)
    ensures var r := InvalidBallotsChart(data);
      forall d, i :: d in data && HasInvalidShare(d) && d !in InvalidDistricts(data) && 0 <= i < |r| ==>
        r[i].discrepancy >= d.absDiscrepancy
  {
    var top := InvalidDistricts(data);
    var r := InvalidBallotsChart(data);
    TopByFilterDominates(data, HasInvalidShare, AbsDiscrepancy, 50);
    forall d, i | d in data && HasInvalidShare(d) && d !in top && 0 <= i < |r|
      ensures r[i].discrepancy >= d.absDiscrepancy
    {
      assert top[i] in top;
      assert AbsDiscrepancy(top[i]) >= AbsDiscrepancy(d);
    }
  }

  function TurnoutDifference(d: District): int {
    d.turnoutDifference
  }

  /** A district whose constituency and referendum turnouts differ. */
  predicate TurnoutChanged(d: District) {
    d.turnoutDifference != 0
  }

  /** `turnoutComparisonData`: of the districts whose two turnouts differ,
      the twenty with the largest (signed) difference. */
  function TurnoutComparison(data: seq<District>): (r: seq<District>)
    ensures |r| <= 20
  {
    TopBy(Filter(data, TurnoutChanged), TurnoutDifference, 20)
  }

  /** Every listed district is one of the data with differing turnouts, and
      the differences never increase. */
  lemma TurnoutComparisonMembers(data: seq<District>)
    ensures var r := TurnoutComparison(data);
      && (forall d :: d in r ==> d in data && d.turnoutDifference != 0)
      && (forall i, j :: 0 <= i < j < |r| ==> r[i].turnoutDifference >= r[j].turnoutDifference)
  {
    TopByFilterMembers(data, TurnoutChanged, TurnoutDifference, 20);
    TopByOrdered(Filter(data, TurnoutChanged), TurnoutDifference, 20);
  }

  /** A district whose turnouts differ but that is not listed has a
      difference no larger than any listed. */
  lemma TurnoutComparisonDominates(data: seq<District>)
    ensures var r := TurnoutComparison(data);
      forall d, e :: d in data && TurnoutChanged(d) && d !in r && e in r ==>
        TurnoutDifference(e) >= TurnoutDifference(d)
  {
    TopByFilterDominates(data, TurnoutChanged, TurnoutDifference, 20);
  }
}
