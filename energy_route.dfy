/**
  The energy API handler (app/api/energy/route.ts): the early-return
  validation chain over the query, the per-type park lists, and the merge of
  the solar and wind hourly series into one row per date. Fetching the park
  list and the readings is abstracted: the park list is an argument and each
  park's readings come from `readingsOf`.
 */
module EnergyRoute {
  import opened Options
  import opened Clock
  import opened ChartUtils

  /** A row of the park list: `park_name`, `timezone` and `energy_type` as read from the CSV. */
  datatype ParkRow = ParkRow(parkName: string, timezone: string, energyType: string)

  // ---------------------------------------------------------------------------
  // Validation and dispatch
  // ---------------------------------------------------------------------------

  /** `!v` for a query parameter: absent (`null`) or empty. */
  predicate Missing(v: Option<string>) {
    v == None || v == Some("")
  }

  predicate ValidMetric(metric: Option<string>) {
    metric == Some("solar") || metric == Some("wind") || metric == Some("combined")
  }

  predicate ValidMode(mode: Option<string>) {
    mode == Some("all") || mode == Some("park")
  }

  /** `parks.filter((parkItem) => parkItem.energy_type === t)`. */
  function RowsOfType(parks: seq<ParkRow>, t: string): seq<ParkRow> {
    if parks == [] then []
    else (if parks[0].energyType == t then [parks[0]] else []) + RowsOfType(parks[1..], t)
  }

  /** The rows of type `t` are exactly those of the list with that type, in order. */
  lemma {:induction false} RowsOfTypeExactly(parks: seq<ParkRow>, t: string)
    ensures forall i :: 0 <= i < |RowsOfType(parks, t)| ==> RowsOfType(parks, t)[i].energyType == t
    ensures forall p :: p in parks && p.energyType == t ==> p in RowsOfType(parks, t)
    ensures forall p :: p in RowsOfType(parks, t) ==> p in parks
  {
    if parks != [] {
      RowsOfTypeExactly(parks[1..], t);
      assert parks == [parks[0]] + parks[1..];
    }
  }

  /** `parks.find((parkItem) => parkItem.park_name === name)`. */
  function FindPark(parks: seq<ParkRow>, name: string): (r: Option<ParkRow>)
    ensures r.None? <==> forall i :: 0 <= i < |parks| ==> parks[i].parkName != name
    ensures r.Some? ==> exists i :: 0 <= i < |parks| && parks[i] == r.value && parks[i].parkName == name &&
                                   forall j :: 0 <= j < i ==> parks[j].parkName != name
  {
    if parks == [] then None
    else if parks[0].parkName == name then Some(parks[0])
    else
      var r := FindPark(parks[1..], name);
      assert forall i :: 1 <= i < |parks| ==> parks[i] == parks[1..][i - 1];
      r
  }

  /** A type mismatch between the metric and the chosen park. */
  predicate Mismatch(metric: string, park: ParkRow) {
    (metric == "solar" && park.energyType != "Solar") || (metric == "wind" && park.energyType != "Wind")
  }

  /** What the handler does after reading the query and the park list. */
  datatype Plan =
    | Reject(status: int, error: string)
    | AllParks(metric: string, solarParks: seq<ParkRow>, windParks: seq<ParkRow>)
    | NoData(parkName: string)
    | OnePark(park: ParkRow, metric: string)

  /** The early-return chain: metric, then mode, then (for one park) presence, existence and type. */
  function Validate(mode: Option<string>, metric: Option<string>, park: Option<string>, parks: seq<ParkRow>): (p: Plan)
    ensures p == Reject(400, "Invalid metric") <==> !ValidMetric(metric)
    ensures p == Reject(400, "Invalid mode") <==> ValidMetric(metric) && !ValidMode(mode)
    ensures p.AllParks? <==> ValidMetric(metric) && mode == Some("all")
    ensures p.AllParks? ==> p.metric == metric.value && p.solarParks == RowsOfType(parks, "Solar")
                            && p.windParks == RowsOfType(parks, "Wind")
    ensures p == Reject(400, "Missing park") <==> ValidMetric(metric) && mode == Some("park") && Missing(park)
    ensures p == Reject(404, "Unknown park") <==>
              ValidMetric(metric) && mode == Some("park") && !Missing(park) && FindPark(parks, park.value).None?
    ensures p.NoData? <==>
              ValidMetric(metric) && mode == Some("park") && !Missing(park) && FindPark(parks, park.value).Some?
              && Mismatch(metric.value, FindPark(parks, park.value).value)
    ensures p.NoData? ==> p.parkName == FindPark(parks, park.value).value.parkName
    ensures p.OnePark? <==> ValidMetric(metric) && mode == Some("park") && !Missing(park)
                            && FindPark(parks, park.value).Some? && !Mismatch(metric.value, FindPark(parks, park.value).value)
    ensures p.OnePark? ==> ValidMetric(metric) && mode == Some("park") && !Missing(park)
                           && Some(p.park) == FindPark(parks, park.value) && p.metric == metric.value
                           && !Mismatch(p.metric, p.park)
    ensures p.Reject? ==> p.status == 400 || p.status == 404
  {
    if Missing(metric) || !ValidMetric(metric) then Reject(400, "Invalid metric")
    else if Missing(mode) || !ValidMode(mode) then Reject(400, "Invalid mode")
    else if mode.value == "all" then AllParks(metric.value, RowsOfType(parks, "Solar"), RowsOfType(parks, "Wind"))
    else if Missing(park) then Reject(400, "Missing park")
    else match FindPark(parks, park.value)
      case None => Reject(404, "Unknown park")
      case Some(target) =>
        if Mismatch(metric.value, target) then NoData(target.parkName)
        else OnePark(target, metric.value)
  }

  /** Every combination of metric and mode passes validation when both are in range, including `combined` for one park. */
  lemma CombinedForOnePark(park: ParkRow, parks: seq<ParkRow>)
    requires park.parkName != "" && FindPark(parks, park.parkName) == Some(park)
    ensures Validate(Some("park"), Some("combined"), Some(park.parkName), parks) == OnePark(park, "combined")
  {
  }

  // ---------------------------------------------------------------------------
  // Combined solar and wind rows
  // ---------------------------------------------------------------------------

  /** A merged row `{ date, solar?, wind? }`. */
  datatype EnergyRow = EnergyRow(date: Timestamp, solar: Option<real>, wind: Option<real>)

  /** `item[name]` of a point: its value when it was aggregated under `name`. */
  function Field(p: Point, name: string): Option<real> {
    if p.key == name then Some(p.value) else None
  }

  /** The dates of a series. */
  function DatesOf(s: seq<Point>): set<Timestamp> {
    if s == [] then {} else DatesOf(s[..|s| - 1]) + {s[|s| - 1].date}
  }

  /** The last point of `s` dated `d`: the one whose write to the map survives. */
  function LastAt(s: seq<Point>, d: Timestamp): Option<Point> {
    if s == [] then None
    else if s[|s| - 1].date == d then Some(s[|s| - 1])
    else LastAt(s[..|s| - 1], d)
  }

  /** The value a series contributes to the field `name` of the row for `d`. */
  function ValueAt(s: seq<Point>, d: Timestamp, name: string): Option<real> {
    match LastAt(s, d)
    case None => None
    case Some(p) => Field(p, name)
  }

  /** `d` is a date of `s` exactly when some point of `s` has it, and then `LastAt` finds the last one. */
  lemma {:induction false} LastAtSpec(s: seq<Point>, d: Timestamp)
    ensures d in DatesOf(s) <==> exists i :: 0 <= i < |s| && s[i].date == d
    ensures LastAt(s, d).None? <==> d !in DatesOf(s)
    ensures LastAt(s, d).Some? ==> exists i :: 0 <= i < |s| && s[i] == LastAt(s, d).value && s[i].date == d &&
                                              forall j :: i < j < |s| ==> s[j].date != d
  {
    if s != [] {
      var init := s[..|s| - 1];
      LastAtSpec(init, d);
      if exists i :: 0 <= i < |init| && init[i].date == d {
        var i :| 0 <= i < |init| && init[i].date == d;
        assert s[i] == init[i];
      }
      if exists i :: 0 <= i < |s| && s[i].date == d {
        var i :| 0 <= i < |s| && s[i].date == d;
        if i < |init| {
          assert init[i] == s[i];
        }
      }
      if LastAt(s, d).Some? && s[|s| - 1].date != d {
        var i :| 0 <= i < |init| && init[i] == LastAt(init, d).value && init[i].date == d &&
                 forall j :: i < j < |init| ==> init[j].date != d;
        assert s[i] == init[i];
      }
    }
  }

  predicate RowDatesIncreasing(rows: seq<EnergyRow>) {
    forall i, j :: 0 <= i < j < |rows| ==> Before(rows[i].date, rows[j].date)
  }

  /**
    `rows` is the merge of `solar` and `wind`: one row per date of either
    series, ascending, carrying the solar value and the wind value that the
    last point of each series at that date provides.
   */
  predicate IsCombined(rows: seq<EnergyRow>, solar: seq<Point>, wind: seq<Point>) {
    && RowDatesIncreasing(rows)
    && (forall i :: 0 <= i < |rows| ==> rows[i].date in DatesOf(solar) + DatesOf(wind))
    && (forall d :: d in DatesOf(solar) + DatesOf(wind) ==> exists i :: 0 <= i < |rows| && rows[i].date == d)
    && (forall i :: 0 <= i < |rows| ==>
          rows[i].solar == ValueAt(solar, rows[i].date, "solar") && rows[i].wind == ValueAt(wind, rows[i].date, "wind"))
  }

  /** The merge map after `solar[..i]` and `wind[..j]`. */
  predicate MergedPrefix(combined: map<Timestamp, EnergyRow>, solar: seq<Point>, wind: seq<Point>) {
    && combined.Keys == DatesOf(solar) + DatesOf(wind)
    && forall d :: d in combined ==> combined[d] == EnergyRow(d, ValueAt(solar, d, "solar"), ValueAt(wind, d, "wind"))
  }

  /** One more point makes its date present and its value the latest for that date. */
  lemma SeriesStep(s: seq<Point>, i: int, d: Timestamp, name: string)
    requires 0 <= i < |s|
    ensures DatesOf(s[..i + 1]) == DatesOf(s[..i]) + {s[i].date}
    ensures ValueAt(s[..i + 1], d, name) == if s[i].date == d then Field(s[i], name) else ValueAt(s[..i], d, name)
  {
    assert s[..i + 1][..i] == s[..i];
  }

  /** The rows of the merge map, sorted by date. */
  function EmitRows(combined: map<Timestamp, EnergyRow>): (rows: seq<EnergyRow>)
    requires forall d :: d in combined ==> combined[d].date == d
    ensures |rows| == |combined|
    ensures RowDatesIncreasing(rows)
    ensures forall i :: 0 <= i < |rows| ==> rows[i].date in combined && rows[i] == combined[rows[i].date]
    ensures forall d :: d in combined ==> exists i :: 0 <= i < |rows| && rows[i].date == d
  {
    var dates := SortedTimestamps(combined.Keys);
    RowsOf(combined, dates)
  }

  function RowsOf(combined: map<Timestamp, EnergyRow>, dates: seq<Timestamp>): (rows: seq<EnergyRow>)
    requires forall d :: d in combined ==> combined[d].date == d
    requires forall j :: 0 <= j < |dates| ==> dates[j] in combined
    ensures |rows| == |dates| && forall j :: 0 <= j < |dates| ==> rows[j] == combined[dates[j]] && rows[j].date == dates[j]
  {
    seq(|dates|, j requires 0 <= j < |dates| => combined[dates[j]])
  }

  /** Adding the next wind point to the map, keeping the solar value already there. */
  lemma WindStep(combined: map<Timestamp, EnergyRow>, solar: seq<Point>, wind: seq<Point>, j: int)
    requires 0 <= j < |wind| && MergedPrefix(combined, solar, wind[..j])
    ensures var item := wind[j];
            var existing := if item.date in combined then combined[item.date] else EnergyRow(item.date, None, None);
            MergedPrefix(combined[item.date := existing.(wind := Field(item, "wind"))], solar, wind[..j + 1])
  {
    forall d { SeriesStep(wind, j, d, "wind"); }
    LastAtSpec(wind[..j], wind[j].date);
    LastAtSpec(solar, wind[j].date);
  }

  /** Sorting a complete merge map gives the combined rows. */
  lemma EmitCombined(combined: map<Timestamp, EnergyRow>, solar: seq<Point>, wind: seq<Point>)
    requires MergedPrefix(combined, solar, wind)
    ensures forall d :: d in combined ==> combined[d].date == d
    ensures IsCombined(EmitRows(combined), solar, wind)
  {
  }

  /** The combined branch of `GET`: fill the map from the solar series, then the wind series, then sort. */
  method MergeCombined(solar: seq<Point>, wind: seq<Point>) returns (rows: seq<EnergyRow>)
    ensures IsCombined(rows, solar, wind)
  {
    var combined: map<Timestamp, EnergyRow> := map[];
    assert solar[..0] == [] && wind[..0] == [];
    for i := 0 to |solar|
      invariant MergedPrefix(combined, solar[..i], [])
    {
      var item := solar[i];
      forall d { SeriesStep(solar, i, d, "solar"); }
      combined := combined[item.date := EnergyRow(item.date, Field(item, "solar"), None)];
    }
    assert solar[..|solar|] == solar;
    for j := 0 to |wind|
      invariant MergedPrefix(combined, solar, wind[..j])
    {
      var item := wind[j];
      WindStep(combined, solar, wind, j);
      var existing := if item.date in combined then combined[item.date] else EnergyRow(item.date, None, None);
      combined := combined[item.date := existing.(wind := Field(item, "wind"))];
    }
    assert wind[..|wind|] == wind;
    EmitCombined(combined, solar, wind);
    rows := EmitRows(combined);
  }

  /** The merge of two series is unique: the contract above fixes the rows completely. */
  lemma CombinedUnique(r1: seq<EnergyRow>, r2: seq<EnergyRow>, solar: seq<Point>, wind: seq<Point>)
    requires IsCombined(r1, solar, wind) && IsCombined(r2, solar, wind)
    ensures r1 == r2
  {
    var d1 := RowDates(r1);
    var d2 := RowDates(r2);
    forall t ensures t in d1 <==> t in d2 {
      if t in d1 {
        var i :| 0 <= i < |d1| && d1[i] == t;
        var j :| 0 <= j < |r2| && r2[j].date == t;
        assert d2[j] == t;
      }
      if t in d2 {
        var i :| 0 <= i < |d2| && d2[i] == t;
        var j :| 0 <= j < |r1| && r1[j].date == t;
        assert d1[j] == t;
      }
    }
    StrictlyIncreasingUnique(d1, d2);
    forall i | 0 <= i < |r1| ensures r1[i] == r2[i] {
      assert d1[i] == d2[i];
    }
  }

  /** The dates of the rows, in order. */
  function RowDates(rows: seq<EnergyRow>): (d: seq<Timestamp>)
    ensures |d| == |rows| && forall i :: 0 <= i < |rows| ==> d[i] == rows[i].date
    ensures RowDatesIncreasing(rows) ==> StrictlyIncreasing(d)
  {
    seq(|rows|, i requires 0 <= i < |rows| => rows[i].date)
  }

  /** A series with increasing dates has no date twice. */
  lemma DistinctDates(s: seq<Point>)
    requires DatesIncreasing(s)
    ensures forall i, j :: 0 <= i < j < |s| ==> s[i].date != s[j].date
  {
    forall i, j | 0 <= i < j < |s| ensures s[i].date != s[j].date {
      assert Before(s[i].date, s[j].date);
    }
  }

  /** In a series with increasing dates, the point at a date is the only one there. */
  lemma SeriesValueAt(s: seq<Point>, i: int, name: string)
    requires DatesIncreasing(s) && 0 <= i < |s|
    ensures ValueAt(s, s[i].date, name) == Field(s[i], name)
  {
    LastAtSpec(s, s[i].date);
    var k :| 0 <= k < |s| && s[k] == LastAt(s, s[i].date).value && s[k].date == s[i].date &&
             forall j :: k < j < |s| ==> s[j].date != s[i].date;
    DistinctDates(s);
  }

  /**
    `rows` holds, for each hour with solar or wind data, the mean solar value
    when that hour has solar readings and the mean wind value when it has
    wind readings, and nothing else; the hours ascend.
   */
  predicate IsCombinedOfReadings(rows: seq<EnergyRow>, solarReadings: seq<Reading>, windReadings: seq<Reading>) {
    && RowDatesIncreasing(rows)
    && (forall i :: 0 <= i < |rows| ==> rows[i].date in Hours(solarReadings) + Hours(windReadings))
    && (forall h :: h in Hours(solarReadings) + Hours(windReadings) ==> exists i :: 0 <= i < |rows| && rows[i].date == h)
    && (forall i :: 0 <= i < |rows| ==> rows[i].solar == MeanAt(solarReadings, rows[i].date))
    && (forall i :: 0 <= i < |rows| ==> rows[i].wind == MeanAt(windReadings, rows[i].date))
  }

  /** The mean of the readings in `hour`, when the hour has any. */
  function MeanAt(rs: seq<Reading>, hour: Timestamp): Option<real> {
    if hour in Hours(rs) then
      HourCountPositive(rs, hour);
      Some(HourTotal(rs, hour) / (HourCount(rs, hour) as real))
    else None
  }

  /** A series' dates as a set are its hours. */
  lemma HourlyDates(points: seq<Point>, readings: seq<Reading>, key: string)
    requires IsHourlySeries(points, readings, key)
    ensures DatesOf(points) == Hours(readings)
  {
    forall h ensures h in DatesOf(points) <==> h in Hours(readings) {
      LastAtSpec(points, h);
    }
  }

  /** What a hourly series contributes to a row is the hour's mean, or nothing. */
  lemma HourlyValueAt(points: seq<Point>, readings: seq<Reading>, key: string, d: Timestamp)
    requires IsHourlySeries(points, readings, key)
    ensures ValueAt(points, d, key) == MeanAt(readings, d)
  {
    LastAtSpec(points, d);
    HourlyDates(points, readings, key);
    if d in Hours(readings) {
      var i :| 0 <= i < |points| && points[i].date == d;
      SeriesValueAt(points, i, key);
    }
  }

  /** Merging the solar and the wind hourly series joins the two aggregates hour by hour. */
  lemma CombinedOfSeries(rows: seq<EnergyRow>, solar: seq<Point>, wind: seq<Point>,
                         solarReadings: seq<Reading>, windReadings: seq<Reading>)
    requires IsHourlySeries(solar, solarReadings, "solar") && IsHourlySeries(wind, windReadings, "wind")
    requires IsCombined(rows, solar, wind)
    ensures IsCombinedOfReadings(rows, solarReadings, windReadings)
  {
    HourlyDates(solar, solarReadings, "solar");
    HourlyDates(wind, windReadings, "wind");
    forall i | 0 <= i < |rows|
      ensures rows[i].solar == MeanAt(solarReadings, rows[i].date)
      ensures rows[i].wind == MeanAt(windReadings, rows[i].date)
    {
      HourlyValueAt(solar, solarReadings, "solar", rows[i].date);
      HourlyValueAt(wind, windReadings, "wind", rows[i].date);
    }
  }

  // ---------------------------------------------------------------------------
  // The handler
  // ---------------------------------------------------------------------------

  datatype Data = Series(points: seq<Point>) | Rows(rows: seq<EnergyRow>)

  /** The JSON reply: an error with its status, or the park name with the data. */
  datatype Response = Failure(status: int, error: string) | Success(parkName: string, data: Data)

  /** The readings of the parks, park after park (`Promise.all` then `flat`). */
  function ParkData(parks: seq<ParkRow>, readingsOf: string -> seq<Reading>): seq<Reading> {
    if parks == [] then [] else ParkData(parks[..|parks| - 1], readingsOf) + readingsOf(parks[|parks| - 1].parkName)
  }

  /** `GET`, with the park list and each park's readings given. */
  method Get(mode: Option<string>, metric: Option<string>, park: Option<string>, parks: seq<ParkRow>,
             readingsOf: string -> seq<Reading>) returns (resp: Response)
    ensures match Validate(mode, metric, park, parks)
      case Reject(status, error) => resp == Failure(status, error)
      case NoData(name) => resp == Success(name, Series([]))
      case OnePark(target, m) =>
        resp.Success? && resp.parkName == target.parkName && resp.data.Series?
        && IsHourlySeries(resp.data.points, readingsOf(target.parkName), m)
      case AllParks(m, solarParks, windParks) =>
        resp.Success? && resp.parkName == "All Parks"
        && (m == "solar" ==> resp.data.Series? && IsHourlySeries(resp.data.points, ParkData(solarParks, readingsOf), "solar"))
        && (m == "wind" ==> resp.data.Series? && IsHourlySeries(resp.data.points, ParkData(windParks, readingsOf), "wind"))
        && (m == "combined" ==>
              && resp.data.Rows?
              && IsCombinedOfReadings(resp.data.rows, ParkData(solarParks, readingsOf), ParkData(windParks, readingsOf)))
  {
    var plan := Validate(mode, metric, park, parks);
    match plan {
      case Reject(status, error) =>
        resp := Failure(status, error);
      case NoData(name) =>
        resp := Success(name, Series([]));
      case OnePark(target, m) =>
        var aggregated := AggregateHourly(readingsOf(target.parkName), m);
        resp := Success(target.parkName, Series(aggregated));
      case AllParks(m, solarParks, windParks) =>
        if m == "solar" {
          var aggregated := AggregateHourly(ParkData(solarParks, readingsOf), "solar");
          resp := Success("All Parks", Series(aggregated));
        } else if m == "wind" {
          var aggregated := AggregateHourly(ParkData(windParks, readingsOf), "wind");
          resp := Success("All Parks", Series(aggregated));
        } else {
          var solarData := ParkData(solarParks, readingsOf);
          var windData := ParkData(windParks, readingsOf);
          var solarAggregated := AggregateHourly(solarData, "solar");
          var windAggregated := AggregateHourly(windData, "wind");
          var combined := MergeCombined(solarAggregated, windAggregated);
          CombinedOfSeries(combined, solarAggregated, windAggregated, solarData, windData);
          resp := Success("All Parks", Rows(combined));
        }
    }
  }
}
