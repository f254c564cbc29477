/**
  Chart data shaping (lib/charts/utils.ts): hourly aggregation of raw
  readings and the catalogue of preset year/quarter ranges.
 */
module ChartUtils {
  import opened Options
  import opened Clock
  import opened Text
  import opened Seqs

  // ---------------------------------------------------------------------------
  // Readings and aggregated points
  // ---------------------------------------------------------------------------

  /** The `datetime` cell of a reading: empty, not a date, or a parsed local timestamp. */
  datatype DateField = Blank | Unparseable | At(t: Timestamp)

  /** The `MW` cell of a reading: a number, or anything else. */
  datatype MwField = Numeric(mw: real) | NonNumeric

  datatype Reading = Reading(datetime: DateField, power: MwField)

  /** One aggregated chart point `{ date, [key]: value }`. */
  datatype Point = Point(date: Timestamp, key: string, value: real)

  /** Running sum and number of readings for one hour. */
  datatype Bucket = Bucket(total: real, count: nat)

  /** A reading that contributes to the aggregate: it has a date and a numeric value. */
  predicate Accepted(r: Reading) {
    r.datetime.At? && r.power.Numeric?
  }

  /** The hour bucket of a dated reading. */
  function HourOf(r: Reading): Timestamp
    requires r.datetime.At?
  {
    StartOfHour(r.datetime.t)
  }

  predicate InHour(r: Reading, hour: Timestamp) {
    Accepted(r) && HourOf(r) == hour
  }

  // Specification of the aggregate. Each is defined on the last reading, in
  // the order the readings are visited.

  /** The hours that have at least one accepted reading. */
  function Hours(rs: seq<Reading>): set<Timestamp> {
    if rs == [] then {}
    else
      var last := rs[|rs| - 1];
      Hours(rs[..|rs| - 1]) + (if Accepted(last) then {HourOf(last)} else {})
  }

  /** Sum of the accepted readings' MW in `hour`. */
  function HourTotal(rs: seq<Reading>, hour: Timestamp): real {
    if rs == [] then 0.0
    else
      var last := rs[|rs| - 1];
      HourTotal(rs[..|rs| - 1], hour) + (if InHour(last, hour) then last.power.mw else 0.0)
  }

  /** Number of accepted readings in `hour`. */
  function HourCount(rs: seq<Reading>, hour: Timestamp): nat {
    if rs == [] then 0
    else
      var last := rs[|rs| - 1];
      HourCount(rs[..|rs| - 1], hour) + (if InHour(last, hour) then 1 else 0)
  }

  /** An hour has a bucket exactly when some accepted reading falls in it. */
  lemma {:induction false} HoursExactly(rs: seq<Reading>, hour: Timestamp)
    ensures hour in Hours(rs) <==> exists i :: 0 <= i < |rs| && InHour(rs[i], hour)
  {
    if rs != [] {
      var init := rs[..|rs| - 1];
      HoursExactly(init, hour);
      if exists i :: 0 <= i < |init| && InHour(init[i], hour) {
        var i :| 0 <= i < |init| && InHour(init[i], hour);
        assert rs[i] == init[i];
      }
      if exists i :: 0 <= i < |rs| && InHour(rs[i], hour) {
        var i :| 0 <= i < |rs| && InHour(rs[i], hour);
        if i < |rs| - 1 {
          assert init[i] == rs[i];
        }
      }
    }
  }

  /** An hour has a bucket exactly when its count is at least one; an hour without one has a zero sum. */
  lemma {:induction false} HourCountPositive(rs: seq<Reading>, hour: Timestamp)
    ensures hour in Hours(rs) <==> HourCount(rs, hour) >= 1
    ensures hour !in Hours(rs) ==> HourTotal(rs, hour) == 0.0
  {
    if rs != [] {
      HourCountPositive(rs[..|rs| - 1], hour);
    }
  }

  /** A rejected reading, wherever it stands, changes no bucket: it is skipped, not fatal. */
  lemma {:induction false} RejectedReadingSkipped(before: seq<Reading>, r: Reading, after: seq<Reading>, hour: Timestamp)
    requires !Accepted(r)
    ensures Hours(before + [r] + after) == Hours(before + after)
    ensures HourTotal(before + [r] + after, hour) == HourTotal(before + after, hour)
    ensures HourCount(before + [r] + after, hour) == HourCount(before + after, hour)
  {
    var s, t := before + [r] + after, before + after;
    if after == [] {
      assert s[..|s| - 1] == t;
    } else {
      var init := after[..|after| - 1];
      RejectedReadingSkipped(before, r, init, hour);
      assert s[..|s| - 1] == before + [r] + init;
      assert t[..|t| - 1] == before + init;
      assert s[|s| - 1] == t[|t| - 1];
    }
  }

  /** With no accepted reading there is no bucket. */
  lemma {:induction false} NoAcceptedNoHours(rs: seq<Reading>)
    requires forall i :: 0 <= i < |rs| ==> !Accepted(rs[i])
    ensures Hours(rs) == {}
  {
    if rs != [] {
      NoAcceptedNoHours(rs[..|rs| - 1]);
    }
  }

  /** The mean of a bucket, with the fallback to 0 for an empty one. */
  function Mean(b: Bucket): (m: real)
    ensures b.count >= 1 ==> m * (b.count as real) == b.total
  {
    if b.count != 0 then b.total / (b.count as real) else 0.0
  }

  predicate DatesIncreasing(points: seq<Point>) {
    forall i, j :: 0 <= i < j < |points| ==> Before(points[i].date, points[j].date)
  }

  /**
    `points` is the hourly series of `readings` under `key`: one point per
    hour that has an accepted reading, in ascending hour order, holding the
    mean of that hour's readings.
   */
  predicate IsHourlySeries(points: seq<Point>, readings: seq<Reading>, key: string) {
    && DatesIncreasing(points)
    && (forall i :: 0 <= i < |points| ==> points[i].date in Hours(readings))
    && (forall hour :: hour in Hours(readings) ==> exists i :: 0 <= i < |points| && points[i].date == hour)
    && (forall i :: 0 <= i < |points| ==>
          && points[i].key == key
          && HourCount(readings, points[i].date) >= 1
          && points[i].value == HourTotal(readings, points[i].date) / (HourCount(readings, points[i].date) as real))
  }

  /** One more reading adds at most its own hour. */
  lemma PrefixStep(rs: seq<Reading>, i: int)
    requires 0 <= i < |rs|
    ensures Hours(rs[..i + 1]) == Hours(rs[..i]) + (if Accepted(rs[i]) then {HourOf(rs[i])} else {})
  {
    assert rs[..i + 1][..i] == rs[..i];
  }

  /** One more reading extends each per-hour sum and count by that reading alone. */
  lemma PrefixStepHour(rs: seq<Reading>, i: int, hour: Timestamp)
    requires 0 <= i < |rs|
    ensures HourTotal(rs[..i + 1], hour) == HourTotal(rs[..i], hour) + (if InHour(rs[i], hour) then rs[i].power.mw else 0.0)
    ensures HourCount(rs[..i + 1], hour) == HourCount(rs[..i], hour) + (if InHour(rs[i], hour) then 1 else 0)
  {
    assert rs[..i + 1][..i] == rs[..i];
  }

  /** The buckets after the loop, as points sorted by hour (the final map and sort). */
  function EmitSorted(hourly: map<Timestamp, Bucket>, key: string): (points: seq<Point>)
    ensures |points| == |hourly|
    ensures DatesIncreasing(points)
    ensures forall i :: 0 <= i < |points| ==>
              points[i].date in hourly && points[i] == Point(points[i].date, key, Mean(hourly[points[i].date]))
    ensures forall hour :: hour in hourly ==> exists i :: 0 <= i < |points| && points[i].date == hour
  {
    var dates := SortedTimestamps(hourly.Keys);
    PointsOf(hourly, dates, key)
  }

  /** One point per date, holding the mean of that date's bucket. */
  function PointsOf(hourly: map<Timestamp, Bucket>, dates: seq<Timestamp>, key: string): (points: seq<Point>)
    requires forall j :: 0 <= j < |dates| ==> dates[j] in hourly
    ensures |points| == |dates|
    ensures forall j :: 0 <= j < |dates| ==> points[j] == Point(dates[j], key, Mean(hourly[dates[j]]))
  {
    seq(|dates|, j requires 0 <= j < |dates| => Point(dates[j], key, Mean(hourly[dates[j]])))
  }

  /** The buckets agree with the specification on the readings visited so far. */
  predicate TalliesPrefix(hourly: map<Timestamp, Bucket>, rs: seq<Reading>) {
    && hourly.Keys == Hours(rs)
    && forall hour :: hour in hourly ==> hourly[hour] == Bucket(HourTotal(rs, hour), HourCount(rs, hour))
  }

  /** Sorting the final buckets yields the hourly series. */
  lemma EmitIsHourlySeries(hourly: map<Timestamp, Bucket>, readings: seq<Reading>, key: string)
    requires TalliesPrefix(hourly, readings)
    ensures IsHourlySeries(EmitSorted(hourly, key), readings, key)
  {
    var points := EmitSorted(hourly, key);
    forall i | 0 <= i < |points|
      ensures HourCount(readings, points[i].date) >= 1
      ensures points[i].value == HourTotal(readings, points[i].date) / (HourCount(readings, points[i].date) as real)
    {
      HourCountPositive(readings, points[i].date);
    }
  }

  /** `aggregateHourly(readings, key)`. */
  method AggregateHourly(readings: seq<Reading>, key: string) returns (points: seq<Point>)
    ensures IsHourlySeries(points, readings, key)
  {
    var hourly: map<Timestamp, Bucket> := map[];
    for i := 0 to |readings|
      invariant TalliesPrefix(hourly, readings[..i])
    {
      var reading := readings[i];
      PrefixStep(readings, i);
      forall hour { PrefixStepHour(readings, i, hour); }
      if reading.datetime.Blank? || reading.power.NonNumeric? {
        continue;
      }
      match reading.datetime {
        case Unparseable =>
          // the date cannot be formatted: the error is caught and the reading skipped
        case At(t) =>
          var hourKey := StartOfHour(t);
          HourCountPositive(readings[..i], hourKey);
          var current := if hourKey in hourly then hourly[hourKey] else Bucket(0.0, 0);
          current := Bucket(current.total + reading.power.mw, current.count + 1);
          hourly := hourly[hourKey := current];
      }
    }
    assert readings[..|readings|] == readings;
    points := EmitSorted(hourly, key);
    EmitIsHourlySeries(hourly, readings, key);
  }

  /** The dates of the points, in order. */
  function Dates(points: seq<Point>): (d: seq<Timestamp>)
    ensures |d| == |points| && forall i :: 0 <= i < |points| ==> d[i] == points[i].date
  {
    seq(|points|, i requires 0 <= i < |points| => points[i].date)
  }

  /** The dates of an hourly series ascend strictly and are exactly the hours with data. */
  lemma SeriesDates(points: seq<Point>, readings: seq<Reading>, key: string)
    requires IsHourlySeries(points, readings, key)
    ensures StrictlyIncreasing(Dates(points))
    ensures forall t :: t in Dates(points) <==> t in Hours(readings)
  {
    var d := Dates(points);
    forall t ensures t in d <==> t in Hours(readings) {
      if t in d {
        var i :| 0 <= i < |d| && d[i] == t;
      }
      if t in Hours(readings) {
        var i :| 0 <= i < |points| && points[i].date == t;
        assert d[i] == t;
      }
    }
  }

  /** The hourly series of a batch is unique: the contract above fixes the output completely. */
  lemma HourlySeriesUnique(p: seq<Point>, q: seq<Point>, readings: seq<Reading>, key: string)
    requires IsHourlySeries(p, readings, key) && IsHourlySeries(q, readings, key)
    ensures p == q
  {
    SeriesDates(p, readings, key);
    SeriesDates(q, readings, key);
    StrictlyIncreasingUnique(Dates(p), Dates(q));
    forall i | 0 <= i < |p| ensures p[i] == q[i] {
      assert Dates(p)[i] == Dates(q)[i];
    }
  }

  /** The series has one point per hour with data, and none at all when nothing is accepted. */
  lemma HourlySeriesSize(points: seq<Point>, readings: seq<Reading>, key: string)
    requires IsHourlySeries(points, readings, key)
    ensures |points| == |Hours(readings)|
    ensures (forall i :: 0 <= i < |readings| ==> !Accepted(readings[i])) ==> points == []
  {
    var sorted := SortedTimestamps(Hours(readings));
    SeriesDates(points, readings, key);
    forall t ensures t in sorted <==> t in Hours(readings) {
      if t in sorted {
        var i :| 0 <= i < |sorted| && sorted[i] == t;
      }
    }
    StrictlyIncreasingUnique(Dates(points), sorted);
    if forall i :: 0 <= i < |readings| ==> !Accepted(readings[i]) {
      NoAcceptedNoHours(readings);
    }
  }

  /** Readings at 01:10 (10 MW), 01:50 (20 MW) and 02:00 (8 MW) on 2020-01-01. */
  const SampleReadings: seq<Reading> := [
    Reading(At(Timestamp(2020, 1, 1, 1, 10, 0)), Numeric(10.0)),
    Reading(At(Timestamp(2020, 1, 1, 1, 50, 0)), Numeric(20.0)),
    Reading(At(Timestamp(2020, 1, 1, 2, 0, 0)), Numeric(8.0))
  ]

  /** The sample's buckets: 10 + 20 over two readings at 01:00, 8 over one at 02:00. */
  lemma SampleBuckets()
    ensures Hours(SampleReadings) == {Timestamp(2020, 1, 1, 1, 0, 0), Timestamp(2020, 1, 1, 2, 0, 0)}
    ensures HourTotal(SampleReadings, Timestamp(2020, 1, 1, 1, 0, 0)) == 30.0
    ensures HourCount(SampleReadings, Timestamp(2020, 1, 1, 1, 0, 0)) == 2
    ensures HourTotal(SampleReadings, Timestamp(2020, 1, 1, 2, 0, 0)) == 8.0
    ensures HourCount(SampleReadings, Timestamp(2020, 1, 1, 2, 0, 0)) == 1
  {
    var rs := SampleReadings;
    var h1, h2 := Timestamp(2020, 1, 1, 1, 0, 0), Timestamp(2020, 1, 1, 2, 0, 0);
    var rs1, rs2 := [rs[0]], [rs[0], rs[1]];
    assert rs[..2] == rs2 && rs2[..1] == rs1 && rs1[..0] == [];
    assert HourOf(rs[0]) == h1 && HourOf(rs[1]) == h1 && HourOf(rs[2]) == h2;
    assert Hours(rs1) == {h1};
    assert Hours(rs2) == {h1};
    assert HourTotal(rs1, h1) == 10.0 && HourCount(rs1, h1) == 1;
    assert HourTotal(rs2, h1) == 30.0 && HourCount(rs2, h1) == 2;
    assert HourTotal(rs1, h2) == 0.0 && HourCount(rs1, h2) == 0;
    assert HourTotal(rs2, h2) == 0.0 && HourCount(rs2, h2) == 0;
  }

  /** The only hourly series of the sample is 15 MW at 01:00 and 8 MW at 02:00. */
  lemma SampleAveragesPerHour(points: seq<Point>)
    requires IsHourlySeries(points, SampleReadings, "solar")
    ensures points == [Point(Timestamp(2020, 1, 1, 1, 0, 0), "solar", 15.0),
                       Point(Timestamp(2020, 1, 1, 2, 0, 0), "solar", 8.0)]
  {
    var h1, h2 := Timestamp(2020, 1, 1, 1, 0, 0), Timestamp(2020, 1, 1, 2, 0, 0);
    SampleBuckets();
    var expected := [Point(h1, "solar", 15.0), Point(h2, "solar", 8.0)];
    assert expected[0].date == h1 && expected[1].date == h2;
    assert IsHourlySeries(expected, SampleReadings, "solar");
    HourlySeriesUnique(points, expected, SampleReadings, "solar");
  }

  // ---------------------------------------------------------------------------
  // Preset time ranges
  // ---------------------------------------------------------------------------

  /** A selectable preset; the "all" sentinel has neither bound. */
  datatype TimeRangeOption = TimeRangeOption(value: string, title: string, start: Option<CalendarDate>, end: Option<CalendarDate>)

  /** One entry of the quarter table: key suffix, title and 0-based first month. */
  datatype Quarter = Quarter(value: string, title: string, startMonth: int)

  const Quarters: seq<Quarter> := [
    Quarter("q1", "Q1", 0), Quarter("q2", "Q2", 3), Quarter("q3", "Q3", 6), Quarter("q4", "Q4", 9)
  ]

  const AllTime: TimeRangeOption := TimeRangeOption("all", "All time", None, None)

  /** The option for a whole year. */
  function YearOption(year: int): TimeRangeOption {
    TimeRangeOption(IntToString(year), IntToString(year), Some(NewLocalDate(year, 0, 1)), Some(NewLocalDate(year, 11, 31)))
  }

  /** The option for one quarter of a year: from day 1 of its first month to day 0 of the month after its last. */
  function QuarterOption(year: int, q: Quarter): TimeRangeOption {
    TimeRangeOption(IntToString(year) + "-" + q.value, q.title + " " + IntToString(year),
                    Some(NewLocalDate(year, q.startMonth, 1)), Some(NewLocalDate(year, q.startMonth + 3, 0)))
  }

  /** A year option spans January 1 to December 31 of the year the `Date` constructor uses. */
  lemma YearOptionSpan(year: int)
    ensures YearOption(year).value == IntToString(year) && YearOption(year).title == IntToString(year)
    ensures YearOption(year).start == Some(CalendarDate(DateConstructorYear(year), 1, 1))
    ensures YearOption(year).end == Some(CalendarDate(DateConstructorYear(year), 12, 31))
  {
  }

  /**
   * Quarter `n` spans day 1 of month 3n-2 to the last day of month 3n: day 0 of the
   * following month rolls back, and for Q4 month index 12 rolls back into December.
   */
  lemma QuarterOptionSpan(year: int, n: nat)
    requires 1 <= n <= 4
    ensures QuarterOption(year, Quarters[n - 1]).value == IntToString(year) + "-q" + [DigitChar(n)]
    ensures QuarterOption(year, Quarters[n - 1]).title == "Q" + [DigitChar(n)] + " " + IntToString(year)
    ensures QuarterOption(year, Quarters[n - 1]).start == Some(CalendarDate(DateConstructorYear(year), 3 * n - 2, 1))
    ensures QuarterOption(year, Quarters[n - 1]).end == Some(CalendarDate(DateConstructorYear(year), 3 * n, [31, 30, 30, 31][n - 1]))
  {
    if n == 1 {
    } else if n == 2 {
    } else if n == 3 {
    } else {
    }
  }

  /** The first `n` quarter options of a year, in order. */
  function QuarterEntries(year: int, n: nat): seq<TimeRangeOption>
    requires n <= 4
  {
    if n == 0 then [] else QuarterEntries(year, n - 1) + [QuarterOption(year, Quarters[n - 1])]
  }

  /** The five options of one year: the year, then its quarters in order. */
  function YearEntries(year: int): seq<TimeRangeOption> {
    [YearOption(year)] + QuarterEntries(year, 4)
  }

  function EntryValue(year: int, j: int): string
    requires 0 <= j < 5
  {
    if j == 0 then IntToString(year) else IntToString(year) + "-q" + [DigitChar(j)]
  }

  /** The key of quarter `n` is the year's numeral, a dash, `q` and the quarter's digit. */
  lemma QuarterValue(year: int, n: nat)
    requires 1 <= n <= 4
    ensures QuarterOption(year, Quarters[n - 1]).value == EntryValue(year, n)
  {
    assert Quarters[n - 1].value == "q" + [DigitChar(n)];
  }

  lemma YearEntriesLength(year: int)
    ensures |YearEntries(year)| == 5
  {
    assert |QuarterEntries(year, 1)| == 1;
    assert |QuarterEntries(year, 2)| == 2;
    assert |QuarterEntries(year, 3)| == 3;
  }

  /** A year contributes five options, in the order year, Q1, Q2, Q3, Q4. */
  lemma YearEntriesOrder(year: int)
    ensures |YearEntries(year)| == 5
    ensures YearEntries(year)[0] == YearOption(year)
    ensures forall n :: 1 <= n <= 4 ==> YearEntries(year)[n] == QuarterOption(year, Quarters[n - 1])
  {
    assert QuarterEntries(year, 1) == [QuarterOption(year, Quarters[0])];
    assert QuarterEntries(year, 2) == [QuarterOption(year, Quarters[0]), QuarterOption(year, Quarters[1])];
    assert QuarterEntries(year, 3) == [QuarterOption(year, Quarters[0]), QuarterOption(year, Quarters[1]), QuarterOption(year, Quarters[2])];
    assert QuarterEntries(year, 4) == [QuarterOption(year, Quarters[0]), QuarterOption(year, Quarters[1]), QuarterOption(year, Quarters[2]), QuarterOption(year, Quarters[3])];
  }

  /** Entry `j` of a year carries the year's key (`j == 0`) or the key of quarter `j`. */
  lemma YearEntriesValues(year: int)
    ensures |YearEntries(year)| == 5
    ensures forall j :: 0 <= j < 5 ==> YearEntries(year)[j].value == EntryValue(year, j)
  {
    YearEntriesOrder(year);
    forall n | 1 <= n <= 4 ensures YearEntries(year)[n].value == EntryValue(year, n) {
      QuarterValue(year, n);
    }
  }

  /** The presets for `years`, in the order given: "all", then five options per year. */
  function Catalogue(years: seq<int>): seq<TimeRangeOption> {
    if years == [] then [AllTime] else Catalogue(years[..|years| - 1]) + YearEntries(years[|years| - 1])
  }

  /** The distinct years of the dates. */
  function YearsOf(dates: seq<DateField>): set<int>
    requires forall i :: 0 <= i < |dates| ==> dates[i].At?
  {
    set i | 0 <= i < |dates| :: dates[i].t.year
  }

  /** The catalogue opens with "all" and holds five options per year. */
  lemma {:induction false} CatalogueShape(years: seq<int>)
    ensures |Catalogue(years)| == 1 + 5 * |years| && Catalogue(years)[0] == AllTime
  {
    if years != [] {
      CatalogueShape(years[..|years| - 1]);
      YearEntriesLength(years[|years| - 1]);
    }
  }

  /** Option `1 + 5k + j` is entry `j` of the `k`-th year. */
  lemma {:induction false} CatalogueAt(years: seq<int>, k: int, j: int)
    requires 0 <= k < |years| && 0 <= j < 5
    ensures |Catalogue(years)| == 1 + 5 * |years| && |YearEntries(years[k])| == 5
    ensures Catalogue(years)[1 + 5 * k + j] == YearEntries(years[k])[j]
  {
    var init := years[..|years| - 1];
    CatalogueShape(years);
    CatalogueShape(init);
    YearEntriesLength(years[k]);
    if k < |years| - 1 {
      CatalogueAt(init, k, j);
    }
  }

  /** A quarter key has a 'q' after the year's numeral, which no year numeral has. */
  lemma QuarterKeyIsNotYearKey(y1: int, y2: int, d: char)
    ensures IntToString(y1) != IntToString(y2) + "-q" + [d]
  {
    var t := IntToString(y2) + "-q" + [d];
    var i := |IntToString(y2)| + 1;
    assert 1 <= i < |t| && t[i] == 'q';
    assert !IsDigit('q');
  }

  /** Year and quarter keys never collide, and each names one year and one slot. */
  lemma EntryValueInjective(y1: int, j1: int, y2: int, j2: int)
    requires 0 <= j1 < 5 && 0 <= j2 < 5
    requires EntryValue(y1, j1) == EntryValue(y2, j2)
    ensures y1 == y2 && j1 == j2
  {
    var s1, s2 := IntToString(y1), IntToString(y2);
    var v := EntryValue(y1, j1);
    QuarterKeyIsNotYearKey(y1, y2, DigitChar(j2));
    QuarterKeyIsNotYearKey(y2, y1, DigitChar(j1));
    if j1 == 0 && j2 == 0 {
      IntToStringInjective(y1, y2);
    } else if j1 != 0 && j2 != 0 {
      assert |s1| == |s2|;
      assert v[..|s1|] == s1 && v[..|s2|] == s2;
      IntToStringInjective(y1, y2);
      assert v[|v| - 1] == DigitChar(j1) == DigitChar(j2);
    }
  }

  /** The option value at position `p` of the catalogue. */
  lemma CatalogueValue(years: seq<int>, p: int)
    requires 1 <= p < 1 + 5 * |years|
    ensures |Catalogue(years)| == 1 + 5 * |years|
    ensures Catalogue(years)[p].value == EntryValue(years[(p - 1) / 5], (p - 1) % 5)
  {
    var k, j := (p - 1) / 5, (p - 1) % 5;
    CatalogueAt(years, k, j);
    YearEntriesValues(years[k]);
    assert 1 + 5 * k + j == p;
  }

  /** With strictly ascending years, every option value in the catalogue is unique. */
  lemma CatalogueValuesDistinct(years: seq<int>)
    requires Ascending(years)
    ensures |Catalogue(years)| == 1 + 5 * |years|
    ensures forall p, q :: 0 <= p < q < |Catalogue(years)| ==> Catalogue(years)[p].value != Catalogue(years)[q].value
  {
    var r := Catalogue(years);
    CatalogueShape(years);
    forall p, q | 0 <= p < q < |r| ensures r[p].value != r[q].value {
      CatalogueValue(years, q);
      var k2, j2 := (q - 1) / 5, (q - 1) % 5;
      var s2 := IntToString(years[k2]);
      if p == 0 {
        assert r[q].value[0] == s2[0];
        assert r[p].value[0] == 'a';
      } else {
        CatalogueValue(years, p);
        var k1, j1 := (p - 1) / 5, (p - 1) % 5;
        if k1 < k2 {
          AscendingPairwise(years, k1, k2);
        }
        if r[p].value == r[q].value {
          EntryValueInjective(years[k1], j1, years[k2], j2);
        }
      }
    }
  }

  /** Every year of the data gets its year option and its four quarter options. */
  lemma CatalogueCoversYears(years: seq<int>, y: int)
    requires y in years
    ensures YearOption(y) in Catalogue(years)
    ensures forall n :: 0 <= n < |Quarters| ==> QuarterOption(y, Quarters[n]) in Catalogue(years)
  {
    var k :| 0 <= k < |years| && years[k] == y;
    CatalogueAt(years, k, 0);
    YearEntriesOrder(y);
    forall n | 0 <= n < |Quarters| ensures QuarterOption(y, Quarters[n]) in Catalogue(years) {
      CatalogueAt(years, k, n + 1);
    }
  }

  /** Appending one more year's entries to the catalogue. */
  lemma CatalogueSnoc(years: seq<int>, k: int)
    requires 0 <= k < |years|
    ensures Catalogue(years[..k + 1]) == Catalogue(years[..k]) + YearEntries(years[k])
  {
    assert years[..k + 1][..k] == years[..k];
  }

  /**
    `buildTimeRangesFromDates(dates)`. A date that does not parse yields the
    year NaN, and formatting a `Date` built from it throws, so the call then
    returns no list at all (`None`).
   */
  method BuildTimeRangesFromDates(dates: seq<DateField>) returns (result: Option<seq<TimeRangeOption>>)
    ensures result.None? <==> exists i :: 0 <= i < |dates| && !dates[i].At?
    ensures result.Some? ==> result.value == Catalogue(SortedInts(YearsOf(dates)))
  {
    if exists i :: 0 <= i < |dates| && !dates[i].At? {
      return None;
    }
    var years := SortedInts(YearsOf(dates));
    var ranges := [AllTime];
    for k := 0 to |years|
      invariant ranges == Catalogue(years[..k])
    {
      var year := years[k];
      ghost var before := ranges;
      ranges := ranges + [YearOption(year)];
      for n := 0 to |Quarters|
        invariant ranges == before + [YearOption(year)] + QuarterEntries(year, n)
      {
        var quarter := Quarters[n];
        AppendAssoc(before + [YearOption(year)], QuarterEntries(year, n), [QuarterOption(year, quarter)]);
        ranges := ranges + [QuarterOption(year, quarter)];
      }
      assert ranges == before + YearEntries(year) by {
        AppendAssoc(before, [YearOption(year)], QuarterEntries(year, 4));
      }
      CatalogueSnoc(years, k);
    }
    assert years[..|years|] == years;
    return Some(ranges);
  }

  /**
    What the dashboard gets for parseable dates: "all" first, then for each
    distinct year in ascending order the year and its four quarters, every
    option key distinct.
   */
  lemma TimeRangesOfDates(dates: seq<DateField>)
    requires forall i :: 0 <= i < |dates| ==> dates[i].At?
    ensures var ranges := Catalogue(SortedInts(YearsOf(dates)));
            && |ranges| == 1 + 5 * |YearsOf(dates)|
            && ranges[0] == AllTime
            && (forall p, q :: 0 <= p < q < |ranges| ==> ranges[p].value != ranges[q].value)
            && (forall i :: 0 <= i < |dates| ==> YearOption(dates[i].t.year) in ranges)
  {
    var years := SortedInts(YearsOf(dates));
    CatalogueShape(years);
    CatalogueValuesDistinct(years);
    forall i | 0 <= i < |dates| ensures YearOption(dates[i].t.year) in Catalogue(years) {
      CatalogueCoversYears(years, dates[i].t.year);
    }
  }
}
