/**
  Wall-clock timestamps and calendar dates as integer records, their order,
  and the two sorts the dashboard performs on distinct keys.
 */
module Clock {

  /** A local date-time as parsed from a CSV `datetime` cell. */
  datatype Timestamp = Timestamp(year: int, month: int, day: int, hour: int, minute: int, second: int)

  /** A calendar day, month counted from 1, as rendered by `yyyy-MM-dd`. */
  datatype CalendarDate = CalendarDate(year: int, month: int, day: int)

  /**
    Strict lexicographic order on the fields. For the fixed-width, zero-padded
    `yyyy-MM-ddTHH:mm:ss` text this is the order `localeCompare` gives.
   */
  predicate Before(a: Timestamp, b: Timestamp) {
    || a.year < b.year
    || (a.year == b.year && a.month < b.month)
    || (a.year == b.year && a.month == b.month && a.day < b.day)
    || (a.year == b.year && a.month == b.month && a.day == b.day && a.hour < b.hour)
    || (a.year == b.year && a.month == b.month && a.day == b.day && a.hour == b.hour
        && a.minute < b.minute)
    || (a.year == b.year && a.month == b.month && a.day == b.day && a.hour == b.hour
        && a.minute == b.minute && a.second < b.second)
  }

  /** `startOfHour`: the same timestamp with minutes and seconds zeroed. */
  function StartOfHour(t: Timestamp): (h: Timestamp)
    ensures h.minute == 0 && h.second == 0
    ensures h.year == t.year && h.month == t.month && h.day == t.day && h.hour == t.hour
  {
    t.(minute := 0, second := 0)
  }

  predicate StrictlyIncreasing(s: seq<Timestamp>) {
    forall i, j :: 0 <= i < j < |s| ==> Before(s[i], s[j])
  }

  lemma BeforeTrichotomy(a: Timestamp, b: Timestamp)
    ensures a == b || Before(a, b) || Before(b, a)
    ensures !(Before(a, b) && Before(b, a))
  {
  }

  lemma BeforeTransitive(a: Timestamp, b: Timestamp, c: Timestamp)
    requires Before(a, b) && Before(b, c)
    ensures Before(a, c)
  {
  }

  /** `m` is the least element of `keys`. */
  predicate IsLeast(m: Timestamp, keys: set<Timestamp>) {
    m in keys && forall t :: t in keys && t != m ==> Before(m, t)
  }

  /** Every non-empty finite set of timestamps has exactly one least element. */
  lemma {:induction false} LeastTimestampExists(keys: set<Timestamp>)
    requires keys != {}
    ensures exists m :: IsLeast(m, keys)
    ensures forall m, n :: IsLeast(m, keys) && IsLeast(n, keys) ==> m == n
    decreases |keys|
  {
    forall m, n | IsLeast(m, keys) && IsLeast(n, keys) ensures m == n {
      if m != n {
        assert Before(m, n) && Before(n, m);
        BeforeTrichotomy(m, n);
      }
    }
    var x := ElementOf(keys);
    if keys == {x} {
      assert IsLeast(x, keys);
    } else {
      var rest := keys - {x};
      LeastTimestampExists(rest);
      var m :| IsLeast(m, rest);
      BeforeTrichotomy(m, x);
      if Before(m, x) {
        assert IsLeast(m, keys);
      } else {
        forall t | t in keys && t != x ensures Before(x, t) {
          if t != m {
            assert t in rest;
            BeforeTransitive(x, m, t);
          }
        }
        assert IsLeast(x, keys);
      }
    }
  }

  /** The elements of `keys` in ascending order, each once (`Array.from(...).sort` on distinct keys). */
  function SortedTimestamps(keys: set<Timestamp>): (r: seq<Timestamp>)
    ensures |r| == |keys|
    ensures forall i :: 0 <= i < |r| ==> r[i] in keys
    ensures forall t :: t in keys ==> t in r
    ensures StrictlyIncreasing(r)
    decreases |keys|
  {
    if keys == {} then []
    else
      LeastTimestampExists(keys);
      var m :| IsLeast(m, keys);
      var rest := SortedTimestamps(keys - {m});
      assert forall t :: t in keys && t != m ==> t in keys - {m};
      [m] + rest
  }

  /** Some element of a non-empty set. */
  ghost function ElementOf<T>(s: set<T>): (x: T)
    requires s != {}
    ensures x in s
  {
    var x :| x in s; x
  }

  /** `m` is the least element of `s`. */
  predicate IsLeastInt(m: int, s: set<int>) {
    m in s && forall x :: x in s ==> m <= x
  }

  /** Every non-empty finite set of integers has a least element. */
  lemma {:induction false} LeastIntExists(s: set<int>)
    requires s != {}
    ensures exists m :: IsLeastInt(m, s)
    decreases |s|
  {
    var x := ElementOf(s);
    if s == {x} {
      assert IsLeastInt(x, s);
    } else {
      var rest := s - {x};
      LeastIntExists(rest);
      var m :| IsLeastInt(m, rest);
      var least := if x < m then x else m;
      forall y | y in s ensures least <= y {
        if y != x { assert y in rest; }
      }
      assert IsLeastInt(least, s);
    }
  }

  /** Each element is smaller than the next. */
  predicate Ascending(r: seq<int>) {
    |r| <= 1 || (r[0] < r[1] && Ascending(r[1..]))
  }

  lemma {:induction false} AscendingPairwise(r: seq<int>, i: int, j: int)
    requires Ascending(r) && 0 <= i < j < |r|
    ensures r[i] < r[j]
  {
    if i == 0 {
      if j > 1 {
        AscendingPairwise(r[1..], 0, j - 1);
      }
    } else {
      AscendingPairwise(r[1..], i - 1, j - 1);
    }
  }

  /** The elements of `s` in ascending numeric order, each once. */
  function SortedInts(s: set<int>): (r: seq<int>)
    ensures |r| == |s|
    ensures forall x :: x in r <==> x in s
    ensures Ascending(r)
    decreases |s|
  {
    if s == {} then []
    else
      LeastIntExists(s);
      var m :| IsLeastInt(m, s);
      var rest := SortedInts(s - {m});
      assert rest != [] ==> rest[0] in s - {m};
      [m] + rest
  }

  /** Two strictly increasing sequences with the same elements are equal. */
  lemma {:induction false} StrictlyIncreasingUnique(a: seq<Timestamp>, b: seq<Timestamp>)
    requires StrictlyIncreasing(a) && StrictlyIncreasing(b)
    requires forall t :: t in a <==> t in b
    ensures a == b
    decreases |a|
  {
    if a != [] { assert a[0] in a; }
    if b != [] { assert b[0] in b; }
    if a != [] && b != [] {
      assert a[0] == b[0] by {
        var i :| 0 <= i < |a| && a[i] == b[0];
        var j :| 0 <= j < |b| && b[j] == a[0];
        if i != 0 && j != 0 {
          BeforeTrichotomy(a[0], b[0]);
        }
      }
      forall t ensures t in a[1..] <==> t in b[1..] {
        if t in a[1..] || t in b[1..] {
          assert t in a && t in b;
          var i :| 0 <= i < |a| && a[i] == t;
          var j :| 0 <= j < |b| && b[j] == t;
          assert i == 0 <==> j == 0;
        }
      }
      StrictlyIncreasingUnique(a[1..], b[1..]);
      assert a == [a[0]] + a[1..];
      assert b == [b[0]] + b[1..];
    }
  }

  predicate IsLeapYear(year: int) {
    (year % 4 == 0 && year % 100 != 0) || year % 400 == 0
  }

  /** Number of days in `month` (1..12) of `year`, proleptic Gregorian. */
  function DaysInMonth(year: int, month: int): (n: int)
    requires 1 <= month <= 12
    ensures 28 <= n <= 31
    ensures month == 2 ==> (n == 29 <==> IsLeapYear(year))
  {
    if month == 2 then (if IsLeapYear(year) then 29 else 28)
    else if month == 4 || month == 6 || month == 9 || month == 11 then 30
    else 31
  }

  /** The year the `Date` constructor actually uses: arguments 0..99 mean 1900..1999. */
  function DateConstructorYear(year: int): int {
    if 0 <= year <= 99 then 1900 + year else year
  }

  /**
    `new Date(year, monthIndex, day)`: the month index is 0-based and carries
    into the year when outside 0..11, and day 0 is the last day of the
    previous month.
   */
  function NewLocalDate(year: int, monthIndex: int, day: int): (r: CalendarDate)
    requires 0 <= day <= DaysInMonth(DateConstructorYear(year) + monthIndex / 12, monthIndex % 12 + 1)
    ensures 1 <= r.month <= 12 && 1 <= r.day <= DaysInMonth(r.year, r.month)
  {
    var y := DateConstructorYear(year) + monthIndex / 12;
    var m := monthIndex % 12 + 1;
    if day >= 1 then CalendarDate(y, m, day)
    else if m == 1 then CalendarDate(y - 1, 12, 31)
    else CalendarDate(y, m - 1, DaysInMonth(y, m - 1))
  }
}
