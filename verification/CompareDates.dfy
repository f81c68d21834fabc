/** `artik_time_compare_dates` (src/modules/base/time/artik_time.c), against the calendar. */
module CompareDates {
  import opened ArtikTypes

  /** `artik_time`. */
  datatype Date = Date(second: nat, minute: nat, hour: nat, day: nat, month: nat, year: nat,
                       dayOfWeek: nat, msecond: nat)

  /** The cascade of comparisons; -2 stands for a null argument. */
  function Compare(a: Option<Date>, b: Option<Date>): int {
    if a == None || b == None then -2
    else
      var d1, d2 := a.value, b.value;
      if d1.year > d2.year then 1
      else if d1.year < d2.year then -1
      else if d1.month > d2.month then 1
      else if d1.month < d2.month then -1
      else if d1.day > d2.day then 1
      else if d1.day < d2.day then -1
      else if d1.hour > d2.hour then 1
      else if d1.hour < d2.hour then -1
      else if d1.minute > d2.minute then 1
      else if d1.minute < d2.minute then -1
      else if d1.second > d2.second then 1
      else if d1.second < d2.second then -1
      else if d1.msecond > d2.msecond then 1
      else if d1.msecond < d2.msecond then -1
      else 0
  }

  function Sign(n: int): int {
    if n > 0 then 1 else if n < 0 then -1 else 0
  }

  /** The comparison is a total order on dates; the day of the week plays no part. */
  lemma CompareIsTotalOrder(a: Date, b: Date, c: Date)
    ensures Compare(Some(a), Some(b)) in {-1, 0, 1}
    ensures Compare(Some(a), Some(b)) == -Compare(Some(b), Some(a))
    ensures Compare(Some(a), Some(b)) == 0 <==> a.(dayOfWeek := 0) == b.(dayOfWeek := 0)
    ensures Compare(Some(a), Some(b)) <= 0 && Compare(Some(b), Some(c)) <= 0 ==> Compare(Some(a), Some(c)) <= 0
  {
  }

  /** The fields that are compared, the weightiest first. */
  function Fields(d: Date): (fs: seq<nat>)
    ensures |fs| == 7
  {
    [d.year, d.month, d.day, d.hour, d.minute, d.second, d.msecond]
  }

  /** The two agree before field `k` and the first is smaller there. */
  ghost predicate SmallerAt(x: seq<nat>, y: seq<nat>, k: nat) {
    k < |x| && k < |y| && x[..k] == y[..k] && x[k] < y[k]
  }

  /** For all dates, valid or not: -1 exactly if the first field that differs is smaller, 1 exactly if
      it is greater; -2 exactly if an argument is null. */
  lemma CompareIsLexicographic(a: Option<Date>, b: Option<Date>)
    ensures Compare(a, b) == -2 <==> a == None || b == None
    ensures a.Some? && b.Some? ==>
      && (Compare(a, b) == -1 <==> exists k: nat :: SmallerAt(Fields(a.value), Fields(b.value), k))
      && (Compare(a, b) == 1 <==> exists k: nat :: SmallerAt(Fields(b.value), Fields(a.value), k))
  {
    if a.Some? && b.Some? {
      var x, y := Fields(a.value), Fields(b.value);
      var k := FirstDifference(x, y);
      DecidedThere(a.value, b.value, k);
      NoneAfter(x, y, k);
      NoneAfter(y, x, k);
    }
  }

  lemma FirstDifference(x: seq<nat>, y: seq<nat>) returns (k: nat)
    requires |x| == |y|
    ensures k <= |x| && x[..k] == y[..k] && (k < |x| ==> x[k] != y[k])
  {
    k := 0;
    while k < |x| && x[k] == y[k]
      invariant k <= |x| && x[..k] == y[..k]
    {
      k := k + 1;
    }
  }

  lemma NoneAfter(x: seq<nat>, y: seq<nat>, k: nat)
    requires |x| == |y| && k <= |x| && x[..k] == y[..k] && (k < |x| ==> x[k] != y[k])
    ensures (exists j: nat :: SmallerAt(x, y, j)) <==> k < |x| && x[k] < y[k]
  {
    forall j: nat | SmallerAt(x, y, j)
      ensures j == k
    {
    }
    assert k < |x| && x[k] < y[k] ==> SmallerAt(x, y, k);
  }

  lemma DecidedThere(a: Date, b: Date, k: nat)
    requires k <= 7 && Fields(a)[..k] == Fields(b)[..k] && (k < 7 ==> Fields(a)[k] != Fields(b)[k])
    ensures Compare(Some(a), Some(b)) == if k == 7 then 0 else if Fields(a)[k] < Fields(b)[k] then -1 else 1
  {
    var x, y := Fields(a), Fields(b);
    assert forall i :: 0 <= i < k ==> x[i] == x[..k][i] == y[..k][i] == y[i];
    assert k > 0 ==> x[0] == y[0];
    assert k > 1 ==> x[1] == y[1];
    assert k > 2 ==> x[2] == y[2];
    assert k > 3 ==> x[3] == y[3];
    assert k > 4 ==> x[4] == y[4];
    assert k > 5 ==> x[5] == y[5];
    assert k > 6 ==> x[6] == y[6];
  }

  // ---------------------------------------------------------------- the calendar

  predicate Leap(year: nat) {
    year % 4 == 0 && (year % 100 != 0 || year % 400 == 0)
  }

  function YearLength(year: nat): nat {
    if Leap(year) then 366 else 365
  }

  function MonthLength(year: nat, month: nat): nat {
    if month == 2 then (if Leap(year) then 29 else 28)
    else if month in {4, 6, 9, 11} then 30
    else 31
  }

  /** Days of the year before the first of a month. */
  function DaysBefore(year: nat, month: nat): nat {
    if month <= 1 then 0 else DaysBefore(year, month - 1) + MonthLength(year, month - 1)
  }

  predicate Valid(d: Date) {
    && 1970 <= d.year
    && 1 <= d.month <= 12
    && 1 <= d.day <= MonthLength(d.year, d.month)
    && d.hour <= 23 && d.minute <= 59 && d.second <= 59 && d.msecond <= 999
  }

  /** Days since the Epoch at the start of a year: the year terms of the formula in
      section 4.16 of the POSIX.1-2017 Base Definitions, in days. */
  function YearStart(year: nat): int
    requires year >= 1970
  {
    var y := year - 1900;
    (y - 70) * 365 + (y - 69) / 4 - (y - 1) / 100 + (y + 299) / 400
  }

  function YearDay(d: Date): int {
    DaysBefore(d.year, d.month) + d.day - 1
  }

  /** Seconds since the Epoch by that formula, and milliseconds. */
  function Seconds(d: Date): int
    requires d.year >= 1970
  {
    d.second + d.minute * 60 + d.hour * 3600 + (YearDay(d) + YearStart(d.year)) * 86400
  }

  function Milliseconds(d: Date): int
    requires d.year >= 1970
  {
    Seconds(d) * 1000 + d.msecond
  }

  lemma Quarter(year: nat)
    requires year >= 1970
    ensures (year - 1968) / 4 == (year - 1969) / 4 + if year % 4 == 0 then 1 else 0
  {
  }

  lemma Century(year: nat)
    requires year >= 1970
    ensures (year - 1900) / 100 == (year - 1901) / 100 + if year % 100 == 0 then 1 else 0
  {
  }

  lemma FourCenturies(year: nat)
    requires year >= 1970
    ensures (year - 1600) / 400 == (year - 1601) / 400 + if year % 400 == 0 then 1 else 0
  {
  }

  /** The three corrections add a day exactly after a leap year. */
  lemma YearStep(year: nat)
    requires year >= 1970
    ensures YearStart(year + 1) == YearStart(year) + YearLength(year)
  {
    Quarter(year);
    Century(year);
    FourCenturies(year);
    CenturiesAreLeapDigits(year);
    assert YearStart(year) == (year - 1970) * 365 + (year - 1969) / 4 - (year - 1901) / 100 + (year - 1601) / 400;
    assert YearStart(year + 1) == (year - 1969) * 365 + (year - 1968) / 4 - (year - 1900) / 100 + (year - 1600) / 400;
  }

  lemma CenturiesAreLeapDigits(year: nat)
    ensures year % 400 == 0 ==> year % 100 == 0
    ensures year % 100 == 0 ==> year % 4 == 0
  {
    var centuries, fours := year / 100, year / 400;
    if year % 400 == 0 {
      assert year == 100 * (4 * fours);
    }
    if year % 100 == 0 {
      assert year == 4 * (25 * centuries);
    }
  }

  lemma {:induction false} YearsApart(y1: nat, y2: nat)
    requires 1970 <= y1 < y2
    ensures YearStart(y1) + YearLength(y1) <= YearStart(y2)
  {
    YearStep(y2 - 1);
    if y1 < y2 - 1 {
      YearsApart(y1, y2 - 1);
    } else {
      assert y2 - 1 == y1;
    }
  }

  lemma {:induction false} MonthsApart(year: nat, m1: nat, m2: nat)
    requires 1 <= m1 < m2
    ensures DaysBefore(year, m1) + MonthLength(year, m1) <= DaysBefore(year, m2)
  {
    if m1 < m2 - 1 {
      MonthsApart(year, m1, m2 - 1);
    }
  }

  lemma YearHasTwelveMonths(year: nat)
    ensures DaysBefore(year, 13) == YearLength(year)
  {
    assert DaysBefore(year, 1) == 0 && DaysBefore(year, 2) == 31;
    assert DaysBefore(year, 3) == 31 + MonthLength(year, 2);
    assert DaysBefore(year, 4) == DaysBefore(year, 3) + 31 && DaysBefore(year, 5) == DaysBefore(year, 4) + 30;
    assert DaysBefore(year, 6) == DaysBefore(year, 5) + 31 && DaysBefore(year, 7) == DaysBefore(year, 6) + 30;
    assert DaysBefore(year, 8) == DaysBefore(year, 7) + 31 && DaysBefore(year, 9) == DaysBefore(year, 8) + 31;
    assert DaysBefore(year, 10) == DaysBefore(year, 9) + 30 && DaysBefore(year, 11) == DaysBefore(year, 10) + 31;
    assert DaysBefore(year, 12) == DaysBefore(year, 11) + 30;
  }

  lemma YearDayBound(d: Date)
    requires Valid(d)
    ensures 0 <= YearDay(d) < YearLength(d.year)
  {
    YearHasTwelveMonths(d.year);
    MonthsApart(d.year, d.month, 13);
  }

  /** An earlier calendar day comes earlier in days since the Epoch. */
  lemma DaysApart(a: Date, b: Date)
    requires Valid(a) && Valid(b)
    requires a.year < b.year || (a.year == b.year && (a.month < b.month || (a.month == b.month && a.day < b.day)))
    ensures YearDay(a) + YearStart(a.year) < YearDay(b) + YearStart(b.year)
  {
    if a.year < b.year {
      YearDayBound(a);
      YearDayBound(b);
      YearsApart(a.year, b.year);
    } else if a.month < b.month {
      MonthsApart(a.year, a.month, b.month);
    }
  }

  lemma EarlierIsLess(a: Date, b: Date)
    requires Valid(a) && Valid(b) && Compare(Some(a), Some(b)) == -1
    ensures Milliseconds(a) < Milliseconds(b)
  {
    if a.year == b.year && a.month == b.month && a.day == b.day {
      assert YearDay(a) == YearDay(b);
    } else {
      DaysApart(a, b);
    }
  }

  /** For valid dates from 1970 on, leap years included: the comparison is the sign of the
      difference of the two time stamps. */
  lemma CompareIsTimestampOrder(a: Date, b: Date)
    requires Valid(a) && Valid(b)
    ensures Compare(Some(a), Some(b)) == Sign(Milliseconds(a) - Milliseconds(b))
  {
    CompareIsTotalOrder(a, b, a);
    if Compare(Some(a), Some(b)) == -1 {
      EarlierIsLess(a, b);
    } else if Compare(Some(a), Some(b)) == 1 {
      EarlierIsLess(b, a);
    }
  }
}
