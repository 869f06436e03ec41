/**
 * The proleptic Gregorian calendar as Python's `calendar` and `datetime`
 * modules compute it, reduced to what the schedule builder calls:
 * `calendar.isleap`, `calendar.monthrange`, `calendar.weekday` (Monday is 0,
 * Sunday is 6), and `Calendar().itermonthdays2` with its padding days.
 */
module Calendar {
  import opened Wrappers

  /** `calendar.Calendar()` starts its weeks on Monday. */
  const FirstWeekday: int := 0

  /** Python's `calendar.mdays`, indexed by month 1..12 (entry 0 unused). */
  const MonthDays: seq<int> := [0, 31, 28, 31, 30, 31, 30, 31, 31, 30, 31, 30, 31]

  /** `datetime`'s table of days before the first of each month in a common year. */
  const DaysBeforeMonthTable: seq<int> := [-1, 0, 31, 59, 90, 120, 151, 181, 212, 243, 273, 304, 334]

  /** The reason `monthrange` refuses a month. */
  datatype CalendarError = IllegalMonth(month: int)

  predicate ValidMonth(month: int) {
    1 <= month <= 12
  }

  /** `calendar.isleap`: every fourth year, except centuries not divisible by 400. */
  predicate IsLeapYear(year: int) {
    year % 4 == 0 && (year % 100 != 0 || year % 400 == 0)
  }

  function DaysInMonth(year: int, month: int): (n: int)
    requires ValidMonth(month)
    ensures 28 <= n <= 31
    ensures month == 2 ==> n == (if IsLeapYear(year) then 29 else 28)
    ensures month != 2 ==> n == MonthDays[month]
  {
    MonthDays[month] + (if month == 2 && IsLeapYear(year) then 1 else 0)
  }

  function DaysInYear(year: int): int {
    if IsLeapYear(year) then 366 else 365
  }

  /** Days from 1 January of year 1 to 1 January of `year`, exclusive. */
  function DaysBeforeYear(year: int): int {
    var y := year - 1;
    y * 365 + y / 4 - y / 100 + y / 400
  }

  function DaysBeforeMonth(year: int, month: int): int
    requires ValidMonth(month)
  {
    DaysBeforeMonthTable[month] + (if month > 2 && IsLeapYear(year) then 1 else 0)
  }

  /** `date.toordinal()`: 1 January of year 1 is day 1. */
  function Ordinal(year: int, month: int, day: int): int
    requires ValidMonth(month)
  {
    DaysBeforeYear(year) + DaysBeforeMonth(year, month) + day
  }

  /** The weekday of an ordinal day; day 1 (1 January of year 1) was a Monday. */
  function OrdinalWeekday(ordinal: int): (w: int)
    ensures 0 <= w < 7
  {
    (ordinal + 6) % 7
  }

  /** The year `calendar.weekday` actually hands to `datetime`: years outside
    * 1..9999 are moved into the same position of the 400-year cycle. */
  function WeekdayYear(year: int): (y: int)
    ensures 1 <= y <= 9999
    ensures 1 <= year <= 9999 ==> y == year
    ensures y % 400 == year % 400
  {
    if 1 <= year <= 9999 then year else 2000 + year % 400
  }

  /** `calendar.weekday(year, month, day)`. */
  function Weekday(year: int, month: int, day: int): (w: int)
    requires ValidMonth(month) && 1 <= day <= DaysInMonth(year, month)
    ensures 0 <= w < 7
  {
    OrdinalWeekday(Ordinal(WeekdayYear(year), month, day))
  }

  /** `calendar.monthrange`: the weekday of the 1st and the number of days,
    * or `IllegalMonthError` for a month outside 1..12. */
  function MonthRange(year: int, month: int): (r: Result<(int, int), CalendarError>)
    ensures r.Err? <==> !ValidMonth(month)
    ensures r.Err? ==> r.error == IllegalMonth(month)
    ensures r.Ok? ==> r.value.0 == Weekday(year, month, 1) && 0 <= r.value.0 < 7
    ensures r.Ok? ==> r.value.1 == DaysInMonth(year, month)
  {
    if !ValidMonth(month) then Err(IllegalMonth(month))
    else Ok((Weekday(year, month, 1), DaysInMonth(year, month)))
  }

  function Repeat(n: nat, x: int): (s: seq<int>)
    ensures |s| == n && forall k :: 0 <= k < n ==> s[k] == x
  {
    seq(n, _ => x)
  }

  function Range(lo: int, n: nat): (s: seq<int>)
    ensures |s| == n && forall k :: 0 <= k < n ==> s[k] == lo + k
  {
    seq(n, k => lo + k)
  }

  /** `Calendar.itermonthdays`: the day numbers of the month, padded with 0s
    * before and after so that the sequence covers whole weeks. It takes the
    * weekday of the 1st and the length from `monthrange`, whose error is the
    * only one the month can raise; callers check it first. */
  function IterMonthDays(year: int, month: int): (s: seq<int>)
    requires ValidMonth(month)
  {
    var (day1, ndays) := MonthRange(year, month).value;
    Repeat((day1 - FirstWeekday) % 7, 0) + Range(1, ndays) + Repeat((FirstWeekday - day1 - ndays) % 7, 0)
  }

  /** `Calendar.itermonthdays2`: each entry of `itermonthdays` paired with its
    * position in the week, counted from `FirstWeekday`. */
  function IterMonthDays2(year: int, month: int): (s: seq<(int, int)>)
    requires ValidMonth(month)
  {
    var days := IterMonthDays(year, month);
    seq(|days|, i requires 0 <= i < |days| => (days[i], (i + FirstWeekday) % 7))
  }

  /** The comprehension filter `if day != 0`: drop the padding entries. */
  function NonPadding(s: seq<(int, int)>): (r: seq<(int, int)>)
    ensures |r| <= |s|
  {
    if s == [] then []
    else (if s[0].0 != 0 then [s[0]] else []) + NonPadding(s[1..])
  }

  /** The filter keeps exactly the entries whose day is not 0. */
  lemma {:induction false} NonPaddingKeeps(s: seq<(int, int)>)
    ensures forall x :: x in NonPadding(s) <==> x in s && x.0 != 0
  {
    if s != [] {
      NonPaddingKeeps(s[1..]);
      assert s == [s[0]] + s[1..];
    }
  }

  /** The days of a month with their weekdays, padding removed. */
  function DaysWithWeekday(year: int, month: int): seq<(int, int)>
    requires ValidMonth(month)
  {
    NonPadding(IterMonthDays2(year, month))
  }

  // ----- Arithmetic facts the calendar proofs rest on -----

  lemma CycleArithmetic(y: int, k: int)
    ensures (y + 400 * k) / 4 == y / 4 + 100 * k
    ensures (y + 400 * k) / 100 == y / 100 + 4 * k
    ensures (y + 400 * k) / 400 == y / 400 + k
    ensures (y + 400 * k) % 4 == y % 4
    ensures (y + 400 * k) % 100 == y % 100
    ensures (y + 400 * k) % 400 == y % 400
  {
  }

  lemma NextYearArithmetic(y: int)
    ensures (y + 1) / 4 == y / 4 + (if (y + 1) % 4 == 0 then 1 else 0)
    ensures (y + 1) / 100 == y / 100 + (if (y + 1) % 100 == 0 then 1 else 0)
    ensures (y + 1) / 400 == y / 400 + (if (y + 1) % 400 == 0 then 1 else 0)
  {
  }

  lemma DivisibilityChain(n: int)
    ensures n % 400 == 0 ==> n % 100 == 0
    ensures n % 100 == 0 ==> n % 4 == 0
  {
    var q, m := n / 400, n / 100;
    assert n == 400 * q + n % 400;
    assert n == 100 * m + n % 100;
    if n % 400 == 0 {
      assert n == 100 * (4 * q) + 0;
    }
    if n % 100 == 0 {
      assert n == 4 * (25 * m) + 0;
    }
  }

  lemma WeekArithmetic(x: int, j: int, k: int)
    ensures (x % 7 + j) % 7 == (x + j) % 7
    ensures (x + 7 * k) % 7 == x % 7
  {
    var q := x / 7;
    assert x == 7 * q + x % 7;
    assert x + j == (x % 7 + j) + 7 * q;
  }

  // ----- Properties of the calendar -----

  lemma LeapYearPeriodic(year: int, k: int)
    ensures IsLeapYear(year + 400 * k) == IsLeapYear(year)
  {
    CycleArithmetic(year, k);
  }

  /** 400 Gregorian years hold exactly 146097 days, a whole number of weeks. */
  lemma DaysBeforeYearPeriodic(year: int, k: int)
    ensures DaysBeforeYear(year + 400 * k) == DaysBeforeYear(year) + 146097 * k
  {
    CycleArithmetic(year - 1, k);
  }

  /** Moving a date on by a number of days moves its weekday on by as many. */
  lemma OrdinalWeekdayShift(o: int, j: int)
    ensures OrdinalWeekday(o + j) == (OrdinalWeekday(o) + j) % 7
  {
    WeekArithmetic(o + 6, j, 0);
  }

  /** `calendar.weekday` agrees with the proleptic Gregorian weekday of the
    * given year itself, also for the years it remaps. */
  lemma WeekdayIsProleptic(year: int, month: int, day: int)
    requires ValidMonth(month) && 1 <= day <= DaysInMonth(year, month)
    ensures Weekday(year, month, day) == OrdinalWeekday(Ordinal(year, month, day))
  {
    if !(1 <= year <= 9999) {
      var k := 5 - year / 400;
      assert WeekdayYear(year) == year + 400 * k;
      LeapYearPeriodic(year, k);
      DaysBeforeYearPeriodic(year, k);
      var o := Ordinal(year, month, day);
      assert Ordinal(WeekdayYear(year), month, day) == o + 7 * (20871 * k);
      WeekArithmetic(o + 6, 0, 20871 * k);
    }
  }

  /** The table of days before each month is the running sum of month lengths. */
  lemma DaysBeforeNextMonth(year: int, month: int)
    requires 1 <= month < 12
    ensures DaysBeforeMonth(year, month + 1) == DaysBeforeMonth(year, month) + DaysInMonth(year, month)
  {
  }

  lemma DaysBeforeNextYear(year: int)
    ensures DaysBeforeYear(year + 1) == DaysBeforeYear(year) + DaysInYear(year)
  {
    var y := year - 1;
    NextYearArithmetic(y);
    DivisibilityChain(year);
    assert y + 1 == year;
    var extra := (year / 4 - y / 4) - (year / 100 - y / 100) + (year / 400 - y / 400);
    assert extra == (if IsLeapYear(year) then 1 else 0);
    assert DaysBeforeYear(year + 1) == year * 365 + year / 4 - year / 100 + year / 400;
    assert DaysBeforeYear(year) == y * 365 + y / 4 - y / 100 + y / 400;
    assert year * 365 == y * 365 + 365;
  }

  /** Within a month the weekday advances by one each day. */
  lemma WeekdayNextDay(year: int, month: int, day: int)
    requires ValidMonth(month) && 1 <= day < DaysInMonth(year, month)
    ensures Weekday(year, month, day + 1) == (Weekday(year, month, day) + 1) % 7
  {
    OrdinalWeekdayShift(Ordinal(WeekdayYear(year), month, day), 1);
  }

  /** The first of a month follows the last day of the previous month. */
  lemma WeekdayNextMonth(year: int, month: int)
    requires 1 <= month < 12
    ensures Weekday(year, month + 1, 1) == (Weekday(year, month, DaysInMonth(year, month)) + 1) % 7
  {
    var last := DaysInMonth(year, month);
    WeekdayIsProleptic(year, month + 1, 1);
    WeekdayIsProleptic(year, month, last);
    DaysBeforeNextMonth(year, month);
    OrdinalWeekdayShift(Ordinal(year, month, last), 1);
  }

  /** 1 January follows 31 December of the year before, across every year,
    * including the years `calendar.weekday` remaps. */
  lemma WeekdayNextYear(year: int)
    ensures Weekday(year + 1, 1, 1) == (Weekday(year, 12, 31) + 1) % 7
  {
    WeekdayIsProleptic(year + 1, 1, 1);
    WeekdayIsProleptic(year, 12, 31);
    DaysBeforeNextYear(year);
    OrdinalWeekdayShift(Ordinal(year, 12, 31), 1);
  }

  /** 1 January 2025 was a Wednesday. */
  lemma NewYear2025IsWednesday()
    ensures Weekday(2025, 1, 1) == 2
  {
    var y := 2024;
    assert y / 4 == 506 && y / 100 == 20 && y / 400 == 5;
    assert DaysBeforeYear(2025) == 739251;
    assert Ordinal(2025, 1, 1) == 739252;
  }

  /** `itermonthdays2` is some padding, then the days 1..N each paired with
    * the weekday of the 1st moved on by the day's offset, then more padding. */
  lemma IterMonthDays2Shape(year: int, month: int)
    requires ValidMonth(month)
    ensures var day1, ndays := Weekday(year, month, 1), DaysInMonth(year, month);
      var all := IterMonthDays2(year, month);
      day1 + ndays <= |all| &&
      (forall k :: 0 <= k < day1 ==> all[k].0 == 0) &&
      (forall k :: day1 <= k < day1 + ndays ==> all[k] == (k - day1 + 1, k % 7)) &&
      (forall k :: day1 + ndays <= k < |all| ==> all[k].0 == 0)
  {
    var day1, ndays := Weekday(year, month, 1), DaysInMonth(year, month);
    assert MonthRange(year, month).value == (day1, ndays);
    var pre := Repeat((day1 - FirstWeekday) % 7, 0);
    var mid := Range(1, ndays);
    var post := Repeat((FirstWeekday - day1 - ndays) % 7, 0);
    var days := IterMonthDays(year, month);
    var all := IterMonthDays2(year, month);
    assert |pre| == day1;
    assert days == pre + mid + post;
    assert |all| == |days|;
    forall k | 0 <= k < day1
      ensures all[k].0 == 0
    {
      assert all[k].0 == days[k] == pre[k];
    }
    forall k | day1 <= k < day1 + ndays
      ensures all[k] == (k - day1 + 1, k % 7)
    {
      assert all[k].0 == days[k] == mid[k - day1];
    }
    forall k | day1 + ndays <= k < |all|
      ensures all[k].0 == 0
    {
      assert all[k].0 == days[k] == post[k - day1 - ndays];
    }
  }

  /** Filtering a sequence whose real days form one block between padding
    * leaves exactly that block. */
  lemma {:induction false} NonPaddingMiddle(all: seq<(int, int)>, lo: int, hi: int)
    requires 0 <= lo <= hi <= |all|
    requires forall k :: 0 <= k < lo ==> all[k].0 == 0
    requires forall k :: lo <= k < hi ==> all[k].0 != 0
    requires forall k :: hi <= k < |all| ==> all[k].0 == 0
    ensures NonPadding(all) == all[lo..hi]
    decreases |all|
  {
    if all != [] {
      var rest := all[1..];
      if lo > 0 {
        NonPaddingMiddle(rest, lo - 1, hi - 1);
        assert rest[lo - 1..hi - 1] == all[lo..hi];
      } else if hi > 0 {
        NonPaddingMiddle(rest, 0, hi - 1);
        assert all[lo..hi] == [all[0]] + rest[..hi - 1];
      } else {
        NonPaddingMiddle(rest, 0, 0);
      }
    }
  }

  /** Filtering `itermonthdays2` leaves exactly its middle block of real days. */
  lemma NonPaddingOfMonth(year: int, month: int)
    requires ValidMonth(month)
    ensures var day1, ndays := Weekday(year, month, 1), DaysInMonth(year, month);
      var all := IterMonthDays2(year, month);
      day1 + ndays <= |all| && DaysWithWeekday(year, month) == all[day1..day1 + ndays]
  {
    var day1 := Weekday(year, month, 1);
    var ndays := DaysInMonth(year, month);
    IterMonthDays2Shape(year, month);
    NonPaddingMiddle(IterMonthDays2(year, month), day1, day1 + ndays);
  }

  /** The filtered `itermonthdays2` of a month lists the days 1..N in order,
    * N being the length of the month, each with its `calendar.weekday`. */
  lemma DaysWithWeekdaySpec(year: int, month: int)
    requires ValidMonth(month)
    ensures |DaysWithWeekday(year, month)| == DaysInMonth(year, month)
    ensures forall k :: 0 <= k < DaysInMonth(year, month) ==>
      DaysWithWeekday(year, month)[k] == (k + 1, Weekday(year, month, k + 1))
  {
    var day1 := Weekday(year, month, 1);
    var ndays := DaysInMonth(year, month);
    IterMonthDays2Shape(year, month);
    NonPaddingOfMonth(year, month);
    var days := DaysWithWeekday(year, month);
    forall k | 0 <= k < ndays
      ensures days[k] == (k + 1, Weekday(year, month, k + 1))
    {
      assert days[k] == IterMonthDays2(year, month)[day1 + k];
      WeekdayOffset(year, month, k + 1);
    }
  }

  /** The weekday of day d is the weekday of the 1st moved on by d - 1 days. */
  lemma WeekdayOffset(year: int, month: int, day: int)
    requires ValidMonth(month) && 1 <= day <= DaysInMonth(year, month)
    ensures Weekday(year, month, day) == (Weekday(year, month, 1) + day - 1) % 7
  {
    OrdinalWeekdayShift(Ordinal(WeekdayYear(year), month, 1), day - 1);
  }
}
