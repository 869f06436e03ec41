/**
 * The data-building part of `generate_schedule`: the table of a month with a
 * header row, one row per calendar day and a trailing TOTAL row. A day is a
 * workday when it falls Monday to Friday and its number is not among the
 * holidays; workdays carry the fixed clock times and 8 hours, other days
 * five empty cells.
 */
module Schedule {
  import opened Wrappers
  import opened Calendar
  import opened Decimal

  type Row = seq<string>
  type Table = seq<Row>

  const Header: Row := ["DIA", "MAÑANAS ENTRADA", "MAÑANAS SALIDA", "TARDES ENTRADA", "TARDES SALIDA", "HORAS ORDINARIAS"]

  const MorningEntry: string := "08:00"
  const MorningExit: string := "14:00"
  const AfternoonEntry: string := "15:00"
  const AfternoonExit: string := "18:00"

  /** The hours credited to a workday: a constant, not derived from the
    * clock times (which span 9 hours). */
  const HoursPerWorkday: nat := 8

  /** Monday (0) to Friday (4), and not listed as a holiday. */
  predicate IsWorkday(day: int, weekday: int, holidays: seq<int>) {
    weekday < 5 && day !in holidays
  }

  /** The row written for one day of the month. */
  function DayRow(day: int, weekday: int, holidays: seq<int>): Row {
    var filled := IsWorkday(day, weekday, holidays);
    [IntToString(day),
     if filled then MorningEntry else "",
     if filled then MorningExit else "",
     if filled then AfternoonEntry else "",
     if filled then AfternoonExit else "",
     if filled then NatToString(HoursPerWorkday) else ""]
  }

  /** Every day row has six cells, starts with the day number, and is
    * filled with the fixed times and 8 hours exactly on workdays, and
    * otherwise holds five empty cells. */
  lemma DayRowCells(day: int, weekday: int, holidays: seq<int>)
    ensures var row := DayRow(day, weekday, holidays);
      |row| == 6 && row[0] == IntToString(day) &&
      (IsWorkday(day, weekday, holidays) <==> row[1..] == ["08:00", "14:00", "15:00", "18:00", "8"]) &&
      (!IsWorkday(day, weekday, holidays) <==> row[1..] == ["", "", "", "", ""])
  {
    assert NatToString(HoursPerWorkday) == "8";
  }

  /** The closing row: the label and the total in the hours column. */
  function TotalRow(totalHours: int): Row {
    ["TOTAL", "", "", "", "", IntToString(totalHours)]
  }

  /** The TOTAL row has six cells: the label, four empty cells, and the
    * total in decimal digits that read back as the total. */
  lemma TotalRowCells(totalHours: nat)
    ensures var row := TotalRow(totalHours);
      |row| == 6 && row[0] == "TOTAL" && row[1..5] == ["", "", "", ""] &&
      AllDigits(row[5]) && DigitsValue(row[5]) == totalHours
  {
    NatToStringRoundTrip(totalHours);
  }

  /** The reference count: the workdays among the days 1..k of the month,
    * asking the calendar for each day's weekday. The table's TOTAL is stated
    * in these terms. */
  function WorkdaysUpTo(year: int, month: int, holidays: seq<int>, k: int): (n: nat)
    requires ValidMonth(month) && 0 <= k <= DaysInMonth(year, month)
    ensures n <= k
  {
    if k == 0 then 0
    else WorkdaysUpTo(year, month, holidays, k - 1)
         + (if IsWorkday(k, Weekday(year, month, k), holidays) then 1 else 0)
  }

  function Workdays(year: int, month: int, holidays: seq<int>): nat
    requires ValidMonth(month)
  {
    WorkdaysUpTo(year, month, holidays, DaysInMonth(year, month))
  }

  /** The count the loop keeps: the workdays among the (day, weekday) pairs
    * seen so far. It peels the last pair so that it grows with the loop's
    * prefix; `CountWorkdaysOfMonth` ties it to the reference count. */
  function CountWorkdays(weekdays: seq<(int, int)>, holidays: seq<int>): (n: nat)
    ensures n <= |weekdays|
  {
    if weekdays == [] then 0
    else
      var last := weekdays[|weekdays| - 1];
      CountWorkdays(weekdays[..|weekdays| - 1], holidays) + (if IsWorkday(last.0, last.1, holidays) then 1 else 0)
  }

  /**
   * The loop of `generate_schedule` over the (day, weekday) pairs: the header,
   * one row per pair in order, and the TOTAL row with 8 hours per workday.
   */
  method ScheduleTable(weekdays: seq<(int, int)>, holidays: seq<int>) returns (data: Table)
    ensures |data| == |weekdays| + 2 && data[0] == Header
    ensures forall k :: 0 <= k < |weekdays| ==> data[k + 1] == DayRow(weekdays[k].0, weekdays[k].1, holidays)
    ensures data[|weekdays| + 1] == TotalRow(HoursPerWorkday * CountWorkdays(weekdays, holidays))
  {
    data := [Header];
    var totalHours := 0;
    for i := 0 to |weekdays|
      invariant |data| == i + 1 && data[0] == Header
      invariant forall k :: 0 <= k < i ==> data[k + 1] == DayRow(weekdays[k].0, weekdays[k].1, holidays)
      invariant totalHours == HoursPerWorkday * CountWorkdays(weekdays[..i], holidays)
    {
      var (day, weekday) := weekdays[i];
      var morningEntry, morningExit, afternoonEntry, afternoonExit, hours;
      if weekday < 5 && day !in holidays {
        morningEntry := MorningEntry;
        morningExit := MorningExit;
        afternoonEntry := AfternoonEntry;
        afternoonExit := AfternoonExit;
        hours := NatToString(HoursPerWorkday);
        totalHours := totalHours + HoursPerWorkday;
      } else {
        morningEntry, morningExit, afternoonEntry, afternoonExit, hours := "", "", "", "", "";
      }
      assert weekdays[..i + 1][..i] == weekdays[..i];
      data := data + [[IntToString(day), morningEntry, morningExit, afternoonEntry, afternoonExit, hours]];
    }
    assert weekdays[..|weekdays|] == weekdays;
    data := data + [["TOTAL", "", "", "", "", IntToString(totalHours)]];
  }

  /** Counting the workdays of the filtered month one pair at a time gives
    * the workdays among its first days. */
  lemma {:induction false} CountWorkdaysOfMonth(year: int, month: int, holidays: seq<int>, k: int)
    requires ValidMonth(month) && 0 <= k <= DaysInMonth(year, month)
    ensures var weekdays := DaysWithWeekday(year, month);
      k <= |weekdays| && CountWorkdays(weekdays[..k], holidays) == WorkdaysUpTo(year, month, holidays, k)
  {
    var weekdays := DaysWithWeekday(year, month);
    DaysWithWeekdaySpec(year, month);
    if k > 0 {
      CountWorkdaysOfMonth(year, month, holidays, k - 1);
      assert weekdays[..k][..k - 1] == weekdays[..k - 1];
      assert weekdays[..k][k - 1] == weekdays[k - 1] == (k, Weekday(year, month, k));
    }
  }

  /**
   * `generate_schedule(year, month, holidays)` up to the table it hands to the
   * renderer. A month outside 1..12 makes `itermonthdays2` raise, which is the
   * error result here.
   */
  method GenerateSchedule(year: int, month: int, holidays: seq<int>) returns (result: Result<Table, CalendarError>)
    ensures result.Err? <==> !ValidMonth(month)
    ensures result.Err? ==> result.error == IllegalMonth(month)
    ensures result.Ok? ==>
      var n, table := DaysInMonth(year, month), result.value;
      |table| == n + 2 && table[0] == Header &&
      (forall d :: 1 <= d <= n ==> table[d] == DayRow(d, Weekday(year, month, d), holidays)) &&
      table[n + 1] == TotalRow(HoursPerWorkday * Workdays(year, month, holidays))
  {
    var range := MonthRange(year, month);
    if range.Err? {
      return Err(range.error);
    }
    var weekdays := DaysWithWeekday(year, month);
    DaysWithWeekdaySpec(year, month);
    var data := ScheduleTable(weekdays, holidays);
    CountWorkdaysOfMonth(year, month, holidays, |weekdays|);
    assert weekdays[..|weekdays|] == weekdays;
    forall d | 1 <= d <= |weekdays|
      ensures data[d] == DayRow(d, Weekday(year, month, d), holidays)
    {
      assert weekdays[d - 1] == (d, Weekday(year, month, d));
    }
    return Ok(data);
  }

  // ----- Properties of the table -----

  /** The total never exceeds 8 hours for every day of the month. */
  lemma TotalAtMostFullMonth(year: int, month: int, holidays: seq<int>)
    requires ValidMonth(month)
    ensures HoursPerWorkday * Workdays(year, month, holidays) <= HoursPerWorkday * DaysInMonth(year, month)
  {
  }

  lemma {:induction false} MoreHolidaysUpTo(year: int, month: int, holidays: seq<int>, more: seq<int>, k: int)
    requires ValidMonth(month) && 0 <= k <= DaysInMonth(year, month)
    requires forall x :: x in holidays ==> x in more
    ensures WorkdaysUpTo(year, month, more, k) <= WorkdaysUpTo(year, month, holidays, k)
  {
    if k > 0 {
      MoreHolidaysUpTo(year, month, holidays, more, k - 1);
    }
  }

  /** Declaring more holidays never raises the total. */
  lemma MoreHolidaysNeverRaiseTotal(year: int, month: int, holidays: seq<int>, more: seq<int>)
    requires ValidMonth(month)
    requires forall x :: x in holidays ==> x in more
    ensures Workdays(year, month, more) <= Workdays(year, month, holidays)
  {
    MoreHolidaysUpTo(year, month, holidays, more, DaysInMonth(year, month));
  }

  /** In particular, adding one holiday never raises the total. */
  lemma AddedHolidayNeverRaisesTotal(year: int, month: int, holidays: seq<int>, day: int)
    requires ValidMonth(month)
    ensures Workdays(year, month, holidays + [day]) <= Workdays(year, month, holidays)
  {
    MoreHolidaysNeverRaiseTotal(year, month, holidays, holidays + [day]);
  }

  lemma {:induction false} IrrelevantHolidayUpTo(year: int, month: int, holidays: seq<int>, extra: int, k: int)
    requires ValidMonth(month) && 0 <= k <= DaysInMonth(year, month)
    requires extra < 1 || extra > DaysInMonth(year, month)
    ensures WorkdaysUpTo(year, month, holidays + [extra], k) == WorkdaysUpTo(year, month, holidays, k)
  {
    if k > 0 {
      IrrelevantHolidayUpTo(year, month, holidays, extra, k - 1);
    }
  }

  /** A holiday number outside 1..N (N the length of the month) changes no
    * day row and not the total. */
  lemma IrrelevantHolidayChangesNothing(year: int, month: int, holidays: seq<int>, extra: int)
    requires ValidMonth(month)
    requires extra < 1 || extra > DaysInMonth(year, month)
    ensures Workdays(year, month, holidays + [extra]) == Workdays(year, month, holidays)
    ensures forall d :: 1 <= d <= DaysInMonth(year, month) ==>
      DayRow(d, Weekday(year, month, d), holidays + [extra]) == DayRow(d, Weekday(year, month, d), holidays)
  {
    IrrelevantHolidayUpTo(year, month, holidays, extra, DaysInMonth(year, month));
  }

  /** What an hours cell is worth when summed: empty counts as 0. */
  function HoursValue(cell: string): nat {
    if AllDigits(cell) then DigitsValue(cell) else 0
  }

  /** The sum of the hours column over the day rows 1..k. */
  function HoursColumnSum(year: int, month: int, holidays: seq<int>, k: int): nat
    requires ValidMonth(month) && 0 <= k <= DaysInMonth(year, month)
  {
    if k == 0 then 0
    else HoursColumnSum(year, month, holidays, k - 1) + HoursValue(DayRow(k, Weekday(year, month, k), holidays)[5])
  }

  /** The TOTAL cell is the sum of the hours column above it. */
  lemma {:induction false} TotalIsHoursColumnSum(year: int, month: int, holidays: seq<int>, k: int)
    requires ValidMonth(month) && 0 <= k <= DaysInMonth(year, month)
    ensures HoursColumnSum(year, month, holidays, k) == HoursPerWorkday * WorkdaysUpTo(year, month, holidays, k)
  {
    if k > 0 {
      TotalIsHoursColumnSum(year, month, holidays, k - 1);
      NatToStringRoundTrip(HoursPerWorkday);
      assert AllDigits("");
    }
  }

  /** The weekdays of January 2025, which began on a Wednesday. */
  lemma January2025Weekdays()
    ensures forall d :: 1 <= d <= 31 ==> Weekday(2025, 1, d) == (d + 1) % 7
  {
    NewYear2025IsWednesday();
    forall d | 1 <= d <= 31
      ensures Weekday(2025, 1, d) == (d + 1) % 7
    {
      WeekdayOffset(2025, 1, d);
    }
  }

  /** The rows drawn by the application (January 2025, holidays 1 and 6):
    * Wednesday the 1st and Monday the 6th are holidays, Saturday the 4th is a
    * weekend day, Thursday the 2nd is worked. */
  lemma January2025Rows()
    ensures Weekday(2025, 1, 1) == 2 && Weekday(2025, 1, 4) == 5 && Weekday(2025, 1, 6) == 0
    ensures DayRow(1, Weekday(2025, 1, 1), [1, 6]) == ["1", "", "", "", "", ""]
    ensures DayRow(2, Weekday(2025, 1, 2), [1, 6]) == ["2", "08:00", "14:00", "15:00", "18:00", "8"]
    ensures DayRow(4, Weekday(2025, 1, 4), [1, 6]) == ["4", "", "", "", "", ""]
    ensures DayRow(6, Weekday(2025, 1, 6), [1, 6]) == ["6", "", "", "", "", ""]
  {
    January2025Weekdays();
  }

  /** That month has 21 workdays, so its TOTAL reads 168. */
  lemma January2025Total()
    ensures TotalRow(HoursPerWorkday * Workdays(2025, 1, [1, 6])) == ["TOTAL", "", "", "", "", "168"]
  {
    January2025Count();
    TotalRow168();
  }

  lemma TotalRow168()
    ensures TotalRow(168) == ["TOTAL", "", "", "", "", "168"]
  {
    assert DigitChar(1) == '1' && DigitChar(6) == '6' && DigitChar(8) == '8';
    assert NatToString(16) == NatToString(1) + "6" == "16";
    assert NatToString(168) == NatToString(16) + "8" == "168";
  }


  /** The workdays among the days 1..k of a month whose 1st falls on
    * weekday `first`, day d falling d - 1 days later. It needs no calendar,
    * so a concrete month's count follows from the weekday of its 1st alone. */
  function WorkdaysFromFirst(first: int, holidays: seq<int>, k: int): nat {
    if k <= 0 then 0
    else WorkdaysFromFirst(first, holidays, k - 1) + (if IsWorkday(k, (first + k - 1) % 7, holidays) then 1 else 0)
  }

  /** Without holidays, any seven consecutive days hold five workdays. */
  lemma FiveWorkdaysPerWeek(first: int, k: nat)
    ensures WorkdaysFromFirst(first, [], k + 7) == WorkdaysFromFirst(first, [], k) + 5
  {
    var r := (first + k) % 7;
    assert (first + k + 1) % 7 == (r + 1) % 7;
    assert (first + k + 2) % 7 == (r + 2) % 7;
    assert (first + k + 3) % 7 == (r + 3) % 7;
    assert (first + k + 4) % 7 == (r + 4) % 7;
    assert (first + k + 5) % 7 == (r + 5) % 7;
    assert (first + k + 6) % 7 == (r + 6) % 7;
    assert WorkdaysFromFirst(first, [], k + 1) == WorkdaysFromFirst(first, [], k) + (if r < 5 then 1 else 0);
    assert WorkdaysFromFirst(first, [], k + 2) == WorkdaysFromFirst(first, [], k + 1) + (if (r + 1) % 7 < 5 then 1 else 0);
    assert WorkdaysFromFirst(first, [], k + 3) == WorkdaysFromFirst(first, [], k + 2) + (if (r + 2) % 7 < 5 then 1 else 0);
    assert WorkdaysFromFirst(first, [], k + 4) == WorkdaysFromFirst(first, [], k + 3) + (if (r + 3) % 7 < 5 then 1 else 0);
    assert WorkdaysFromFirst(first, [], k + 5) == WorkdaysFromFirst(first, [], k + 4) + (if (r + 4) % 7 < 5 then 1 else 0);
    assert WorkdaysFromFirst(first, [], k + 6) == WorkdaysFromFirst(first, [], k + 5) + (if (r + 5) % 7 < 5 then 1 else 0);
    assert WorkdaysFromFirst(first, [], k + 7) == WorkdaysFromFirst(first, [], k + 6) + (if (r + 6) % 7 < 5 then 1 else 0);
  }

  /** The workday count of a month depends only on the weekday of its 1st. */
  lemma {:induction false} WorkdaysUpToFromFirst(year: int, month: int, holidays: seq<int>, k: int)
    requires ValidMonth(month) && 0 <= k <= DaysInMonth(year, month)
    ensures WorkdaysUpTo(year, month, holidays, k) == WorkdaysFromFirst(Weekday(year, month, 1), holidays, k)
  {
    if k > 0 {
      WorkdaysUpToFromFirst(year, month, holidays, k - 1);
      WeekdayOffset(year, month, k);
    }
  }

  /** January 2025 with holidays 1 and 6 has 21 workdays. */
  lemma January2025Count()
    ensures Workdays(2025, 1, [1, 6]) == 21
  {
    NewYear2025IsWednesday();
    WorkdaysUpToFromFirst(2025, 1, [1, 6], 31);
    CountFromWednesdayFirstHalf(2, [1, 6]);
    CountFromWednesdaySecondHalf(2, [1, 6]);
  }

  /** The count of January2025Count for a month starting on a Wednesday, one
    * day at a time; the arguments are parameters so that each step unfolds
    * the count once. */
  lemma CountFromWednesdayFirstHalf(first: int, holidays: seq<int>)
    requires first == 2 && holidays == [1, 6]
    ensures WorkdaysFromFirst(first, holidays, 16) == 10
  {
    assert WorkdaysFromFirst(first, holidays, 1) == 0;
    assert WorkdaysFromFirst(first, holidays, 2) == 1;
    assert WorkdaysFromFirst(first, holidays, 3) == 2;
    assert WorkdaysFromFirst(first, holidays, 4) == 2;
    assert WorkdaysFromFirst(first, holidays, 5) == 2;
    assert WorkdaysFromFirst(first, holidays, 6) == 2;
    assert WorkdaysFromFirst(first, holidays, 7) == 3;
    assert WorkdaysFromFirst(first, holidays, 8) == 4;
    assert WorkdaysFromFirst(first, holidays, 9) == 5;
    assert WorkdaysFromFirst(first, holidays, 10) == 6;
    assert WorkdaysFromFirst(first, holidays, 11) == 6;
    assert WorkdaysFromFirst(first, holidays, 12) == 6;
    assert WorkdaysFromFirst(first, holidays, 13) == 7;
    assert WorkdaysFromFirst(first, holidays, 14) == 8;
    assert WorkdaysFromFirst(first, holidays, 15) == 9;
    assert WorkdaysFromFirst(first, holidays, 16) == 10;
  }

  lemma CountFromWednesdaySecondHalf(first: int, holidays: seq<int>)
    requires first == 2 && holidays == [1, 6]
    requires WorkdaysFromFirst(first, holidays, 16) == 10
    ensures WorkdaysFromFirst(first, holidays, 31) == 21
  {
    assert WorkdaysFromFirst(first, holidays, 17) == 11;
    assert WorkdaysFromFirst(first, holidays, 18) == 11;
    assert WorkdaysFromFirst(first, holidays, 19) == 11;
    assert WorkdaysFromFirst(first, holidays, 20) == 12;
    assert WorkdaysFromFirst(first, holidays, 21) == 13;
    assert WorkdaysFromFirst(first, holidays, 22) == 14;
    assert WorkdaysFromFirst(first, holidays, 23) == 15;
    assert WorkdaysFromFirst(first, holidays, 24) == 16;
    assert WorkdaysFromFirst(first, holidays, 25) == 16;
    assert WorkdaysFromFirst(first, holidays, 26) == 16;
    assert WorkdaysFromFirst(first, holidays, 27) == 17;
    assert WorkdaysFromFirst(first, holidays, 28) == 18;
    assert WorkdaysFromFirst(first, holidays, 29) == 19;
    assert WorkdaysFromFirst(first, holidays, 30) == 20;
    assert WorkdaysFromFirst(first, holidays, 31) == 21;
  }
}
