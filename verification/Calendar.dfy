/** The month calendar: leap years, the weekday formula and the printed grid. */
module Calendar {
  import opened Arithmetic

  datatype Date = Date(year: int, month: int, day: int)

  /** cal_is_leap_year. */
  predicate IsLeapYear(year: nat) {
    if year % 400 == 0 then true else if year % 100 == 0 then false else year % 4 == 0
  }

  const DAYS: seq<int> := [31, 28, 31, 30, 31, 30, 31, 31, 30, 31, 30, 31]

  const OFFSETS: seq<int> := [0, 3, 2, 5, 0, 3, 5, 1, 4, 6, 2, 4]

  /** cal_days_in_month; zero for a month that does not exist. */
  function DaysInMonth(year: nat, month: int): nat {
    if month < 1 || month > 12 then 0
    else if month == 2 && IsLeapYear(year) then 29
    else DAYS[month - 1]
  }

  lemma LeapIs(year: nat)
    ensures IsLeapYear(year) <==> year % 4 == 0 && (year % 100 != 0 || year % 400 == 0)
  {
    Divides(year, 4, 100, 25);
    Divides(year, 100, 400, 4);
  }

  /** The Gregorian calendar's months. */
  lemma MonthLengths(year: nat, month: int)
    ensures month in {4, 6, 9, 11} ==> DaysInMonth(year, month) == 30
    ensures month in {1, 3, 5, 7, 8, 10, 12} ==> DaysInMonth(year, month) == 31
    ensures month == 2 ==>
      DaysInMonth(year, month) == if year % 4 == 0 && (year % 100 != 0 || year % 400 == 0) then 29 else 28
    ensures month < 1 || month > 12 ==> DaysInMonth(year, month) == 0
  {
    hide IsLeapYear;
    LeapIs(year);
  }

  /** The year's share of the weekday; the leap rule is spread over three quotients. */
  function YearShare(y: nat): int { y + y / 4 - y / 100 + y / 400 }

  /** cal_weekday, 0 being Sunday. From year 1 on no operand is negative, so C divides as below. */
  function Weekday(year: nat, month: nat, day: nat): nat
    requires year >= 1 && 1 <= month <= 12
  {
    var y := if month < 3 then year - 1 else year;
    (YearShare(y) + OFFSETS[month - 1] + day) % 7
  }

  predicate Valid(d: Date) {
    d.year >= 1 && 1 <= d.month <= 12 && 1 <= d.day <= DaysInMonth(d.year, d.month)
  }

  function WeekdayOf(d: Date): nat
    requires Valid(d)
  {
    Weekday(d.year, d.month, d.day)
  }

  /** The following day of the Gregorian calendar. */
  function Tomorrow(d: Date): (r: Date)
    requires Valid(d)
    ensures Valid(r)
  {
    if d.day < DaysInMonth(d.year, d.month) then d.(day := d.day + 1)
    else if d.month < 12 then Date(d.year, d.month + 1, 1)
    else Date(d.year + 1, 1, 1)
  }

  lemma {:induction false} DivStep(y: nat, k: nat)
    requires y >= 1 && k >= 1
    ensures y / k == (y - 1) / k + if y % k == 0 then 1 else 0
  {
    var q, r := y / k, y % k;
    if r == 0 {
      Quotient(y - 1, k, q - 1, k - 1);
    } else {
      Quotient(y - 1, k, q, r - 1);
    }
  }

  /** The three quotients add one extra day for exactly the leap years. */
  lemma {:induction false} YearShareStep(y: nat)
    requires y >= 1
    ensures YearShare(y) == YearShare(y - 1) + 1 + if IsLeapYear(y) then 1 else 0
  {
    DivStep(y, 4);
    DivStep(y, 100);
    DivStep(y, 400);
    LeapRule(y);
  }

  lemma LeapRule(y: nat)
    ensures (if y % 4 == 0 then 1 else 0) - (if y % 100 == 0 then 1 else 0) + (if y % 400 == 0 then 1 else 0)
      == if IsLeapYear(y) then 1 else 0
  {
    Divides(y, 4, 100, 25);
    Divides(y, 100, 400, 4);
  }

  lemma Divides(y: nat, a: nat, b: nat, c: nat)
    requires a > 0 && c > 0 && b == a * c
    ensures y % b == 0 ==> y % a == 0
  {
    if y % b == 0 {
      var q := y / b;
      assert y == b * q == a * (c * q);
      assert y % a == 0 by { Multiple(a, c * q); }
    }
  }

  lemma Multiple(a: nat, q: nat)
    requires a > 0
    ensures a * q % a == 0
  {
    Quotient(a * q, a, q, 0);
  }

  /** The weekday advances by one from every day to the next, over month, February and year ends. */
  lemma {:induction false} WeekdayAdvances(d: Date)
    requires Valid(d)
    ensures WeekdayOf(Tomorrow(d)) == (WeekdayOf(d) + 1) % 7
  {
    hide Weekday, IsLeapYear;
    if d.day < DaysInMonth(d.year, d.month) {
      SameMonth(d.year, d.month, d.day);
    } else {
      MonthEnd(d.year, d.month);
    }
  }

  lemma SameMonth(year: nat, month: nat, day: nat)
    requires year >= 1 && 1 <= month <= 12
    ensures Weekday(year, month, day + 1) == (Weekday(year, month, day) + 1) % 7
  {
    hide YearShare;
    var y := if month < 3 then year - 1 else year;
    WeeksApart(YearShare(y) + OFFSETS[month - 1] + day, 0);
  }

  lemma {:induction false} MonthEnd(year: nat, month: nat)
    requires year >= 1 && 1 <= month <= 12
    ensures
      var last := Weekday(year, month, DaysInMonth(year, month));
      var first := if month < 12 then Weekday(year, month + 1, 1) else Weekday(year + 1, 1, 1);
      first == (last + 1) % 7
  {
    hide YearShare, IsLeapYear;
    if month == 2 {
      FebruaryEnd(year);
    } else {
      OtherEnd(year, month);
    }
  }

  lemma {:induction false} FebruaryEnd(year: nat)
    requires year >= 1
    ensures Weekday(year, 3, 1) == (Weekday(year, 2, DaysInMonth(year, 2)) + 1) % 7
  {
    YearShareStep(year);
    hide YearShare, IsLeapYear;
    var leap := if IsLeapYear(year) then 1 else 0;
    assert DaysInMonth(year, 2) == 28 + leap;
    FourWeeks(YearShare(year - 1) + leap + 3);
  }

  lemma FourWeeks(n: int)
    ensures (n + 1) % 7 == ((n + 28) % 7 + 1) % 7
  {
  }

  lemma {:induction false} OtherEnd(year: nat, month: nat)
    requires year >= 1 && 1 <= month <= 12 && month != 2
    ensures
      var last := Weekday(year, month, DAYS[month - 1]);
      var first := if month < 12 then Weekday(year, month + 1, 1) else Weekday(year + 1, 1, 1);
      first == (last + 1) % 7
  {
    hide YearShare;
    var y := if month < 3 then year - 1 else year;
    var next := if month == 12 then OFFSETS[0] else OFFSETS[month];
    var n := YearShare(y) + OFFSETS[month - 1] + DAYS[month - 1];
    OffsetsFit(month);
    var gap := OFFSETS[month - 1] + DAYS[month - 1] - next;
    WeeksApart(n, gap);
  }

  lemma OffsetsFit(month: nat)
    requires 1 <= month <= 12 && month != 2
    ensures
      var next := if month == 12 then OFFSETS[0] else OFFSETS[month];
      (OFFSETS[month - 1] + DAYS[month - 1] - next) % 7 == 0
  {
  }

  lemma WeeksApart(n: int, gap: int)
    requires gap % 7 == 0
    ensures (n - gap + 1) % 7 == (n % 7 + 1) % 7
  {
  }

  // ----- counting days

  function DaysBeforeYear(year: nat): nat
    requires year >= 1
  {
    if year == 1 then 0 else DaysBeforeYear(year - 1) + if IsLeapYear(year - 1) then 366 else 365
  }

  function DaysBeforeMonth(year: nat, month: nat): nat
    requires 1 <= month <= 12
  {
    if month == 1 then 0 else DaysBeforeMonth(year, month - 1) + DaysInMonth(year, month - 1)
  }

  /** The first day of year 1 is day number 1, a Monday. */
  function DayNumber(d: Date): nat
    requires Valid(d)
  {
    DaysBeforeYear(d.year) + DaysBeforeMonth(d.year, d.month) + d.day
  }

  lemma YearLength(year: nat)
    ensures DaysBeforeMonth(year, 12) + DaysInMonth(year, 12) == if IsLeapYear(year) then 366 else 365
  {
    var leap := if IsLeapYear(year) then 1 else 0;
    assert DaysBeforeMonth(year, 2) == 31 && DaysBeforeMonth(year, 3) == 59 + leap;
    assert DaysBeforeMonth(year, 4) == 90 + leap && DaysBeforeMonth(year, 5) == 120 + leap;
    assert DaysBeforeMonth(year, 6) == 151 + leap && DaysBeforeMonth(year, 7) == 181 + leap;
    assert DaysBeforeMonth(year, 8) == 212 + leap && DaysBeforeMonth(year, 9) == 243 + leap;
    assert DaysBeforeMonth(year, 10) == 273 + leap && DaysBeforeMonth(year, 11) == 304 + leap;
    assert DaysBeforeMonth(year, 12) == 334 + leap;
  }

  lemma {:induction false} DayNumberAdvances(d: Date)
    requires Valid(d)
    ensures DayNumber(Tomorrow(d)) == DayNumber(d) + 1
  {
    hide IsLeapYear;
    YearLength(d.year);
  }

  /** The formula agrees with counting days one by one. */
  lemma {:induction false} WeekdayCounts(d: Date)
    requires Valid(d)
    ensures WeekdayOf(d) == DayNumber(d) % 7
    decreases d.year, d.month, d.day
  {
    hide WeekdayOf, DayNumber, IsLeapYear;
    if d != Date(1, 1, 1) {
      var e := Yesterday(d);
      WeekdayCounts(e);
      WeekdayAdvances(e);
      DayNumberAdvances(e);
    } else {
      FirstMonday();
    }
  }

  lemma FirstMonday()
    ensures WeekdayOf(Date(1, 1, 1)) == 1 && DayNumber(Date(1, 1, 1)) == 1
  {
  }

  function Yesterday(d: Date): (e: Date)
    requires Valid(d) && d != Date(1, 1, 1)
    ensures Valid(e) && Tomorrow(e) == d
    ensures e.year < d.year || (e.year == d.year && (e.month < d.month || (e.month == d.month && e.day < d.day)))
  {
    if d.day > 1 then d.(day := d.day - 1)
    else if d.month > 1 then Date(d.year, d.month - 1, DaysInMonth(d.year, d.month - 1))
    else Date(d.year - 1, 12, 31)
  }

  // ----- the grid

  function Digit(n: nat): char
    requires n < 10
  {
    '0' + n as char
  }

  /** "%2d". */
  function Cell(day: nat): (c: string)
    requires 1 <= day <= 31
    ensures |c| == 2
  {
    [if day < 10 then ' ' else Digit(day / 10), Digit(day % 10)]
  }

  /** The place of a day in the grid counts three characters a cell and seven cells a line. */
  function Place(start: nat, day: nat): nat
    requires day >= 1
  {
    3 * (start + day - 1)
  }

  /** The day's cell and the separator after it, a line end in the last column. */
  predicate Printed(text: string, start: nat, day: nat)
    requires 1 <= day <= 31
  {
    var at := Place(start, day);
    && at + 2 < |text|
    && text[at..at + 2] == Cell(day)
    && text[at + 2] == if (start + day - 1) % 7 == 6 then '\n' else ' '
  }

  predicate AllPrinted(text: string, start: nat, days: nat) {
    days <= 31 && forall d :: 1 <= d <= days ==> Printed(text, start, d)
  }

  lemma PrintedStays(text: string, more: string, start: nat, days: nat)
    requires AllPrinted(text, start, days)
    ensures AllPrinted(text + more, start, days)
  {
    hide Cell;
    forall d | 1 <= d <= days
      ensures Printed(text + more, start, d)
    {
      var at := Place(start, d);
      assert Printed(text, start, d);
      assert (text + more)[at..at + 2] == text[at..at + 2];
    }
  }

  lemma PrintedMore(text: string, start: nat, day: nat)
    requires 1 <= day <= 31 && |text| == Place(start, day) && AllPrinted(text, start, day - 1)
    ensures AllPrinted(text + Cell(day) + (if (start + day - 1) % 7 == 6 then "\n" else " "), start, day)
  {
    var more := Cell(day) + (if (start + day - 1) % 7 == 6 then "\n" else " ");
    hide Cell;
    PrintedStays(text, more, start, day - 1);
    var all := text + more;
    assert all == text + Cell(day) + (if (start + day - 1) % 7 == 6 then "\n" else " ");
    assert all[|text|..|text| + 2] == Cell(day);
    assert Printed(all, start, day);
  }

  /** cal_print_month below its two heading lines, without the highlight of the current day. */
  method PrintMonth(month: nat, year: nat) returns (text: string)
    requires 1 <= month <= 12 && year >= 1
    ensures AllPrinted(text, Weekday(year, month, 1), DaysInMonth(year, month))
    ensures forall k :: 0 <= k < Place(Weekday(year, month, 1), 1) ==> k < |text| && text[k] == ' '
    ensures text != "" && text[|text| - 1] == '\n'
    ensures
      var next := Weekday(year, month, 1) + DaysInMonth(year, month);
      |text| == 3 * next + (if (next - 1) % 7 == 6 then 0 else 1)
  {
    hide AllPrinted, Cell, Weekday;
    var days := DaysInMonth(year, month);
    var start := Weekday(year, month, 1);
    text := "";
    for i := 0 to start
      invariant |text| == 3 * i && forall k :: 0 <= k < 3 * i ==> text[k] == ' '
    {
      text := text + "   ";
    }
    NonePrinted(text, start);
    for day := 1 to days + 1
      invariant |text| == Place(start, day) && AllPrinted(text, start, day - 1)
      invariant forall k :: 0 <= k < Place(start, 1) ==> text[k] == ' '
      invariant day > 1 ==> text[|text| - 1] == if (start + day - 2) % 7 == 6 then '\n' else ' '
    {
      PrintedMore(text, start, day);
      text := text + Cell(day) + (if (start + day - 1) % 7 == 6 then "\n" else " ");
    }
    if (start + days - 1) % 7 != 6 {
      PrintedStays(text, "\n", start, days);
      text := text + "\n";
    }
  }

  lemma NonePrinted(text: string, start: nat)
    ensures AllPrinted(text, start, 0)
  {
  }

  /** In the printed month every day stands in the column of its weekday, and Saturdays end the line. */
  lemma {:induction false} GridColumns(text: string, year: nat, month: nat, day: nat)
    requires year >= 1 && 1 <= month <= 12 && 1 <= day <= DaysInMonth(year, month)
    requires AllPrinted(text, Weekday(year, month, 1), DaysInMonth(year, month))
    ensures
      var at := Place(Weekday(year, month, 1), day);
      && at + 2 < |text| && text[at..at + 2] == Cell(day)
      && at % 21 == 3 * Weekday(year, month, day)
      && (text[at + 2] == '\n' <==> Weekday(year, month, day) == 6)
  {
    ColumnIsWeekday(year, month, day);
    hide Weekday, Cell;
    assert Printed(text, Weekday(year, month, 1), day);
    Line(Weekday(year, month, 1) + day - 1);
  }

  lemma Line(n: nat)
    ensures 3 * n % 21 == 3 * (n % 7)
  {
  }

  /** The column of a day is its weekday. */
  lemma {:induction false} ColumnIsWeekday(year: nat, month: nat, day: nat)
    requires year >= 1 && 1 <= month <= 12 && 1 <= day
    ensures (Weekday(year, month, 1) + day - 1) % 7 == Weekday(year, month, day)
  {
    var y := if month < 3 then year - 1 else year;
    Shift(YearShare(y) + OFFSETS[month - 1] + 1, day - 1);
  }

  lemma Shift(n: int, k: int)
    ensures (n % 7 + k) % 7 == (n + k) % 7
  {
  }
}
