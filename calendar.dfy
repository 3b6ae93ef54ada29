/**
 * The day-type classifier of utils/calendar_logic.py, with the calendar
 * arithmetic of Python's `datetime.date` it depends on: validity of a date,
 * the proleptic Gregorian ordinal (1 January of year 1 is day 1) and
 * `weekday()`, where Monday is 0 and Sunday is 6.
 */
module Calendar {

  datatype Date = Date(year: int, month: int, day: int)

  /** The day types a catalog task can be tagged with. */
  datatype DayType = ChristmasEve | ChristmasDay | NewYear | Weekend | Weekday

  predicate IsLeapYear(y: int) {
    y % 4 == 0 && (y % 100 != 0 || y % 400 == 0)
  }

  function DaysInMonth(y: int, m: int): (n: int)
    requires 1 <= m <= 12
    ensures 28 <= n <= 31
  {
    if m == 2 then (if IsLeapYear(y) then 29 else 28)
    else if m == 4 || m == 6 || m == 9 || m == 11 then 30
    else 31
  }

  /** The dates `datetime.date` accepts: years 1 to 9999. */
  predicate ValidDate(d: Date) {
    1 <= d.year <= 9999 && 1 <= d.month <= 12 && 1 <= d.day <= DaysInMonth(d.year, d.month)
  }

  function DaysBeforeYear(y: int): int
    requires y >= 1
  {
    var p := y - 1;
    p * 365 + p / 4 - p / 100 + p / 400
  }

  function DaysBeforeMonth(y: int, m: int): int
    requires 1 <= m <= 12
  {
    [0, 31, 59, 90, 120, 151, 181, 212, 243, 273, 304, 334][m - 1]
      + (if m > 2 && IsLeapYear(y) then 1 else 0)
  }

  /** `date.toordinal()`. */
  function Ordinal(d: Date): int
    requires ValidDate(d)
  {
    DaysBeforeYear(d.year) + DaysBeforeMonth(d.year, d.month) + d.day
  }

  /** `date.weekday()`: 0 for Monday up to 6 for Sunday. */
  function DayOfWeek(d: Date): (w: int)
    requires ValidDate(d)
    ensures 0 <= w < 7
  {
    (Ordinal(d) + 6) % 7
  }

  /** The calendar day after `d`. */
  function NextDay(d: Date): (e: Date)
    requires ValidDate(d) && d != Date(9999, 12, 31)
    ensures ValidDate(e)
  {
    if d.day < DaysInMonth(d.year, d.month) then Date(d.year, d.month, d.day + 1)
    else if d.month < 12 then Date(d.year, d.month + 1, 1)
    else Date(d.year + 1, 1, 1)
  }

  lemma DaysInYear(y: int)
    requires y >= 1
    ensures DaysBeforeYear(y + 1) == DaysBeforeYear(y) + (if IsLeapYear(y) then 366 else 365)
  {
    var p := y - 1;
    assert (p + 1) / 4 == p / 4 + (if y % 4 == 0 then 1 else 0);
    assert (p + 1) / 100 == p / 100 + (if y % 100 == 0 then 1 else 0);
    assert (p + 1) / 400 == p / 400 + (if y % 400 == 0 then 1 else 0);
  }

  lemma MonthsAreContiguous(y: int, m: int)
    requires 1 <= m < 12
    ensures DaysBeforeMonth(y, m + 1) == DaysBeforeMonth(y, m) + DaysInMonth(y, m)
  {
  }

  lemma OrdinalOfNextDay(d: Date)
    requires ValidDate(d) && d != Date(9999, 12, 31)
    ensures Ordinal(NextDay(d)) == Ordinal(d) + 1
  {
    if d.day == DaysInMonth(d.year, d.month) {
      if d.month < 12 {
        MonthsAreContiguous(d.year, d.month);
      } else {
        DaysInYear(d.year);
      }
    }
  }

  /** Consecutive days have consecutive ordinals, so the weekday advances by one. */
  lemma WeekdayOfNextDay(d: Date)
    requires ValidDate(d) && d != Date(9999, 12, 31)
    ensures DayOfWeek(NextDay(d)) == (DayOfWeek(d) + 1) % 7
  {
    OrdinalOfNextDay(d);
    WeekdayAdvances(Ordinal(d) + 6);
  }

  lemma WeekdayAdvances(x: int)
    ensures (x + 1) % 7 == (x % 7 + 1) % 7
  {
    var q := x / 7;
    assert x == 7 * q + x % 7;
    if x % 7 == 6 {
      assert x + 1 == 7 * (q + 1);
    } else {
      assert x + 1 == 7 * q + (x % 7 + 1);
    }
  }

  /** 24, 25 and 31 December, the dates with a holiday tag. */
  predicate IsHoliday(month: int, day: int) {
    month == 12 && (day == 24 || day == 25 || day == 31)
  }

  /** The priority-ordered case split of `get_day_type` on month, day and weekday. */
  function Classify(month: int, day: int, weekday: int): DayType {
    if month == 12 && day == 24 then ChristmasEve
    else if month == 12 && day == 25 then ChristmasDay
    else if month == 12 && day == 31 then NewYear
    else if weekday >= 5 then Weekend
    else Weekday
  }

  /** `get_day_type(date)`. */
  function GetDayType(d: Date): (t: DayType)
    requires ValidDate(d)
    ensures t == ChristmasEve <==> d.month == 12 && d.day == 24
    ensures t == ChristmasDay <==> d.month == 12 && d.day == 25
    ensures t == NewYear <==> d.month == 12 && d.day == 31
    ensures t == Weekend <==> !IsHoliday(d.month, d.day) && DayOfWeek(d) >= 5
    ensures t == Weekday <==> !IsHoliday(d.month, d.day) && DayOfWeek(d) < 5
  {
    Classify(d.month, d.day, DayOfWeek(d))
  }

  /** `is_december(date)`. */
  predicate IsDecember(d: Date): (b: bool)
    ensures b <==> d.month == 12
    ensures b && ValidDate(d) ==> DaysInMonth(d.year, d.month) == 31 && 1 <= d.day <= 31
  {
    d.month == 12
  }

  /** Outside December only the weekday/weekend split applies. */
  lemma NonDecemberHasNoHolidayTag(d: Date)
    requires ValidDate(d) && !IsDecember(d)
    ensures GetDayType(d) == (if DayOfWeek(d) >= 5 then Weekend else Weekday)
  {
  }

  /** Two dates agreeing on month, day and weekday get the same tag. */
  lemma DayTypeDependsOnMonthDayWeekday(d: Date, e: Date)
    requires ValidDate(d) && ValidDate(e)
    requires d.month == e.month && d.day == e.day && DayOfWeek(d) == DayOfWeek(e)
    ensures GetDayType(d) == GetDayType(e)
  {
  }

  /** 25 December 2025 is a Thursday and is tagged Christmas Day. */
  lemma ChristmasDay2025()
    ensures DayOfWeek(Date(2025, 12, 25)) == 3
    ensures GetDayType(Date(2025, 12, 25)) == ChristmasDay
  {
  }

  /** 24 December 2022 is a Saturday, yet the holiday tag wins over the weekend. */
  lemma ChristmasEveOnSaturday()
    ensures DayOfWeek(Date(2022, 12, 24)) == 5
    ensures GetDayType(Date(2022, 12, 24)) == ChristmasEve
  {
  }

  /** 6 December 2025 is a Saturday and is tagged as a weekend. */
  lemma SaturdaySixthDecember2025()
    ensures GetDayType(Date(2025, 12, 6)) == Weekend
  {
  }
}
