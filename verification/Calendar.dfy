/**
 The proleptic Gregorian calendar and ISO weeks, on day numbers: day 0 is
 Monday, 1 January of year 1.
 */
module Calendar {
  import opened Types

  predicate IsLeap(y: int) { y % 4 == 0 && (y % 100 != 0 || y % 400 == 0) }

  function YearLength(y: int): int { if IsLeap(y) then 366 else 365 }

  /** Number of days from day 0 to 1 January of year `y`. */
  function DaysBefore(y: int): int
    decreases if y > 1 then y else 1 - y
  {
    if y == 1 then 0
    else if y > 1 then DaysBefore(y - 1) + YearLength(y - 1)
    else DaysBefore(y + 1) - YearLength(y)
  }

  lemma NextYear(y: int)
    ensures DaysBefore(y + 1) == DaysBefore(y) + YearLength(y)
  {
  }

  /** The year from `y` on that contains the day. */
  function YearFrom(day: int, y: int): (r: int)
    requires DaysBefore(y) <= day
    ensures y <= r && DaysBefore(r) <= day < DaysBefore(r + 1)
    decreases day - DaysBefore(y)
  {
    NextYear(y);
    if day < DaysBefore(y + 1) then y else YearFrom(day, y + 1)
  }

  function YearOf(day: nat): (y: int)
    ensures 1 <= y && DaysBefore(y) <= day < DaysBefore(y + 1)
  {
    assert DaysBefore(1) == 0;
    YearFrom(day, 1)
  }

  lemma {:induction false} DaysBeforeMonotone(y: int, z: int)
    requires y <= z
    ensures DaysBefore(y) <= DaysBefore(z)
    decreases z - y
  {
    if y < z {
      NextYear(y);
      DaysBeforeMonotone(y + 1, z);
    }
  }

  lemma YearUnique(day: nat, y: int)
    requires DaysBefore(y) <= day < DaysBefore(y + 1)
    ensures YearOf(day) == y
  {
    var z := YearOf(day);
    if y < z { DaysBeforeMonotone(y + 1, z); }
    if z < y { DaysBeforeMonotone(z + 1, y); }
  }

  // --------------------------------------------------------------- ISO weeks

  /** `time.Weekday`: Sunday is 0. */
  function Weekday(day: int): int { (day + 1) % 7 }

  /** The weekday with Sunday as 7. */
  function IsoWeekday(day: int): int { if Weekday(day) == 0 then 7 else Weekday(day) }

  /** `isoWeekStart`: the Monday of a day's week. */
  function IsoWeekStart(day: int): (m: int)
    ensures m % 7 == 0 && m <= day < m + 7
  {
    day - (IsoWeekday(day) - 1)
  }

  /** ISO year and week of a day: those of its week's Thursday. */
  function IsoWeek(day: nat): (r: (int, int))
    ensures r.0 >= 1 && r.1 >= 1
  {
    WeekAt(IsoWeekStart(day) + 3)
  }

  function WeekAt(thursday: nat): (r: (int, int))
    ensures r.0 >= 1 && r.1 >= 1
  {
    var y := YearOf(thursday);
    (y, (thursday - DaysBefore(y)) / 7 + 1)
  }

  /** `isoWeekStartYW`: the Monday of an ISO week, counted from the week of 4 January. */
  function IsoWeekStartYW(year: int, week: int): int {
    var jan4 := DaysBefore(year) + 3;
    var mondayWeek1 := IsoWeekStart(jan4);
    mondayWeek1 + (week - 1) * 7
  }

  lemma Quotient(k: int, j: int, r: int)
    requires k == 7 * j + r && 0 <= r < 7
    ensures k / 7 == j && k % 7 == r
  {
  }

  lemma MondaysApart(a: int, b: int) returns (j: int)
    requires a % 7 == 0 && b % 7 == 0
    ensures a - b == 7 * j
  {
    j := a / 7 - b / 7;
  }

  /** Weeks from the week of day `d + 3` to a Monday, where `d` is the first day of a year. */
  lemma WeeksFromWeekOne(monday: int, d: int)
    requires monday % 7 == 0
    ensures IsoWeekStart(d + 3) + (monday + 3 - d) / 7 * 7 == monday
  {
    var m1 := IsoWeekStart(d + 3);
    var j := MondaysApart(monday, m1);
    Quotient(monday + 3 - d, j, m1 + 3 - d);
  }

  /** Every Monday is the start of its own ISO week. */
  lemma MondayRoundTrip(monday: nat)
    requires monday % 7 == 0
    ensures IsoWeekStartYW(IsoWeek(monday).0, IsoWeek(monday).1) == monday
  {
    WeekOfMonday(monday);
    WeeksFromWeekOne(monday, DaysBefore(YearOf(monday + 3)));
  }

  lemma WeekOfMonday(monday: int)
    requires monday % 7 == 0
    ensures IsoWeekStart(monday) == monday
  {
    var j := MondaysApart(monday, IsoWeekStart(monday));
  }

  /** ISO weeks that year `y` has: 53 when it has 53 Thursdays. */
  function WeeksIn(y: int): int { if HasLongYear(y) then 53 else 52 }

  /** The year starts on a Thursday, or on a Wednesday and is leap. */
  predicate HasLongYear(y: int) { StartsLong(DaysBefore(y), IsLeap(y)) }

  predicate StartsLong(d: int, leap: bool) { d % 7 == 3 || (d % 7 == 2 && leap) }

  lemma LastThursday(d: int, leap: bool, w: int)
    ensures IsoWeekStart(d + 3) + (w - 1) * 7 + 3 < d + (if leap then 366 else 365)
       <==> w <= if StartsLong(d, leap) then 53 else 52
  {
    var m1 := IsoWeekStart(d + 3);
    var q, r := d / 7, d % 7;
    var j := MondaysApart(m1, 7 * q);
    assert m1 == 7 * q + if r <= 3 then 0 else 7;
  }

  /** The Thursday of week `w` is in the year exactly when `w` is at most its number of weeks. */
  lemma ThursdayInYear(y: int, w: int)
    ensures IsoWeekStartYW(y, w) + 3 < DaysBefore(y + 1) <==> w <= WeeksIn(y)
  {
    NextYear(y);
    LastThursday(DaysBefore(y), IsLeap(y), w);
  }

  lemma WeekIndex(d: int, w: int)
    requires w >= 1
    ensures var m := IsoWeekStart(d + 3) + (w - 1) * 7;
            m % 7 == 0 && d <= m + 3 && (m + 3 - d) / 7 + 1 == w
  {
    var m1 := IsoWeekStart(d + 3);
    Quotient(m1 + (w - 1) * 7 + 3 - d, w - 1, m1 + 3 - d);
    var q := m1 / 7;
    Quotient(m1 + (w - 1) * 7, q + w - 1, 0);
  }

  /** The week numbers that occur are those of the year. */
  lemma WeekNumbers(day: nat)
    ensures 1 <= IsoWeek(day).1 <= WeeksIn(IsoWeek(day).0)
  {
    var m := IsoWeekStart(day);
    WeekOfMonday(m);
    MondayRoundTrip(m);
    ThursdayInYear(IsoWeek(m).0, IsoWeek(m).1);
  }

  /** Year and week come back from the Monday they name exactly when the week exists in that year. */
  lemma YearWeekRoundTripExactly(y: int, w: int)
    requires IsoWeekStartYW(y, w) >= 0
    ensures IsoWeek(IsoWeekStartYW(y, w)) == (y, w) <==> 1 <= w <= WeeksIn(y)
  {
    var m := IsoWeekStartYW(y, w);
    WeekNumbers(m);
    if 1 <= w <= WeeksIn(y) { ExistingWeek(y, w); }
  }

  lemma ExistingWeek(y: int, w: int)
    requires 1 <= w <= WeeksIn(y) && IsoWeekStartYW(y, w) >= 0
    ensures IsoWeek(IsoWeekStartYW(y, w)) == (y, w)
  {
    WeekIndex(DaysBefore(y), w);
    ThursdayInYear(y, w);
    WeekOfThursday(IsoWeekStartYW(y, w), y);
  }

  lemma WeekOfThursday(monday: nat, y: int)
    requires monday % 7 == 0 && DaysBefore(y) <= monday + 3 < DaysBefore(y + 1)
    ensures IsoWeek(monday) == (y, (monday + 3 - DaysBefore(y)) / 7 + 1)
  {
    assert IsoWeekStart(monday) == monday by { WeekOfMonday(monday); }
    assert YearOf(monday + 3) == y by { YearUnique(monday + 3, y); }
    assert IsoWeek(monday) == WeekAt(monday + 3);
  }

  // ------------------------------------------------------------ months and days

  /** Days of a year before month `m`; month 13 stands for the end of the year. */
  function DaysBeforeMonth(m: int, leap: bool): int
    requires 1 <= m <= 13
  {
    var n := if m == 1 then 0 else if m == 2 then 31 else if m == 3 then 59 else if m == 4 then 90
             else if m == 5 then 120 else if m == 6 then 151 else if m == 7 then 181 else if m == 8 then 212
             else if m == 9 then 243 else if m == 10 then 273 else if m == 11 then 304 else if m == 12 then 334 else 365;
    if leap && m > 2 then n + 1 else n
  }

  function MonthFrom(yday: int, leap: bool, m: int): (r: int)
    requires 1 <= m <= 12 && DaysBeforeMonth(m, leap) <= yday < DaysBeforeMonth(13, leap)
    ensures m <= r <= 12 && DaysBeforeMonth(r, leap) <= yday < DaysBeforeMonth(r + 1, leap)
    decreases 12 - m
  {
    if yday < DaysBeforeMonth(m + 1, leap) then m else MonthFrom(yday, leap, m + 1)
  }

  datatype Date = Date(year: int, month: int, day: int)

  function DateOf(day: nat): (d: Date)
    ensures d.year >= 1 && 1 <= d.month <= 12 && 1 <= d.day <= 31
  {
    var y := YearOf(day);
    NextYear(y);
    var yday := day - DaysBefore(y);
    var m := MonthFrom(yday, IsLeap(y), 1);
    Date(y, m, yday - DaysBeforeMonth(m, IsLeap(y)) + 1)
  }

  predicate ValidDate(d: Date) {
    d.year >= 0 && 1 <= d.month <= 12
    && 1 <= d.day <= DaysBeforeMonth(d.month + 1, IsLeap(d.year)) - DaysBeforeMonth(d.month, IsLeap(d.year))
  }

  function DayNumber(d: Date): int
    requires ValidDate(d)
  {
    DaysBefore(d.year) + DaysBeforeMonth(d.month, IsLeap(d.year)) + d.day - 1
  }

  lemma DateRoundTrip(day: nat)
    ensures ValidDate(DateOf(day)) && DayNumber(DateOf(day)) == day
  {
    NextYear(YearOf(day));
  }
}
