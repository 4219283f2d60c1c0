// Ages by day of the year, as internal/store/validate.go and
// internal/store/candidacy.go compute them, against ages by month and day.
module Calendar {

  predicate IsLeap(year: int) {
    year % 4 == 0 && (year % 100 != 0 || year % 400 == 0)
  }

  function MonthLength(leap: bool, month: int): int {
    if month == 2 then (if leap then 29 else 28)
    else if month == 4 || month == 6 || month == 9 || month == 11 then 30
    else 31
  }

  datatype Date = Date(year: int, month: int, day: int)

  predicate IsDate(d: Date) {
    1 <= d.month <= 12 && 1 <= d.day <= MonthLength(IsLeap(d.year), d.month)
  }

  /** A date that exists; what time.Parse yields. */
  type Day = d: Date | IsDate(d) witness Date(2000, 1, 1)

  /** The days of a year before the first of a month. */
  function DaysBefore(leap: bool, month: int): int
    requires 1 <= month <= 13
    decreases month
  {
    if month == 1 then 0 else DaysBefore(leap, month - 1) + MonthLength(leap, month - 1)
  }

  /** time.Time.YearDay. */
  function YearDay(d: Date): int
    requires IsDate(d)
  {
    DaysBefore(IsLeap(d.year), d.month) + d.day
  }

  /** `age` and `CandidateAge`: years, less one before the birthday's day of the year. */
  function Age(birth: Date, at: Date): int
    requires IsDate(birth) && IsDate(at)
  {
    at.year - birth.year - if YearDay(at) < YearDay(birth) then 1 else 0
  }

  /** Earlier in the year, by month and day. */
  predicate EarlierInYear(a: Date, b: Date) {
    a.month < b.month || (a.month == b.month && a.day < b.day)
  }

  predicate NotAfter(a: Date, b: Date) {
    a.year < b.year || (a.year == b.year && !EarlierInYear(b, a))
  }

  /** Age as one counts it: a year is complete on the birthday. */
  function CalendarAge(birth: Date, at: Date): int {
    at.year - birth.year - if EarlierInYear(at, birth) then 1 else 0
  }

  lemma DaysBeforeTable(month: int)
    requires 1 <= month <= 12
    ensures DaysBefore(true, month) == DaysBefore(false, month) + if month > 2 then 1 else 0
  {
    if month > 1 { DaysBeforeTable(month - 1); }
  }

  lemma {:induction false} MonthsInOrder(leap: bool, a: int, b: int)
    requires 1 <= a < b <= 13
    ensures DaysBefore(leap, a) + MonthLength(leap, a) <= DaysBefore(leap, b)
    decreases b
  {
    if a < b - 1 { MonthsInOrder(leap, a, b - 1); }
  }

  /** Twelve months make the year; a leap year has one day more, in February. */
  lemma YearHasItsDays(year: int)
    ensures var days := if year % 400 == 0 || (year % 4 == 0 && year % 100 != 0) then 366 else 365;
      DaysBefore(IsLeap(year), 13) == days && MonthLength(IsLeap(year), 2) == days - 337
    ensures [MonthLength(IsLeap(year), 1), MonthLength(IsLeap(year), 3), MonthLength(IsLeap(year), 4),
             MonthLength(IsLeap(year), 5), MonthLength(IsLeap(year), 6), MonthLength(IsLeap(year), 7),
             MonthLength(IsLeap(year), 8), MonthLength(IsLeap(year), 9), MonthLength(IsLeap(year), 10),
             MonthLength(IsLeap(year), 11), MonthLength(IsLeap(year), 12)]
      == [31, 31, 30, 31, 30, 31, 31, 30, 31, 30, 31]
  {
    var leap := IsLeap(year);
    assert DaysBefore(leap, 5) == DaysBefore(leap, 3) + 61;
    assert DaysBefore(leap, 9) == DaysBefore(leap, 5) + 123;
    assert DaysBefore(leap, 13) == DaysBefore(leap, 9) + 122;
  }

  /** Days of the year follow the calendar inside one year. */
  lemma YearDayFollowsCalendar(a: Date, b: Date)
    requires IsDate(a) && IsDate(b) && IsLeap(a.year) == IsLeap(b.year)
    ensures YearDay(a) < YearDay(b) <==> EarlierInYear(a, b)
  {
    if a.month < b.month {
      MonthsInOrder(IsLeap(a.year), a.month, b.month);
    } else if b.month < a.month {
      MonthsInOrder(IsLeap(a.year), b.month, a.month);
    }
  }

  /** A member never gets younger. */
  lemma AgeIsMonotone(birth: Date, a: Date, b: Date)
    requires IsDate(birth) && IsDate(a) && IsDate(b) && NotAfter(a, b)
    ensures Age(birth, a) <= Age(birth, b)
  {
    if a.year == b.year { YearDayFollowsCalendar(b, a); }
  }

  /** Read in one year, the month and day of `b` come right before those of `a`. */
  predicate IsDayBefore(b: Date, a: Date) {
    || (b.month == a.month && b.day + 1 == a.day)
    || (b.month + 1 == a.month && a.day == 1 && b.day == MonthLength(IsLeap(b.year), b.month))
  }

  lemma NextDay(leap: bool, a: Date, month: int, day: int)
    requires 1 <= month <= 12 && 1 <= day <= MonthLength(leap, month)
    requires 1 <= a.month <= 12 && 1 <= a.day <= MonthLength(leap, a.month)
    ensures DaysBefore(leap, month) + day + 1 == DaysBefore(leap, a.month) + a.day <==>
      (month == a.month && day + 1 == a.day) || (month + 1 == a.month && a.day == 1 && day == MonthLength(leap, month))
  {
    if month < a.month {
      MonthsInOrder(leap, month, a.month);
      if month + 1 < a.month {
        MonthsInOrder(leap, month + 1, a.month);
      }
    } else if a.month < month {
      MonthsInOrder(leap, a.month, month);
    }
  }

  /**
   * The two ages differ on exactly one day of a year, and only when one of the two
   * years is leap and the birthday falls after February: a member born in a leap
   * year turns a year older one day late in a common year, a member born in a
   * common year one day early in a leap year.
   */
  lemma AgesDifferIff(birth: Date, at: Date)
    requires IsDate(birth) && IsDate(at)
    ensures Age(birth, at) < CalendarAge(birth, at) <==>
      IsLeap(birth.year) && !IsLeap(at.year) && birth.month > 2 && at.month == birth.month && at.day == birth.day
    ensures Age(birth, at) > CalendarAge(birth, at) <==>
      !IsLeap(birth.year) && IsLeap(at.year) && birth.month > 2 && IsDayBefore(at, birth)
    ensures -1 <= Age(birth, at) - CalendarAge(birth, at) <= 1
  {
    DaysBeforeTable(birth.month);
    DaysBeforeTable(at.month);
    var leap := IsLeap(at.year);
    if IsLeap(birth.year) == leap {
      YearDayFollowsCalendar(at, birth);
    } else if birth.month == 2 && birth.day == 29 {
      if at.month > 2 { MonthsInOrder(leap, 2, at.month); }
    } else {
      // the birthday as a date of the year of `at`
      var here := Date(at.year, birth.month, birth.day);
      YearDayFollowsCalendar(at, here);
      YearDayFollowsCalendar(here, at);
      NextDay(leap, here, at.month, at.day);
    }
  }

  /** In one year they differ on at most one day. */
  lemma DifferOnOneDayAYear(birth: Date, a: Date, b: Date)
    requires IsDate(birth) && IsDate(a) && IsDate(b) && a.year == b.year
    requires Age(birth, a) != CalendarAge(birth, a) && Age(birth, b) != CalendarAge(birth, b)
    ensures a == b
  {
    AgesDifferIff(birth, a);
    AgesDifferIff(birth, b);
  }

  /** The day of the year on which the two ages differ, when there is one. */
  lemma SomeDayDiffers(birth: Date, year: int)
    requires IsDate(birth) && birth.month > 2 && IsLeap(birth.year) != IsLeap(year)
    ensures exists at: Date :: IsDate(at) && at.year == year && Age(birth, at) != CalendarAge(birth, at)
  {
    var at := if IsLeap(birth.year) then Date(year, birth.month, birth.day)
              else if birth.day > 1 then Date(year, birth.month, birth.day - 1)
              else Date(year, birth.month - 1, MonthLength(IsLeap(year), birth.month - 1));
    assert IsDate(at);
    AgesDifferIff(birth, at);
  }
}
