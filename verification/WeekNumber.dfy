/** WEEK and YEARWEEK in all eight modes. */
module WeekNumber {
  import opened Calendar

  /** The length of a year as mc_calc_days_in_year tests it: the distance between New Years. */
  function CalcDaysInYear(year: nat): (n: nat)
    ensures NewYear(year + 1) == NewYear(year) + n && 365 <= n <= 366
  {
    if year % 4 == 0 && (year % 100 != 0 || (year % 400 == 0 && year != 0)) then 366 else 365
  }

  /** The three week-format bits. */
  datatype Format = Format(mondayFirst: bool, weekYear: bool, firstWeekday: bool)

  /** mc_week_mode: bit 2 is flipped unless weeks start on Monday.  The contract is the table of
      modes in MariaDB's documentation of WEEK(). */
  function WeekMode(mode: int): (f: Format)
    ensures f.mondayFirst <==> mode % 8 in {1, 3, 5, 7}
    ensures f.weekYear <==> mode % 8 in {2, 3, 6, 7}
    ensures f.firstWeekday <==> mode % 8 in {0, 2, 5, 7}
  {
    var m := mode % 8;
    var monday := m % 2 == 1;
    Format(monday, m / 2 % 2 == 1, if monday then m / 4 == 1 else m / 4 == 0)
  }

  /** Days since the week began: 0 on the first day of a week. */
  function CalcWeekday(daynr: int, sundayFirst: bool): int {
    (daynr + 5 + if sundayFirst then 1 else 0) % 7
  }

  function WeekStart(daynr: int, f: Format): int {
    daynr - CalcWeekday(daynr, !f.mondayFirst)
  }

  /** The week in which the year begins belongs to the year before: it lacks the first weekday,
      or has fewer than four days in the new year. */
  predicate StartsLate(weekday: int, f: Format) {
    if f.firstWeekday then weekday != 0 else weekday >= 4
  }

  /** The first day of week 1 of a year. */
  function FirstWeek(year: nat, f: Format): int {
    var jan1 := NewYear(year);
    var weekday := CalcWeekday(jan1, !f.mondayFirst);
    if StartsLate(weekday, f) then jan1 + 7 - weekday else jan1 - weekday
  }

  /** The date is in week `week` of week-year `year`: the reference definition. */
  predicate InWeek(daynr: int, year: nat, week: int, f: Format) {
    FirstWeek(year, f) <= daynr < FirstWeek(year + 1, f) && week == (daynr - FirstWeek(year, f)) / 7 + 1
  }

  /** The result for a date of calendar year `own`: with the week-year bit, the week and year of
      the reference definition; without it, days before week 1 of their own year are in week 0. */
  predicate IsWeek(daynr: int, own: nat, week: int, year: nat, f: Format) {
    if f.weekYear then InWeek(daynr, year, week, f)
    else week == if daynr < FirstWeek(own, f) then 0 else (daynr - FirstWeek(own, f)) / 7 + 1
  }

  /** A week-year has 52 or 53 whole weeks. */
  lemma WeekYearLength(year: nat, f: Format)
    ensures FirstWeek(year + 1, f) - FirstWeek(year, f) == 364 || FirstWeek(year + 1, f) - FirstWeek(year, f) == 371
    ensures WeekStart(FirstWeek(year, f), f) == FirstWeek(year, f)
  {
    var n, jan1, sunday := CalcDaysInYear(year), NewYear(year), !f.mondayFirst;
    hide NewYear;
    NextWeekday(jan1, n - 364, sunday);
    FirstDay(jan1, CalcWeekday(jan1, sunday), sunday);
    FirstDay(jan1 + 7, CalcWeekday(jan1, sunday), sunday);
    hide CalcWeekday;
  }

  lemma NextWeekday(daynr: int, k: nat, sundayFirst: bool)
    requires k <= 7
    ensures var w := CalcWeekday(daynr, sundayFirst);
            0 <= w < 7 && CalcWeekday(daynr + 364 + k, sundayFirst) == if w + k >= 7 then w + k - 7 else w + k
    ensures CalcWeekday(daynr + 7, sundayFirst) == CalcWeekday(daynr, sundayFirst)
  {
  }

  lemma FirstDay(daynr: int, w: int, sundayFirst: bool)
    requires w == CalcWeekday(daynr, sundayFirst)
    ensures CalcWeekday(daynr - w, sundayFirst) == 0
  {
  }

  /** Week 1 is the first week that begins in the year, or the first with at least four days in it. */
  lemma WeekOneRule(year: nat, f: Format, start: int)
    requires WeekStart(start, f) == start
    ensures f.firstWeekday ==> (start == FirstWeek(year, f) <==> start - 7 < NewYear(year) <= start)
    ensures !f.firstWeekday ==>
              (start == FirstWeek(year, f) <==> start + 7 - NewYear(year) >= 4 > start - NewYear(year))
  {
    hide NewYear;
  }

  function NewYearWeekday(year: nat, f: Format): nat {
    CalcWeekday(NewYear(year), !f.mondayFirst)
  }

  /** The weekday of the next and of the previous New Year, as the code derives them. */
  lemma WeekdaySteps(year: nat, f: Format)
    ensures NewYearWeekday(year + 1, f) == (NewYearWeekday(year, f) + CalcDaysInYear(year)) % 7
    ensures NewYearWeekday(year, f) == (NewYearWeekday(year + 1, f) + 53 * 7 - CalcDaysInYear(year)) % 7
  {
    var n := CalcDaysInYear(year);
    hide NewYear;
  }

  /** Days in the week that holds New Year, seen from the year before. */
  lemma EarlyDays(daynr: int, year: nat, f: Format)
    requires year >= 1 && NewYear(year) <= daynr < NewYear(year) + 7 - NewYearWeekday(year, f)
    ensures var days := daynr - FirstWeek(year - 1, f); var late := StartsLate(NewYearWeekday(year, f), f);
            && days >= 0 && (!late ==> days >= 364)
            && (late && !f.weekYear ==> IsWeek(daynr, year, 0, year, f))
            && (late && f.weekYear ==> IsWeek(daynr, year, days / 7 + 1, year - 1, f))
            && (!late ==> IsWeek(daynr, year, 1, year, f))
  {
    WeekYearLength(year - 1, f);
    WeekYearLength(year, f);
    hide NewYear;
    var n := CalcDaysInYear(year - 1);
  }

  /** Later days of a year, the last of which may be in week 1 of the next. */
  lemma LaterDays(daynr: int, year: nat, f: Format)
    requires NewYear(year) + 7 - NewYearWeekday(year, f) <= daynr < NewYear(year + 1)
    ensures var days := daynr - FirstWeek(year, f);
            && days >= 0
            && if f.weekYear && days >= 364 && !StartsLate(NewYearWeekday(year + 1, f), f)
               then IsWeek(daynr, year, 1, year + 1, f)
               else IsWeek(daynr, year, days / 7 + 1, year, f)
  {
    WeekYearLength(year, f);
    WeekYearLength(year + 1, f);
    hide NewYear;
    var n, m := CalcDaysInYear(year), CalcDaysInYear(year + 1);
  }

  lemma DayOfYear(date: Date)
    requires ValidDate(date)
    ensures date.month == 1 ==> DayNumber(date) == NewYear(date.year) + date.day - 1
    ensures date.month > 1 ==> DayNumber(date) >= NewYear(date.year) + 31
  {
    assert DaysBeforeMonth(date.year, 1) == 0;
    if date.month > 1 { MonthsGrow(date.year, 1, date.month); }
  }

  lemma FirstWeekIs(year: nat, f: Format)
    ensures var weekday := NewYearWeekday(year, f);
            FirstWeek(year, f) == NewYear(year) - weekday + if StartsLate(weekday, f) then 7 else 0
    ensures NewYearWeekday(year, f) <= 6 && NewYearWeekday(year, f) == CalcWeekday(NewYear(year), !f.mondayFirst)
  {
  }

  /** The second half of mc_calc_week: weeks counted from year `base`.  `days` is unsigned in the
      code; here it is a nat, so it never wraps. */
  method CountWeeks(daynr: int, base: nat, firstDaynr: int, newYearWeekday: nat, weekYear: bool, f: Format)
    returns (week: nat, year: nat)
    requires firstDaynr == NewYear(base) && newYearWeekday == NewYearWeekday(base, f) && daynr >= FirstWeek(base, f)
    ensures var days := daynr - FirstWeek(base, f);
            if weekYear && days >= 364 && !StartsLate(NewYearWeekday(base + 1, f), f) then week == 1 && year == base + 1
            else week == days / 7 + 1 && year == base
  {
    hide *;
    FirstWeekIs(base, f);
    WeekdaySteps(base, f);
    var days: nat;
    var weekday := newYearWeekday;
    year := base;
    if StartsLate(weekday, f) {
      days := daynr - (firstDaynr + (7 - weekday));
    } else {
      days := daynr - (firstDaynr - weekday);
    }
    if weekYear && days >= 52 * 7 {
      weekday := (weekday + CalcDaysInYear(year)) % 7;
      if !StartsLate(weekday, f) {
        return 1, year + 1;
      }
    }
    week := days / 7 + 1;
  }

  /** mc_calc_week, for every valid date from year 1 on. */
  method CalcWeek(date: Date, f: Format) returns (week: nat, year: nat)
    requires ValidDate(date) && date.year >= 1
    ensures IsWeek(DayNumber(date), date.year, week, year, f)
  {
    var daynr := CalcDaynr(date.year, date.month, date.day);
    var firstDaynr := CalcDaynr(date.year, 1, 1);
    DayOfYear(Date(date.year, 1, 1));
    WithinYear(date);
    DayOfYear(date);
    hide *;
    FirstWeekIs(date.year, f);
    var weekYear := f.weekYear;
    var weekday: nat := CalcWeekday(firstDaynr, !f.mondayFirst);
    year := date.year;
    if date.month == 1 && date.day <= 7 - weekday {
      EarlyDays(daynr, year, f);
      if !weekYear && StartsLate(weekday, f) { return 0, year; }
      weekYear := true;
      year := year - 1;
      var days := CalcDaysInYear(year);
      firstDaynr := firstDaynr - days;
      WeekdaySteps(year, f);
      weekday := (weekday + 53 * 7 - days) % 7;
    } else {
      LaterDays(daynr, year, f);
    }
    week, year := CountWeeks(daynr, year, firstDaynr, weekday, weekYear, f);
  }

  /** YEARWEEK(date, mode): the week-year bit is always set; the week is in the last two digits. */
  method YearWeek(date: Date, mode: int) returns (r: nat)
    requires ValidDate(date) && date.year >= 1
    ensures InWeek(DayNumber(date), r / 100, r % 100, WeekMode(mode).(weekYear := true))
  {
    var week, year := CalcWeek(date, WeekMode(mode).(weekYear := true));
    WeekNumberRange(DayNumber(date), year, week, WeekMode(mode).(weekYear := true));
    hide *;
    r := week + year * 100;
  }

  lemma WeekNumberRange(daynr: int, year: nat, week: int, f: Format)
    requires InWeek(daynr, year, week, f)
    ensures 1 <= week <= 53
    ensures WeekStart(daynr, f) == FirstWeek(year, f) + 7 * (week - 1)
  {
    WeekYearLength(year, f);
    hide FirstWeek;
  }

  lemma {:induction false} FirstWeeksGrow(y: nat, z: nat, f: Format)
    requires y <= z
    ensures FirstWeek(y, f) <= FirstWeek(z, f)
    decreases z - y
  {
    if y < z {
      WeekYearLength(y, f);
      FirstWeeksGrow(y + 1, z, f);
    }
  }

  /** In every mode YEARWEEK never decreases with the date, and two dates have the same YEARWEEK
      exactly when they are in the same seven-day week of that mode. */
  lemma YearWeekFollowsWeeks(d: int, e: int, r: nat, s: nat, f: Format)
    requires InWeek(d, r / 100, r % 100, f) && InWeek(e, s / 100, s % 100, f) && d <= e
    ensures r <= s
    ensures r == s <==> WeekStart(d, f) == WeekStart(e, f)
  {
    var y, z := r / 100, s / 100;
    WeekNumberRange(d, y, r % 100, f);
    WeekNumberRange(e, z, s % 100, f);
    if y < z { FirstWeeksGrow(y + 1, z, f); }
    if z < y { FirstWeeksGrow(z + 1, y, f); }
    hide FirstWeek, WeekStart;
  }

  /** The same of YEARWEEK itself, called on two dates. */
  method YearWeeks(a: Date, b: Date, mode: int) returns (r: nat, s: nat)
    requires ValidDate(a) && ValidDate(b) && a.year >= 1 && b.year >= 1
    ensures Earlier(a, b) ==> r <= s
    ensures var f := WeekMode(mode).(weekYear := true);
            r == s <==> WeekStart(DayNumber(a), f) == WeekStart(DayNumber(b), f)
  {
    r := YearWeek(a, mode);
    s := YearWeek(b, mode);
    ghost var f := WeekMode(mode).(weekYear := true);
    hide InWeek, WeekStart, DayNumber, WeekMode;
    if Earlier(a, b) { DayNumberIsMonotone(a, b); }
    if DayNumber(a) <= DayNumber(b) { YearWeekFollowsWeeks(DayNumber(a), DayNumber(b), r, s, f); }
    else { YearWeekFollowsWeeks(DayNumber(b), DayNumber(a), s, r, f); }
  }

  /** The calendar week number of ISO 8601: weeks start on Monday, a week belongs to the year that
      holds its Thursday, and its number counts the Thursdays of that year up to it. */
  predicate IsoWeek(daynr: int, year: nat, week: int) {
    var thursday := daynr - CalcWeekday(daynr, false) + 3;
    NewYear(year) <= thursday < NewYear(year + 1) && week == (thursday - NewYear(year)) / 7 + 1
  }

  /** Week 1 is the week of the year's first Thursday. */
  lemma FirstThursday(year: nat)
    ensures var s := FirstWeek(year, WeekMode(3));
            CalcWeekday(s, false) == 0 && NewYear(year) <= s + 3 <= NewYear(year) + 6
  {
    hide NewYear;
  }

  lemma ThursdayInYear(monday: int, year: nat)
    requires CalcWeekday(monday, false) == 0
    ensures var s := FirstWeek(year, WeekMode(3));
            && (NewYear(year) <= monday + 3 <==> s <= monday)
            && (monday + 3 - NewYear(year)) / 7 == (monday - s) / 7 && (monday - s) % 7 == 0
  {
    FirstThursday(year);
    hide NewYear, FirstWeek;
  }

  /** Weekdays are anchored: 1970-01-01 was a Thursday. */
  lemma EpochIsThursday()
    ensures CalcWeekday(DayNumber(Date(1970, 1, 1)), false) == 3 && CalcWeekday(DayNumber(Date(1970, 1, 1)), true) == 4
  {
    UnixEpoch();
  }

  /** Mode 3 is the ISO week. */
  lemma ModeThreeIsIso(daynr: int, year: nat, week: int)
    ensures InWeek(daynr, year, week, WeekMode(3)) <==> IsoWeek(daynr, year, week)
  {
    var monday := daynr - CalcWeekday(daynr, false);
    FirstDay(daynr, CalcWeekday(daynr, false), false);
    ThursdayInYear(monday, year);
    ThursdayInYear(monday, year + 1);
    SameWeek(daynr, monday, FirstWeek(year, WeekMode(3)));
    SameWeek(daynr, monday, FirstWeek(year + 1, WeekMode(3)));
    hide NewYear, FirstWeek, CalcWeekday;
  }

  /** A day and the Monday of its week are equally many weeks after a Monday. */
  lemma SameWeek(daynr: int, monday: int, start: int)
    requires 0 <= daynr - monday < 7 && (monday - start) % 7 == 0
    ensures (start <= daynr <==> start <= monday) && (daynr - start) / 7 == (monday - start) / 7
  {
  }
}
