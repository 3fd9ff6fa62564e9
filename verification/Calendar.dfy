/** Day numbers of the proleptic Gregorian calendar, by counting days and by the closed form
    that calc_daynr uses. */
module Calendar {

  datatype Date = Date(year: nat, month: nat, day: nat)

  /** Year 0 counts as a common year. */
  predicate IsLeap(y: nat) {
    y != 0 && y % 4 == 0 && (y % 100 != 0 || y % 400 == 0)
  }

  function DaysInYear(y: nat): nat {
    if IsLeap(y) then 366 else 365
  }

  function DaysInMonth(y: nat, m: nat): nat {
    if m == 2 then (if IsLeap(y) then 29 else 28)
    else if m == 4 || m == 6 || m == 9 || m == 11 then 30
    else 31
  }

  predicate ValidDate(d: Date) {
    1 <= d.month <= 12 && 1 <= d.day <= DaysInMonth(d.year, d.month)
  }

  function DaysBeforeYear(y: nat): nat {
    if y == 0 then 0 else DaysBeforeYear(y - 1) + DaysInYear(y - 1)
  }

  function DaysBeforeMonth(y: nat, m: nat): nat {
    if m <= 1 then 0 else DaysBeforeMonth(y, m - 1) + DaysInMonth(y, m - 1)
  }

  /** The number of days from the start of year 0 up to and including the date. */
  function DayNumber(d: Date): nat {
    DaysBeforeYear(d.year) + DaysBeforeMonth(d.year, d.month) + d.day
  }

  function NewYear(y: nat): nat {
    DaysBeforeYear(y) + 1
  }

  /** The day after. */
  function NextDate(d: Date): Date {
    if d.day < DaysInMonth(d.year, d.month) then Date(d.year, d.month, d.day + 1)
    else if d.month < 12 then Date(d.year, d.month + 1, 1)
    else Date(d.year + 1, 1, 1)
  }

  /** The lengths of the months. */
  lemma MonthTable(y: nat, m: nat)
    requires 1 <= m <= 12
    ensures DaysInMonth(y, m)
         == [31, 28, 31, 30, 31, 30, 31, 31, 30, 31, 30, 31][m - 1] + (if m == 2 && DaysInYear(y) == 366 then 1 else 0)
  {
  }

  lemma {:induction false} MonthsClosedForm(y: nat, m: nat)
    requires 3 <= m <= 12
    ensures DaysBeforeMonth(y, m) == 31 * (m - 1) - (m * 4 + 23) / 10 + (if IsLeap(y) then 1 else 0)
  {
    if m == 3 {
      assert DaysBeforeMonth(y, 2) == 31;
    } else {
      MonthsClosedForm(y, m - 1);
    }
  }

  lemma MonthsFillTheYear(y: nat)
    ensures DaysBeforeMonth(y, 12) + DaysInMonth(y, 12) == DaysInYear(y)
  {
    MonthsClosedForm(y, 12);
  }

  lemma {:induction false} MonthsGrow(y: nat, m: nat, n: nat)
    requires 1 <= m < n <= 12
    ensures DaysBeforeMonth(y, m) + DaysInMonth(y, m) <= DaysBeforeMonth(y, n)
  {
    if m + 1 < n { MonthsGrow(y, m, n - 1); }
  }

  lemma {:induction false} YearsGrow(y: nat, z: nat)
    requires y < z
    ensures DaysBeforeYear(y) + DaysInYear(y) <= DaysBeforeYear(z)
  {
    if y + 1 < z { YearsGrow(y, z - 1); }
  }

  /** The next calendar date has the next day number. */
  lemma NextDateIsNextDay(d: Date)
    requires ValidDate(d)
    ensures ValidDate(NextDate(d)) && DayNumber(NextDate(d)) == DayNumber(d) + 1
  {
    MonthsFillTheYear(d.year);
  }

  // ----- the closed form -----

  /** C division truncates toward zero. */
  function CDiv(a: int, b: int): int
    requires b > 0
  {
    if a >= 0 then a / b else -(-a / b)
  }

  /** The leap days the closed form counts for year `y`. */
  function LeapTerm(y: int): int {
    CDiv(y, 4) - CDiv((CDiv(y, 100) + 1) * 3, 4)
  }

  lemma ThreeQuarters(c: nat)
    ensures (c + 1) * 3 / 4 - c * 3 / 4 == if c % 4 == 0 then 0 else 1
  {
    var t, j := 3 * (c / 4), c % 4;
    assert c * 3 == 4 * t + 3 * j && (c + 1) * 3 == 4 * t + 3 * j + 3;
    Div4(t, 3 * j);
    Div4(t, 3 * j + 3);
  }

  lemma Div4(t: nat, r: nat)
    requires r <= 12
    ensures (4 * t + r) / 4 == t + r / 4
  {
  }

  lemma Centuries(y: nat)
    requires y >= 1
    ensures (y - 1) / 100 == if y % 100 == 0 then y / 100 - 1 else y / 100
    ensures y % 400 == 0 <==> y % 100 == 0 && y / 100 % 4 == 0
  {
    var c, r := y / 100, y % 100;
    var k, j := c / 4, c % 4;
    assert y == 400 * k + 100 * j + r;
  }

  lemma CenturyStep(y: nat)
    requires y >= 1
    ensures (y / 100 + 1) * 3 / 4 - ((y - 1) / 100 + 1) * 3 / 4 == if y % 100 == 0 && y % 400 != 0 then 1 else 0
  {
    Centuries(y);
    ThreeQuarters(y / 100);
  }

  lemma QuarterStep(y: nat)
    requires y >= 1
    ensures y / 4 - (y - 1) / 4 == if y % 4 == 0 then 1 else 0
    ensures y % 400 == 0 ==> y % 4 == 0
    ensures y % 100 == 0 ==> y % 4 == 0
  {
    var k, j := y / 4, y % 4;
    if j == 0 { assert y - 1 == 4 * (k - 1) + 3; } else { assert y - 1 == 4 * k + (j - 1); }
    if y % 100 == 0 { FourDivides(y, y / 100, 25); }
    if y % 400 == 0 { FourDivides(y, y / 400, 100); }
  }

  lemma FourDivides(y: nat, m: nat, n: nat)
    requires y == m * (4 * n)
    ensures y % 4 == 0
  {
    var z := m * n;
    assert y == 4 * z;
  }

  lemma LeapTermStep(y: nat)
    requires y >= 1
    ensures LeapTerm(y) - LeapTerm(y - 1) == if IsLeap(y) then 1 else 0
  {
    CenturyStep(y);
    QuarterStep(y);
    assert LeapTerm(y) == y / 4 - (y / 100 + 1) * 3 / 4;
    assert LeapTerm(y - 1) == (y - 1) / 4 - ((y - 1) / 100 + 1) * 3 / 4;
    hide LeapTerm, CDiv;
  }

  lemma {:induction false} YearsClosedForm(y: nat)
    ensures DaysBeforeYear(y) == 365 * y + LeapTerm(y - 1)
  {
    if y > 1 {
      YearsClosedForm(y - 1);
      LeapTermStep(y - 1);
    }
  }

  /** calc_daynr counts days: its closed form agrees with the calendar on every valid date. */
  method CalcDaynr(year: nat, month: nat, day: nat) returns (r: int)
    ensures ValidDate(Date(year, month, day)) ==> r == DayNumber(Date(year, month, day))
    ensures year == 0 && month == 0 ==> r == 0
  {
    var y: int := year;
    if y == 0 && month == 0 { return 0; }
    var delsum := 365 * y + 31 * (month - 1) + day;
    if month <= 2 {
      y := y - 1;
    } else {
      delsum := delsum - (month * 4 + 23) / 10;
    }
    var temp := CDiv((CDiv(y, 100) + 1) * 3, 4);
    r := delsum + CDiv(y, 4) - temp;
    if ValidDate(Date(year, month, day)) {
      YearsClosedForm(year);
      assert DaysBeforeMonth(year, 1) == 0 && DaysBeforeMonth(year, 2) == 31;
      if month > 2 {
        MonthsClosedForm(year, month);
        if year >= 1 { LeapTermStep(year); }
      }
    }
  }

  /** TO_DAYS('1970-01-01'), the offset between DuckDB's and MariaDB's day numbers. */
  lemma UnixEpoch()
    ensures DayNumber(Date(1970, 1, 1)) == 719528
  {
    YearsClosedForm(1970);
  }

  // ----- calendar order -----

  predicate Earlier(a: Date, b: Date) {
    || a.year < b.year
    || (a.year == b.year && (a.month < b.month || (a.month == b.month && a.day < b.day)))
  }

  lemma WithinYear(d: Date)
    requires ValidDate(d)
    ensures NewYear(d.year) <= DayNumber(d) < NewYear(d.year + 1)
  {
    MonthsFillTheYear(d.year);
    if d.month < 12 { MonthsGrow(d.year, d.month, 12); }
  }

  /** Day numbers order dates as the calendar does. */
  lemma DayNumberIsMonotone(a: Date, b: Date)
    requires ValidDate(a) && ValidDate(b) && Earlier(a, b)
    ensures DayNumber(a) < DayNumber(b)
  {
    WithinYear(a);
    WithinYear(b);
    if a.year < b.year {
      YearsGrow(a.year, b.year);
    } else if a.month < b.month {
      MonthsGrow(a.year, a.month, b.month);
    }
  }

  /** So the order of dates is the order of their numbers, and a number has one date. */
  lemma DayNumberOrders(a: Date, b: Date)
    requires ValidDate(a) && ValidDate(b)
    ensures DayNumber(a) < DayNumber(b) <==> Earlier(a, b)
    ensures DayNumber(a) == DayNumber(b) <==> a == b
  {
    hide DayNumber;
    if Earlier(a, b) { DayNumberIsMonotone(a, b); }
    else if Earlier(b, a) { DayNumberIsMonotone(b, a); }
  }

  datatype DateTime = DateTime(date: Date, hour: nat, minute: nat, second: nat, micro: nat)

  predicate ValidDateTime(t: DateTime) {
    ValidDate(t.date) && t.hour < 24 && t.minute < 60 && t.second < 60 && t.micro < 1000000
  }

  predicate EarlierTime(a: DateTime, b: DateTime) {
    || Earlier(a.date, b.date)
    || (a.date == b.date
        && (a.hour < b.hour || (a.hour == b.hour
        && (a.minute < b.minute || (a.minute == b.minute
        && (a.second < b.second || (a.second == b.second && a.micro < b.micro)))))))
  }

  /** The appender's DATETIME value: microseconds since 1970-01-01. */
  function Timestamp(t: DateTime): int {
    var days := DayNumber(t.date) - DayNumber(Date(1970, 1, 1));
    var secs := days * 86400 + t.hour * 3600 + t.minute * 60 + t.second;
    secs * 1000000 + t.micro
  }

  /** Later date-times get greater timestamps, also before 1970. */
  lemma TimestampIsMonotone(a: DateTime, b: DateTime)
    requires ValidDateTime(a) && ValidDateTime(b) && EarlierTime(a, b)
    ensures Timestamp(a) < Timestamp(b)
  {
    if Earlier(a.date, b.date) { DayNumberIsMonotone(a.date, b.date); }
    hide DayNumber;
  }

  lemma TimestampOrders(a: DateTime, b: DateTime)
    requires ValidDateTime(a) && ValidDateTime(b)
    ensures Timestamp(a) < Timestamp(b) <==> EarlierTime(a, b)
    ensures Timestamp(a) == Timestamp(b) <==> a == b
  {
    hide Timestamp;
    if EarlierTime(a, b) { TimestampIsMonotone(a, b); }
    else if EarlierTime(b, a) { TimestampIsMonotone(b, a); }
  }

  /** One microsecond later on the clock. */
  function NextMicro(t: DateTime): DateTime {
    if t.micro + 1 < 1000000 then t.(micro := t.micro + 1)
    else if t.second + 1 < 60 then t.(second := t.second + 1, micro := 0)
    else if t.minute + 1 < 60 then t.(minute := t.minute + 1, second := 0, micro := 0)
    else if t.hour + 1 < 24 then t.(hour := t.hour + 1, minute := 0, second := 0, micro := 0)
    else DateTime(NextDate(t.date), 0, 0, 0, 0)
  }

  /** The value counts microseconds: it is 0 at the epoch and grows by one with every tick of the
      clock, over midnights and leap days too. */
  lemma TimestampCountsMicroseconds(t: DateTime)
    requires ValidDateTime(t)
    ensures ValidDateTime(NextMicro(t)) && Timestamp(NextMicro(t)) == Timestamp(t) + 1
    ensures Timestamp(DateTime(Date(1970, 1, 1), 0, 0, 0, 0)) == 0
  {
    NextDateIsNextDay(t.date);
    hide DayNumber;
  }
}
