/** The calendar arithmetic of drivers/rtc.c and apps/date_app.c, against a calendar that
    only knows how to go from one day to the next. */
module Calendar {
  import opened Bytes

  predicate Leap(y: nat) {
    (y % 4 == 0 && y % 100 != 0) || y % 400 == 0
  }

  /** days_in_month, for m in 1..12. */
  function MonthLen(y: nat, m: nat): nat {
    if m == 2 then (if Leap(y) then 29 else 28)
    else if m == 4 || m == 6 || m == 9 || m == 11 then 30
    else 31
  }

  datatype Date = Date(year: nat, month: nat, day: nat)

  predicate Valid(d: Date) {
    d.year >= 1970 && 1 <= d.month <= 12 && 1 <= d.day <= MonthLen(d.year, d.month)
  }

  const EPOCH: Date := Date(1970, 1, 1)

  /** The day after d. */
  function Next(d: Date): (r: Date)
    requires Valid(d)
    ensures Valid(r)
  {
    if d.day < MonthLen(d.year, d.month) then d.(day := d.day + 1)
    else if d.month < 12 then Date(d.year, d.month + 1, 1)
    else Date(d.year + 1, 1, 1)
  }

  /** The n-th day after the epoch. */
  function Nth(n: nat): (r: Date)
    ensures Valid(r)
  {
    if n == 0 then EPOCH else Next(Nth(n - 1))
  }

  // ----- the sums the driver builds -----

  function YearStart(y: nat): nat {
    if y <= 1970 then 0 else YearStart(y - 1) + 365 + (if Leap(y - 1) then 1 else 0)
  }

  function MonthStart(y: nat, m: nat): nat {
    if m <= 1 then 0 else MonthStart(y, m - 1) + MonthLen(y, m - 1)
  }

  function DayCount(d: Date): nat
    requires Valid(d)
  {
    YearStart(d.year) + MonthStart(d.year, d.month) + (d.day - 1)
  }

  lemma MonthsOfYear(y: nat)
    ensures MonthStart(y, 1) == 0 && MonthStart(y, 2) == 31
    ensures var l := if Leap(y) then 1 else 0;
            && MonthStart(y, 3) == 59 + l && MonthStart(y, 4) == 90 + l && MonthStart(y, 5) == 120 + l && MonthStart(y, 6) == 151 + l
            && MonthStart(y, 7) == 181 + l && MonthStart(y, 8) == 212 + l && MonthStart(y, 9) == 243 + l
            && MonthStart(y, 10) == 273 + l && MonthStart(y, 11) == 304 + l && MonthStart(y, 12) == 334 + l
  {
    assert MonthStart(y, 2) == 31;
    assert MonthStart(y, 4) == MonthStart(y, 3) + 31;
    assert MonthStart(y, 6) == MonthStart(y, 5) + 31;
    assert MonthStart(y, 8) == MonthStart(y, 7) + 31;
    assert MonthStart(y, 10) == MonthStart(y, 9) + 30;
  }

  /** The day count goes up by one from each day to the next. */
  lemma NextCounts(d: Date)
    requires Valid(d)
    ensures DayCount(Next(d)) == DayCount(d) + 1
  {
    MonthsOfYear(d.year);
    MonthsOfYear(d.year + 1);
  }

  lemma {:induction false} NthCounts(n: nat)
    ensures DayCount(Nth(n)) == n
  {
    if n > 0 {
      NthCounts(n - 1);
      NextCounts(Nth(n - 1));
    }
  }

  predicate Before(a: Date, b: Date) {
    a.year < b.year || (a.year == b.year && (a.month < b.month || (a.month == b.month && a.day < b.day)))
  }

  lemma {:induction false} YearsRise(y: nat, z: nat)
    requires 1970 <= y <= z
    ensures YearStart(y) + 365 * (z - y) <= YearStart(z)
    decreases z - y
  {
    if y < z { YearsRise(y, z - 1); }
  }

  lemma {:induction false} MonthsRise(y: nat, m: nat, n: nat)
    requires 1 <= m < n
    ensures MonthStart(y, m) + MonthLen(y, m) <= MonthStart(y, n)
    decreases n
  {
    if m < n - 1 { MonthsRise(y, m, n - 1); }
  }

  /** A day of year y comes before the start of the next. */
  lemma InYear(d: Date)
    requires Valid(d)
    ensures MonthStart(d.year, d.month) + (d.day - 1) < 365 + (if Leap(d.year) then 1 else 0)
  {
    MonthsOfYear(d.year);
    if d.month < 12 { MonthsRise(d.year, d.month, 12); }
  }

  /** Later days have larger counts. */
  lemma CountRises(a: Date, b: Date)
    requires Valid(a) && Valid(b) && Before(a, b)
    ensures DayCount(a) < DayCount(b)
  {
    if a.year < b.year {
      InYear(a);
      YearsRise(a.year + 1, b.year);
    } else if a.month < b.month {
      MonthsRise(a.year, a.month, b.month);
    }
  }

  /** Counting and stepping are inverse: every date from 1970 on is the day its count says. */
  lemma CountIsPosition(d: Date)
    requires Valid(d)
    ensures Nth(DayCount(d)) == d
  {
    var e := Nth(DayCount(d));
    NthCounts(DayCount(d));
    if Before(d, e) { CountRises(d, e); }
    if Before(e, d) { CountRises(e, d); }
  }

  // ----- seconds -----

  datatype Time = Time(date: Date, hour: nat, minute: nat, second: nat)

  predicate ValidTime(t: Time) {
    Valid(t.date) && t.hour < 24 && t.minute < 60 && t.second < 60
  }

  predicate Earlier(a: Time, b: Time) {
    Before(a.date, b.date) || (a.date == b.date && (a.hour < b.hour || (a.hour == b.hour &&
      (a.minute < b.minute || (a.minute == b.minute && a.second < b.second)))))
  }

  /** Seconds since the epoch, unbounded. */
  function Seconds(t: Time): nat
    requires ValidTime(t)
  {
    DayCount(t.date) * 86400 + t.hour * 3600 + t.minute * 60 + t.second
  }

  /** Later moments have larger timestamps. */
  lemma SecondsRise(a: Time, b: Time)
    requires ValidTime(a) && ValidTime(b) && Earlier(a, b)
    ensures Seconds(a) < Seconds(b)
  {
    if Before(a.date, b.date) { CountRises(a.date, b.date); }
  }

  /** The last second a uint32_t holds. */
  const LAST: Time := Time(Date(2106, 2, 7), 6, 28, 15)

  lemma LastSecond()
    ensures ValidTime(LAST) && Seconds(LAST) == TWO32 - 1
  {
    YearClosed(2106);
    assert LeapsThrough(2105) == 510 && LeapsThrough(1969) == 477;
    MonthsOfYear(2106);
  }

  /** The timestamp fits 32 bits exactly up to 2106-02-07 06:28:15. */
  lemma FitsExactly(t: Time)
    requires ValidTime(t)
    ensures Seconds(t) < TWO32 <==> !Earlier(LAST, t)
  {
    LastSecond();
    if Earlier(LAST, t) {
      SecondsRise(LAST, t);
    } else if t != LAST {
      SecondsRise(t, LAST);
    }
  }

  /** rtc_get_timestamp: the two loops, and the final sum in 32 bits. */
  method Timestamp(t: Time) returns (r: nat)
    requires ValidTime(t) && t.date.year < TWO16
    ensures r == Seconds(t) % TWO32
    ensures !Earlier(LAST, t) ==> r == Seconds(t)
  {
    hide Leap;
    hide MonthStart;
    hide YearStart;
    hide Earlier;
    var days := YearDays(t.date.year);
    var before := MonthDays(t.date.year, t.date.month);
    days := days + before + (t.date.day - 1);
    r := (days * 86400 + t.hour * 3600 + t.minute * 60 + t.second) % TWO32;
    FitsExactly(t);
  }

  /** The loop over the years. */
  method YearDays(year: nat) returns (days: nat)
    requires year >= 1970
    ensures days == YearStart(year)
  {
    hide Leap;
    days := 0;
    var y := 1970;
    while y < year
      invariant 1970 <= y <= year && days == YearStart(y)
    {
      days := days + 365;
      if Leap(y) { days := days + 1; }
      y := y + 1;
    }
  }

  /** The loop over the months, with its table of lengths. */
  method MonthDays(year: nat, month: nat) returns (days: nat)
    requires 1 <= month <= 12
    ensures days == MonthStart(year, month)
  {
    hide Leap;
    var lens := [31, 28, 31, 30, 31, 30, 31, 31, 30, 31, 30, 31];
    days := 0;
    var m := 1;
    while m < month
      invariant 1 <= m <= month && days == MonthStart(year, m)
    {
      days := days + lens[m - 1];
      if m == 2 && Leap(year) { days := days + 1; }
      m := m + 1;
    }
  }

  // ----- the weekday -----

  /** dow in app_date_main: 0 is Sunday. */
  function Weekday(d: Date): nat
    requires Valid(d)
  {
    var m := if d.month < 3 then d.month + 12 else d.month;
    var y := if d.month < 3 then d.year - 1 else d.year;
    (y + y / 4 - y / 100 + y / 400 + 13 * (m + 1) / 5 + d.day - 1) % 7
  }

  function LeapsThrough(y: nat): int { y / 4 - y / 100 + y / 400 }

  lemma LeapsStep(y: nat)
    requires y > 0
    ensures LeapsThrough(y) == LeapsThrough(y - 1) + if Leap(y) then 1 else 0
  {
    assert y / 4 == (y - 1) / 4 + if y % 4 == 0 then 1 else 0;
    assert y / 100 == (y - 1) / 100 + if y % 100 == 0 then 1 else 0;
    assert y / 400 == (y - 1) / 400 + if y % 400 == 0 then 1 else 0;
    Multiples(y);
  }

  lemma Multiples(y: nat)
    ensures y % 400 == 0 ==> y % 100 == 0
    ensures y % 100 == 0 ==> y % 4 == 0
  {
    if y % 400 == 0 {
      var k := y / 400;
      assert y == 100 * (4 * k);
    }
    if y % 100 == 0 {
      var k := y / 100;
      assert y == 4 * (25 * k);
    }
  }

  /** The year loop in closed form. */
  lemma {:induction false} YearClosed(y: nat)
    requires y >= 1970
    ensures YearStart(y) == 365 * (y - 1970) + LeapsThrough(y - 1) - LeapsThrough(1969)
  {
    if y > 1970 {
      YearClosed(y - 1);
      LeapsStep(y - 1);
    }
  }

  lemma SameRemainder(a: int, b: int, k: int)
    requires a == b + 7 * k
    ensures a % 7 == b % 7
  {
  }

  /** The month term of the formula, against the days before the month. */
  lemma MonthTerm(y: nat, m: nat)
    requires 1 <= m <= 12
    ensures m < 3 ==> 13 * (m + 13) / 5 + 2442 - MonthStart(y, m) == 7 * (358 - 4 * m)
    ensures m >= 3 ==> 13 * (m + 1) / 5 + 2443 - MonthStart(y, m) + (if Leap(y) then 1 else 0) == 7 * (354 - 4 * m)
  {
    hide Leap;
    MonthsOfYear(y);
  }

  /** The formula in date_app.c agrees with the driver's day count; day 0 was a Thursday. */
  lemma WeekdayAgrees(d: Date)
    requires Valid(d)
    ensures Weekday(d) == (DayCount(d) + 4) % 7
  {
    hide Leap;
    hide MonthStart;
    hide YearStart;
    var y, m := d.year, d.month;
    YearClosed(y);
    LeapsStep(y);
    MonthTerm(y, m);
    assert LeapsThrough(1969) == 477;
    var b := DayCount(d) + 4;
    if m < 3 {
      var a := y - 1 + LeapsThrough(y - 1) + 13 * (m + 13) / 5 + d.day - 1;
      SameRemainder(a, b, 358 - 4 * m - 52 * (y - 1970));
    } else {
      var a := y + LeapsThrough(y) + 13 * (m + 1) / 5 + d.day - 1;
      SameRemainder(a, b, 354 - 4 * m - 52 * (y - 1970));
    }
  }

  /** So the weekday advances by one, modulo seven, from each day to the next. */
  lemma WeekdayAdvances(d: Date)
    requires Valid(d)
    ensures Weekday(Next(d)) == (Weekday(d) + 1) % 7
  {
    hide Weekday;
    hide DayCount;
    WeekdayAgrees(d);
    WeekdayAgrees(Next(d));
    NextCounts(d);
  }
}
