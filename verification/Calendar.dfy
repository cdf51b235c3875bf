/** Seconds since 1970 by a closed formula, against a calendar that counts one day at a time. */
module Calendar {
  import opened Options

  /** A broken-down time: the year counts from 1900 and the month from 0. */
  datatype Time = Time(year: int, mon: int, mday: int, hour: int, min: int, sec: int)

  // --- the Gregorian calendar ---

  predicate Leap(year: int) {
    var y := 1900 + year;
    y % 4 == 0 && (y % 100 != 0 || y % 400 == 0)
  }

  function MonthLength(year: int, mon: int): int
    requires 0 <= mon < 12
  {
    if mon == 1 then if Leap(year) then 29 else 28
    else if mon == 3 || mon == 5 || mon == 8 || mon == 10 then 30
    else 31
  }

  datatype Day = Day(year: int, mon: int, mday: int)

  const EPOCH := Day(70, 0, 1)

  /** A day of the calendar, from 1970 on. */
  predicate Valid(d: Day) {
    d.year >= 70 && 0 <= d.mon < 12 && 1 <= d.mday <= MonthLength(d.year, d.mon)
  }

  function Yesterday(d: Day): (y: Day)
    requires Valid(d) && d != EPOCH
    ensures Valid(y)
  {
    if d.mday > 1 then Day(d.year, d.mon, d.mday - 1)
    else if d.mon > 0 then Day(d.year, d.mon - 1, MonthLength(d.year, d.mon - 1))
    else Day(d.year - 1, 11, 31)
  }

  /** The days since 1 January 1970, counted one by one. */
  function DaysSince(d: Day): nat
    requires Valid(d)
    decreases d.year, d.mon, d.mday
  {
    if d == EPOCH then 0 else 1 + DaysSince(Yesterday(d))
  }

  /** The days of the year before this one, counted one by one. */
  function YearDay(d: Day): nat
    requires Valid(d)
    decreases d.mon, d.mday
  {
    if d.mon == 0 && d.mday == 1 then 0 else 1 + YearDay(Yesterday(d))
  }

  // --- the formula ---

  function DayOffset(mon: int): int
    requires 0 <= mon < 12
  {
    [306, 337, 0, 31, 61, 92, 122, 153, 184, 214, 245, 275][mon]
  }

  /** Days since 1 March 1900 to 1 March of a year; division of positive numbers. */
  function MarchDays(year: int): int {
    year * 365 + year / 4 - year / 100 + (year / 100 + 3) / 4
  }

  function FormulaDays(d: Day): int
    requires Valid(d)
  {
    MarchDays(if d.mon < 2 then d.year - 1 else d.year) + DayOffset(d.mon) + d.mday - 1 - 25508
  }

  /** _rdfstore_xsd_mktime; narrow is for a time_t of 32 bits. Out of range it has no answer. */
  function Mktime(t: Time, narrow: bool): Option<int>
    requires 0 <= t.mon < 12
  {
    if t.year < 70 || (narrow && t.year >= 138) then None
    else
      var year := if t.mon < 2 then t.year - 1 else t.year;
      var days := MarchDays(year) + DayOffset(t.mon) + t.mday - 1;
      var since := days - 25508;
      var seconds := ((since * 24 + t.hour) * 60 + t.min) * 60 + t.sec;
      if seconds < 0 then None else Some(seconds)
  }

  // --- the formula counts days ---

  lemma By4(q: int, r: int)
    requires 0 <= r < 4
    ensures (4 * q + r) / 4 == q && (4 * q + r) % 4 == r
  {
  }

  lemma By100(q: int, r: int)
    requires 0 <= r < 100
    ensures (100 * q + r) / 100 == q && (100 * q + r) % 100 == r
  {
  }

  lemma By400(q: int, r: int)
    requires 0 <= r < 400
    ensures (400 * q + r) / 400 == q && (400 * q + r) % 400 == r
  {
  }

  /** A year by its four hundreds, hundreds, and the rest. */
  lemma YearParts(a: int, b: int, r: int)
    requires 0 <= b < 4 && 0 <= r < 100
    ensures var year := 400 * a + 100 * b + r;
      && year / 100 == 4 * a + b && (year / 100 + 3) / 4 == a + (if b == 0 then 0 else 1)
      && ((1900 + year) % 100 == 0 <==> r == 0)
      && ((1900 + year) % 400 == 0 <==> r == 0 && b == 1)
  {
    var year := 400 * a + 100 * b + r;
    By100(4 * a + b, r);
    By100(4 * a + b + 19, r);
    if b == 0 {
      By4(a, 3);
      By400(a + 4, 300 + r);
    } else {
      By4(a + 1, b - 1);
      By400(a + 5, 100 * (b - 1) + r);
    }
  }

  lemma Fourths(year: int)
    ensures year / 4 == (year - 1) / 4 + if (1900 + year) % 4 == 0 then 1 else 0
  {
    var q, r := year / 4, year % 4;
    By4(q + 475, r);
    if r == 0 {
      By4(q - 1, 3);
    } else {
      By4(q, r - 1);
    }
  }

  lemma MarchDaysParts(a: int, b: int, r: int)
    requires 0 <= b < 4 && 0 <= r < 100
    ensures var year := 400 * a + 100 * b + r;
      MarchDays(year) == year * 365 + year / 4 - (4 * a + b) + a + if b == 0 then 0 else 1
  {
    YearParts(a, b, r);
  }

  /** The formula's years have the days the calendar's years have. */
  lemma LeapFormula(year: int)
    requires year >= 70
    ensures MarchDays(year) == MarchDays(year - 1) + if Leap(year) then 366 else 365
  {
    var q, r := year / 100, year % 100;
    var a, b := q / 4, q % 4;
    assert year == 400 * a + 100 * b + r;
    YearParts(a, b, r);
    MarchDaysParts(a, b, r);
    Fourths(year);
    if r > 0 {
      MarchDaysParts(a, b, r - 1);
    } else if b > 0 {
      MarchDaysParts(a, b - 1, 99);
    } else {
      MarchDaysParts(a - 1, 3, 99);
    }
    CenturyFourth(year);
    hide MarchDays;
  }

  lemma CenturyFourth(year: int)
    ensures (1900 + year) % 100 == 0 ==> (1900 + year) % 4 == 0
  {
    var q := (1900 + year) / 100;
    if (1900 + year) % 100 == 0 {
      By4(25 * q, 0);
    }
  }

  lemma FormulaSteps(d: Day)
    requires Valid(d) && d != EPOCH
    ensures FormulaDays(d) == FormulaDays(Yesterday(d)) + 1
  {
    LeapFormula(d.year);
    hide MarchDays, Leap;
  }

  lemma EpochIsZero()
    ensures FormulaDays(EPOCH) == 0
  {
  }

  /** The formula is the number of days counted one at a time. */
  lemma {:induction false} FormulaCounts(d: Day)
    requires Valid(d)
    ensures FormulaDays(d) == DaysSince(d)
    decreases d.year, d.mon, d.mday
  {
    hide MarchDays, MonthLength, Leap;
    EpochIsZero();
    if d != EPOCH {
      FormulaSteps(d);
      FormulaCounts(Yesterday(d));
    }
  }

  // --- what the routine gives ---

  function DayOf(t: Time): Day {
    Day(t.year, t.mon, t.mday)
  }

  /** A valid time of a valid day; a leap second may be written as second 60. */
  predicate ValidTime(t: Time) {
    Valid(DayOf(t)) && 0 <= t.hour < 24 && 0 <= t.min < 60 && 0 <= t.sec <= 60
  }

  /** Seconds by counting days. */
  function Counted(t: Time): int
    requires ValidTime(t)
  {
    DaysSince(DayOf(t)) * 86400 + t.hour * 3600 + t.min * 60 + t.sec
  }

  /** For every valid time from 1970 on, the routine gives the seconds counted; a narrow time_t
      has an answer up to 2037. */
  lemma MktimeCounts(t: Time, narrow: bool)
    requires ValidTime(t)
    ensures Mktime(t, narrow) == if narrow && t.year >= 138 then None else Some(Counted(t))
  {
    FormulaCounts(DayOf(t));
    hide MarchDays, DaysSince, DayOffset;
  }

  /** A time of the calendar of any year. */
  predicate CalendarTime(t: Time) {
    && 0 <= t.mon < 12 && 1 <= t.mday <= MonthLength(t.year, t.mon)
    && 0 <= t.hour < 24 && 0 <= t.min < 60 && 0 <= t.sec <= 60
  }

  /** The routine has an answer for exactly the times from 1970 on, with a narrow time_t up to 2037. */
  lemma NoAnswerWhen(t: Time, narrow: bool)
    requires CalendarTime(t)
    ensures Mktime(t, narrow) == None <==> t.year < 70 || (narrow && t.year >= 138)
  {
    if t.year >= 70 {
      MktimeCounts(t, narrow);
    }
    hide MarchDays, DayOffset, DaysSince, MonthLength;
  }

  // --- order ---

  predicate Earlier(d: Day, e: Day) {
    d.year < e.year || (d.year == e.year && (d.mon < e.mon || (d.mon == e.mon && d.mday < e.mday)))
  }

  lemma {:induction false} CountingKeepsOrder(d: Day, e: Day)
    requires Valid(d) && Valid(e) && Earlier(d, e)
    ensures DaysSince(d) < DaysSince(e)
    decreases e.year, e.mon, e.mday
  {
    var y := Yesterday(e);
    assert d == y || Earlier(d, y);
    if d != y {
      CountingKeepsOrder(d, y);
    }
  }

  predicate EarlierTime(s: Time, t: Time) {
    || Earlier(DayOf(s), DayOf(t))
    || (DayOf(s) == DayOf(t) &&
      (s.hour < t.hour || (s.hour == t.hour && (s.min < t.min || (s.min == t.min && s.sec < t.sec)))))
  }

  /** Leap seconds aside, a later time has more seconds. */
  lemma MktimeKeepsOrder(s: Time, t: Time)
    requires ValidTime(s) && ValidTime(t) && s.sec < 60 && EarlierTime(s, t)
    ensures Mktime(s, false).Some? && Mktime(t, false).Some?
    ensures Mktime(s, false).value < Mktime(t, false).value
  {
    MktimeCounts(s, false);
    MktimeCounts(t, false);
    if Earlier(DayOf(s), DayOf(t)) {
      CountingKeepsOrder(DayOf(s), DayOf(t));
    }
    hide DaysSince, Mktime;
  }

  // --- the standard's formula ---

  /** Seconds since the epoch by section 4.16 of IEEE Std 1003.1-2017, for a day of the year. */
  function Posix(t: Time, yday: int): int {
    t.sec + t.min * 60 + t.hour * 3600 + yday * 86400 + (t.year - 70) * 31536000
    + (t.year - 69) / 4 * 86400 - (t.year - 1) / 100 * 86400 + (t.year + 299) / 400 * 86400
  }

  lemma {:induction false} FromNewYear(d: Day)
    requires Valid(d)
    ensures DaysSince(d) == DaysSince(Day(d.year, 0, 1)) + YearDay(d)
    decreases d.mon, d.mday
  {
    if d.mon > 0 || d.mday > 1 {
      FromNewYear(Yesterday(d));
    }
  }

  lemma NewYear(year: int)
    requires year >= 70
    ensures DaysSince(Day(year, 0, 1)) ==
      (year - 70) * 365 + (year - 69) / 4 - (year - 1) / 100 + (year + 299) / 400
  {
    FormulaCounts(Day(year, 0, 1));
    hide DaysSince;
    assert (year - 1) / 4 - 17 == (year - 69) / 4;
    assert ((year - 1) / 100 + 3) / 4 == (year + 299) / 400;
  }

  /** The routine agrees with the standard's formula. */
  lemma MktimeIsPosix(t: Time)
    requires ValidTime(t)
    ensures Mktime(t, false) == Some(Posix(t, YearDay(DayOf(t))))
  {
    MktimeCounts(t, false);
    FromNewYear(DayOf(t));
    NewYear(t.year);
    hide Mktime, DaysSince, YearDay;
  }

  // --- times that are known ---

  lemma KnownTimes()
    ensures Mktime(Time(70, 0, 1, 0, 0, 0), true) == Some(0)
    ensures Mktime(Time(100, 1, 29, 0, 0, 0), true) == Some(951782400)
    ensures Mktime(Time(101, 8, 9, 1, 46, 40), true) == Some(1000000000)
    ensures Mktime(Time(109, 1, 13, 23, 31, 30), true) == Some(1234567890)
    ensures Mktime(Time(138, 0, 19, 3, 14, 8), false) == Some(2147483648)
    ensures Mktime(Time(200, 2, 1, 0, 0, 0), false) == Some(4107542400)
  {
  }

  /** The first of every month of 2001. */
  lemma KnownFirstHalf()
    ensures Mktime(Time(101, 0, 1, 0, 0, 0), true) == Some(11323 * 86400)
    ensures Mktime(Time(101, 1, 1, 0, 0, 0), true) == Some(11354 * 86400)
    ensures Mktime(Time(101, 2, 1, 0, 0, 0), true) == Some(11382 * 86400)
    ensures Mktime(Time(101, 3, 1, 0, 0, 0), true) == Some(11413 * 86400)
    ensures Mktime(Time(101, 4, 1, 0, 0, 0), true) == Some(11443 * 86400)
    ensures Mktime(Time(101, 5, 1, 0, 0, 0), true) == Some(11474 * 86400)
  {
  }

  /** And of the second half of the year. */
  lemma KnownSecondHalf()
    ensures Mktime(Time(101, 6, 1, 0, 0, 0), true) == Some(11504 * 86400)
    ensures Mktime(Time(101, 7, 1, 0, 0, 0), true) == Some(11535 * 86400)
    ensures Mktime(Time(101, 8, 1, 0, 0, 0), true) == Some(11566 * 86400)
    ensures Mktime(Time(101, 9, 1, 0, 0, 0), true) == Some(11596 * 86400)
    ensures Mktime(Time(101, 10, 1, 0, 0, 0), true) == Some(11627 * 86400)
    ensures Mktime(Time(101, 11, 1, 0, 0, 0), true) == Some(11657 * 86400)
  {
  }

  /** The days around the end of February 2004, and of the year. */
  lemma KnownLeapDays()
    ensures Mktime(Time(104, 1, 28, 0, 0, 0), true) == Some(12476 * 86400)
    ensures Mktime(Time(104, 1, 29, 0, 0, 0), true) == Some(12477 * 86400)
    ensures Mktime(Time(104, 2, 1, 0, 0, 0), true) == Some(12478 * 86400)
    ensures Mktime(Time(104, 11, 31, 0, 0, 0), true) == Some(12783 * 86400)
    ensures Mktime(Time(105, 0, 1, 0, 0, 0), true) == Some(12784 * 86400)
  {
  }

  /** And the same days counted one at a time. */
  lemma KnownDays(year: int, mon: int, mday: int, n: nat)
    requires Valid(Day(year, mon, mday)) && Mktime(Time(year, mon, mday, 0, 0, 0), false) == Some(n * 86400)
    ensures DaysSince(Day(year, mon, mday)) == n
  {
    MktimeCounts(Time(year, mon, mday, 0, 0, 0), false);
    hide Mktime, DaysSince;
  }
}
