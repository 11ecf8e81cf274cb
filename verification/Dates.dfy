/**
 * Calendar arithmetic behind leave requests (src/common/utils/date.util.js).
 *
 * Dates arrive as YYYY-MM-DD text, are split into three numbers and turned into
 * a time value by Date.UTC. Day numbers follow DayFromYear and MakeDay of
 * sections 20.3.1.3 and 20.3.1.13 of ECMA-262, 6th edition; Date.UTC (section
 * 20.3.3.4) first maps the years 0 to 99 to 1900 to 1999. A day beyond the end of
 * its month counts into the next one.
 */
module Dates {
  import opened Prelude

  const MS_PER_DAY := 1000 * 60 * 60 * 24

  /** The three numbers of a date text; months are 1 to 12 as written. */
  datatype Date = Date(year: int, month: int, day: int)

  predicate Leap(y: int) { y % 4 == 0 && (y % 100 != 0 || y % 400 == 0) }

  function DaysInMonth(y: int, m: int): int {
    if m == 2 then (if Leap(y) then 29 else 28)
    else if m == 4 || m == 6 || m == 9 || m == 11 then 30
    else 31
  }

  predicate IsDate(d: Date) {
    0 <= d.year <= 9999 && 1 <= d.month <= 12 && 1 <= d.day <= DaysInMonth(d.year, d.month)
  }

  /** What the validated date texts can say: every month may be given a day up to 31. */
  predicate IsWritten(d: Date) {
    0 <= d.year <= 9999 && 1 <= d.month <= 12 && 1 <= d.day <= 31
  }

  /** YYYY-MM-DD */
  predicate IsDateText(s: string) {
    && |s| == 10 && s[4] == '-' && s[7] == '-'
    && (forall i | 0 <= i < 4 :: IsDigit(s[i]))
    && IsDigit(s[5]) && IsDigit(s[6]) && IsDigit(s[8]) && IsDigit(s[9])
    && 1 <= NumberOf(s[5..7]) <= 12 && 1 <= NumberOf(s[8..]) <= 31
  }

  type DateText = s: string | IsDateText(s) witness "2000-01-01"

  /** split('-').map(Number) */
  function DateOf(s: DateText): Date {
    Date(NumberOf(s[..4]), NumberOf(s[5..7]), NumberOf(s[8..]))
  }

  function Two(n: int): string
    requires 0 <= n <= 99
  {
    [Digit(n / 10), Digit(n % 10)]
  }

  function Digit(n: int): char
    requires 0 <= n <= 9
  {
    (n + '0' as int) as char
  }

  /** The date as its text. */
  function TextOf(d: Date): string
    requires IsWritten(d)
  {
    Two(d.year / 100) + Two(d.year % 100) + "-" + Two(d.month) + "-" + Two(d.day)
  }

  lemma NumberOfTwo(s: string)
    requires |s| == 2 && IsDigit(s[0]) && IsDigit(s[1])
    ensures NumberOf(s) <= 99 && Two(NumberOf(s)) == s
    ensures NumberOf(s) == 10 * (s[0] as int - '0' as int) + (s[1] as int - '0' as int)
  {
    assert s[..1] == [s[0]] && s[..1][..0] == "";
    assert NumberOf(s[..1]) == s[0] as int - '0' as int;
  }

  lemma NumberOfFour(s: string)
    requires |s| == 4 && forall i | 0 <= i < 4 :: IsDigit(s[i])
    ensures NumberOf(s) == 100 * NumberOf(s[..2]) + NumberOf(s[2..])
  {
    NumberOfTwo(s[..2]);
    NumberOfTwo(s[2..]);
    assert s[..3][..2] == s[..2];
  }

  lemma CenturyAndYear(a: int, b: int)
    requires 0 <= a <= 99 && 0 <= b <= 99
    ensures (100 * a + b) / 100 == a && (100 * a + b) % 100 == b
  {
  }

  /** Texts and what they say determine each other. */
  lemma TextSaysDate(s: DateText)
    ensures IsWritten(DateOf(s)) && TextOf(DateOf(s)) == s
  {
    var y := s[..4];
    assert y[..2] == s[..2] && y[2..] == s[2..4];
    NumberOfFour(y);
    NumberOfTwo(s[..2]);
    NumberOfTwo(s[2..4]);
    NumberOfTwo(s[5..7]);
    NumberOfTwo(s[8..]);
    CenturyAndYear(NumberOf(s[..2]), NumberOf(s[2..4]));
    hide NumberOf;
    hide Two;
    assert s == s[..2] + s[2..4] + [s[4]] + s[5..7] + [s[7]] + s[8..];
  }

  lemma DateSaysText(d: Date)
    requires IsWritten(d)
    ensures IsDateText(TextOf(d)) && DateOf(TextOf(d)) == d
  {
    var s := TextOf(d);
    TwoIsNumber(d.year / 100);
    TwoIsNumber(d.year % 100);
    TwoIsNumber(d.month);
    TwoIsNumber(d.day);
    assert s[..2] == Two(d.year / 100) && s[2..4] == Two(d.year % 100) && s[5..7] == Two(d.month);
    assert s[8..] == Two(d.day);
    hide NumberOf;
    hide Two;
    assert s[..4][..2] == s[..2] && s[..4][2..] == s[2..4];
    forall i | 0 <= i < 4 ensures IsDigit(s[i]) { assert s[i] == if i < 2 then s[..2][i] else s[2..4][i - 2]; }
    assert s[5] == s[5..7][0] && s[6] == s[5..7][1] && s[8] == s[8..][0] && s[9] == s[8..][1];
    NumberOfFour(s[..4]);
  }

  lemma TwoIsNumber(n: int)
    requires 0 <= n <= 99
    ensures |Two(n)| == 2 && IsDigit(Two(n)[0]) && IsDigit(Two(n)[1]) && NumberOf(Two(n)) == n
  {
    NumberOfTwo(Two(n));
  }

  function YearDays(y: int): int { if Leap(y) then 366 else 365 }

  /** The first day of year y, counted from 1 January 1970 by year lengths. */
  function DayFromYear(y: int): int
    decreases if y < 1970 then 1970 - y else y - 1970
  {
    if y == 1970 then 0
    else if y > 1970 then DayFromYear(y - 1) + YearDays(y - 1)
    else DayFromYear(y + 1) - YearDays(y)
  }

  /** Days of year y before month mn, months counted from zero. */
  function MonthStart(y: int, mn: int): int {
    var leap := if Leap(y) then 1 else 0;
    if mn <= 0 then 0 else if mn == 1 then 31
    else leap + (if mn == 2 then 59 else if mn == 3 then 90 else if mn == 4 then 120
                 else if mn == 5 then 151 else if mn == 6 then 181 else if mn == 7 then 212
                 else if mn == 8 then 243 else if mn == 9 then 273 else if mn == 10 then 304
                 else 334)
  }

  function MakeDay(year: int, month: int, date: int): int {
    var ym := year + month / 12;
    var mn := month % 12;
    DayFromYear(ym) + MonthStart(ym, mn) + date - 1
  }

  /** The day number whose midnight Date.UTC(year, month - 1, day) denotes. */
  function UtcDay(d: Date): int {
    MakeDay(if 0 <= d.year <= 99 then 1900 + d.year else d.year, d.month - 1, d.day)
  }

  /** The day number whose midnight an ISO text denotes for Date.parse, which moves no year. */
  function IsoDay(d: Date): int { MakeDay(d.year, d.month - 1, d.day) }

  function UtcMs(d: Date): int { MS_PER_DAY * UtcDay(d) }

  function CalculateDaysRequested(start: Date, end: Date): int {
    var diffMs := UtcMs(end) - UtcMs(start);
    var days := diffMs / MS_PER_DAY + 1;
    Max(days, 1)
  }

  predicate DatesOverlap(start1: Date, end1: Date, start2: Date, end2: Date) {
    UtcMs(start1) <= UtcMs(end2) && UtcMs(start2) <= UtcMs(end1)
  }

  /** today is the day number of the current UTC date. */
  predicate IsNotInPast(d: Date, today: int) { UtcMs(d) >= MS_PER_DAY * today }

  /** Calendar order, which is also the order of well-formed ISO date texts. */
  predicate Before(a: Date, b: Date) {
    a.year < b.year
    || (a.year == b.year && (a.month < b.month || (a.month == b.month && a.day < b.day)))
  }

  predicate NotAfter(a: Date, b: Date) { a == b || Before(a, b) }

  /** The next day of the calendar, defined without day numbers. */
  function NextDate(d: Date): Date {
    if d.day < DaysInMonth(d.year, d.month) then d.(day := d.day + 1)
    else if d.month < 12 then Date(d.year, d.month + 1, 1)
    else Date(d.year + 1, 1, 1)
  }

  function Advance(d: Date, n: nat): Date {
    if n == 0 then d else NextDate(Advance(d, n - 1))
  }

  lemma QuarterStep(x: int)
    ensures (x + 1) / 4 == if (x + 1) % 4 == 0 then x / 4 + 1 else x / 4
  {
  }

  lemma CenturyStep(x: int)
    ensures (x + 1) / 100 == if (x + 1) % 100 == 0 then x / 100 + 1 else x / 100
  {
  }

  lemma FourCenturyStep(x: int)
    ensures (x + 1) / 400 == if (x + 1) % 400 == 0 then x / 400 + 1 else x / 400
  {
  }

  lemma LeapDigits(y: int)
    ensures (y - 1968) % 4 == 0 <==> y % 4 == 0
    ensures (y - 1900) % 100 == 0 <==> y % 100 == 0
    ensures (y - 1600) % 400 == 0 <==> y % 400 == 0
    ensures y % 400 == 0 ==> y % 100 == 0
    ensures y % 100 == 0 ==> y % 4 == 0
  {
    assert (y - 1968) / 4 == y / 4 - 492 && (y - 1900) / 100 == y / 100 - 19 && (y - 1600) / 400 == y / 400 - 4;
    assert y % 400 == 0 ==> y == 100 * (4 * (y / 400));
    assert y % 100 == 0 ==> y == 4 * (25 * (y / 100));
  }

  function DayFromYearFormula(y: int): int {
    365 * (y - 1970) + (y - 1969) / 4 - (y - 1901) / 100 + (y - 1601) / 400
  }

  lemma FormulaStep(y: int)
    ensures DayFromYearFormula(y + 1) == DayFromYearFormula(y) + YearDays(y)
  {
    QuarterStep(y - 1969);
    CenturyStep(y - 1901);
    FourCenturyStep(y - 1601);
    LeapDigits(y);
  }

  /** Counting year lengths gives the closed form of the ECMAScript standard. */
  lemma {:induction false} DayFromYearIsTheStandardFormula(y: int)
    ensures DayFromYear(y) == DayFromYearFormula(y)
    decreases if y < 1970 then 1970 - y else y - 1970
  {
    hide YearDays;
    if y > 1970 {
      DayFromYearIsTheStandardFormula(y - 1);
      FormulaStep(y - 1);
    } else if y < 1970 {
      DayFromYearIsTheStandardFormula(y + 1);
      FormulaStep(y);
    }
  }

  /** Consecutive years differ by the length of the first one. */
  lemma YearLength(y: int)
    ensures DayFromYear(y + 1) == DayFromYear(y) + YearDays(y)
  {
  }

  lemma {:induction false} LaterYearStartsLater(y: int, z: int)
    requires y < z
    ensures DayFromYear(y) + 365 <= DayFromYear(z)
    ensures Leap(y) ==> DayFromYear(y) + 366 <= DayFromYear(z)
    decreases z - y
  {
    YearLength(z - 1);
    if y < z - 1 { LaterYearStartsLater(y, z - 1); }
  }

  function DayInYear(d: Date): int { MonthStart(d.year, d.month - 1) + d.day - 1 }

  /** Every day of a year falls before the first day of the next one. */
  lemma WithinYear(d: Date)
    requires IsWritten(d)
    ensures 0 <= DayInYear(d) < YearDays(d.year)
  {
  }

  lemma SameYearOrder(a: Date, b: Date)
    requires IsDate(a) && IsDate(b) && a.year == b.year
    ensures DayInYear(a) < DayInYear(b) <==> Before(a, b)
    ensures DayInYear(a) == DayInYear(b) <==> a == b
  {
  }

  lemma UnmovedYear(d: Date)
    requires 1 <= d.month <= 12 && d.year >= 100
    ensures UtcDay(d) == DayFromYear(d.year) + DayInYear(d)
  {
    assert (d.month - 1) / 12 == 0 && (d.month - 1) % 12 == d.month - 1;
  }

  lemma EarlierYearIsEarlier(a: Date, b: Date)
    requires IsDate(a) && IsDate(b) && 100 <= a.year < b.year
    ensures UtcDay(a) < UtcDay(b)
  {
    hide UtcDay;
    hide DayInYear;
    hide DayFromYear;
    UnmovedYear(a);
    UnmovedYear(b);
    WithinYear(a);
    WithinYear(b);
    LaterYearStartsLater(a.year, b.year);
  }

  /** From year 100 on, Date.UTC numbers the days in calendar order, so distinct dates get distinct days. */
  lemma DayNumbersFollowTheCalendar(a: Date, b: Date)
    requires IsDate(a) && IsDate(b) && a.year >= 100 && b.year >= 100
    ensures UtcDay(a) < UtcDay(b) <==> Before(a, b)
    ensures UtcDay(a) == UtcDay(b) <==> a == b
  {
    hide UtcDay;
    hide DayInYear;
    hide DayFromYear;
    if a.year < b.year {
      EarlierYearIsEarlier(a, b);
    } else if b.year < a.year {
      EarlierYearIsEarlier(b, a);
    } else {
      UnmovedYear(a);
      UnmovedYear(b);
      SameYearOrder(a, b);
    }
  }

  lemma NextWithinYear(d: Date)
    requires IsDate(d)
    ensures NextDate(d).year == d.year ==> DayInYear(NextDate(d)) == DayInYear(d) + 1
    ensures NextDate(d).year != d.year ==>
      NextDate(d) == Date(d.year + 1, 1, 1) && DayInYear(NextDate(d)) == 0 && DayInYear(d) + 1 == YearDays(d.year)
  {
  }

  /** ... and numbers consecutive calendar days consecutively. */
  lemma NextDateIsNextDay(d: Date)
    requires IsDate(d) && d.year >= 100
    ensures UtcDay(NextDate(d)) == UtcDay(d) + 1
    ensures NextDate(d).year <= 9999 ==> IsDate(NextDate(d)) && NextDate(d).year >= 100
  {
    hide UtcDay;
    hide DayInYear;
    hide DayFromYear;
    YearLength(d.year);
    UnmovedYear(d);
    UnmovedYear(NextDate(d));
    NextWithinYear(d);
  }

  lemma {:induction false} AdvanceCountsDays(d: Date, n: nat)
    requires IsDate(d) && d.year >= 100 && UtcDay(d) + n <= UtcDay(Date(9999, 12, 31))
    ensures IsDate(Advance(d, n)) && Advance(d, n).year >= 100 && UtcDay(Advance(d, n)) == UtcDay(d) + n
  {
    hide UtcDay;
    if n > 0 {
      AdvanceCountsDays(d, n - 1);
      var p := Advance(d, n - 1);
      NextDateIsNextDay(p);
      DayNumbersFollowTheCalendar(p, Date(9999, 12, 31));
      assert p != Date(9999, 12, 31);
    }
  }

  lemma MillisecondsAndDays(start: Date, end: Date)
    ensures CalculateDaysRequested(start, end) == Max(UtcDay(end) - UtcDay(start) + 1, 1)
    ensures UtcMs(start) <= UtcMs(end) <==> UtcDay(start) <= UtcDay(end)
  {
    hide UtcDay;
    var n := UtcDay(end) - UtcDay(start);
    assert UtcMs(end) - UtcMs(start) == MS_PER_DAY * n;
    assert MS_PER_DAY * n / MS_PER_DAY == n;
  }

  // ---------- the calendar day a written date denotes ----------

  /** Years 0 to 99 are moved into the 1900s, days beyond the month's end into the next month. */
  function Denoted(d: Date): Date {
    var e := if 0 <= d.year <= 99 then d.(year := 1900 + d.year) else d;
    var length := DaysInMonth(e.year, e.month);
    if e.day <= length then e else Date(e.year, e.month + 1, e.day - length)
  }

  lemma OverflowingDay(d: Date)
    requires IsWritten(d) && d.year >= 100 && d.day > DaysInMonth(d.year, d.month)
    ensures IsDate(Denoted(d)) && DayInYear(Denoted(d)) == DayInYear(d)
  {
  }

  /** The day number of a written date is that of the calendar day it denotes. */
  lemma WrittenDatesDenote(d: Date)
    requires IsWritten(d)
    ensures IsDate(Denoted(d)) && Denoted(d).year >= 100 && UtcDay(Denoted(d)) == UtcDay(d)
    ensures IsDate(d) && d.year >= 100 ==> Denoted(d) == d
  {
    var e := if d.year <= 99 then d.(year := 1900 + d.year) else d;
    assert UtcDay(e) == UtcDay(d) && Denoted(e) == Denoted(d);
    hide UtcDay;
    hide DayInYear;
    hide DayFromYear;
    if e.day > DaysInMonth(e.year, e.month) {
      OverflowingDay(e);
      UnmovedYear(e);
      UnmovedYear(Denoted(e));
    }
  }

  /**
   * Day numbers order written dates as the calendar orders what they denote, and collide
   * exactly when that is the same day.
   */
  lemma DayNumbersFollowDenotedDays(a: Date, b: Date)
    requires IsWritten(a) && IsWritten(b)
    ensures UtcDay(a) < UtcDay(b) <==> Before(Denoted(a), Denoted(b))
    ensures UtcDay(a) == UtcDay(b) <==> Denoted(a) == Denoted(b)
  {
    hide UtcDay;
    hide Denoted;
    WrittenDatesDenote(a);
    WrittenDatesDenote(b);
    DayNumbersFollowTheCalendar(Denoted(a), Denoted(b));
  }

  /**
   * daysRequested is the inclusive length of the leave: walking that many calendar
   * days, counting the first, leads from the first day to the last.
   */
  lemma DaysRequestedSpansTheLeave(start: Date, end: Date)
    requires IsWritten(start) && IsWritten(end) && NotAfter(Denoted(start), Denoted(end))
    ensures CalculateDaysRequested(start, end) >= 1
    ensures Advance(Denoted(start), CalculateDaysRequested(start, end) - 1) == Denoted(end)
  {
    hide UtcDay;
    hide CalculateDaysRequested;
    hide Advance;
    hide Denoted;
    MillisecondsAndDays(start, end);
    WrittenDatesDenote(start);
    WrittenDatesDenote(end);
    DayNumbersFollowTheCalendar(Denoted(start), Denoted(end));
    DayNumbersFollowTheCalendar(Denoted(end), Date(9999, 12, 31));
    var n := UtcDay(end) - UtcDay(start);
    AdvanceCountsDays(Denoted(start), n);
    DayNumbersFollowTheCalendar(Advance(Denoted(start), n), Denoted(end));
  }

  /** Both dates lie on the leave from the one to the other. */
  predicate Within(d: Date, start: Date, end: Date) {
    NotAfter(Denoted(start), d) && NotAfter(d, Denoted(end))
  }

  /** Two leaves overlap exactly when some calendar date lies in both. */
  lemma OverlapIsASharedDate(s1: Date, e1: Date, s2: Date, e2: Date)
    requires IsWritten(s1) && IsWritten(e1) && IsWritten(s2) && IsWritten(e2)
    requires NotAfter(Denoted(s1), Denoted(e1)) && NotAfter(Denoted(s2), Denoted(e2))
    ensures DatesOverlap(s1, e1, s2, e2) <==> exists d :: IsDate(d) && Within(d, s1, e1) && Within(d, s2, e2)
  {
    hide UtcDay;
    hide UtcMs;
    hide Denoted;
    MillisecondsAndDays(s1, e2);
    MillisecondsAndDays(s2, e1);
    DayNumbersFollowDenotedDays(s1, e2);
    DayNumbersFollowDenotedDays(s2, e1);
    WrittenDatesDenote(s1);
    WrittenDatesDenote(s2);
    if DatesOverlap(s1, e1, s2, e2) {
      var later := if Before(Denoted(s1), Denoted(s2)) then Denoted(s2) else Denoted(s1);
      assert Within(later, s1, e1) && Within(later, s2, e2);
    }
  }

  // ---------- which years get through ----------

  lemma MovedYear(d: Date)
    requires IsWritten(d) && d.year <= 99
    ensures DayFromYear(1900 + d.year) <= UtcDay(d) < DayFromYear(1900 + d.year) + YearDays(1900 + d.year)
  {
    assert (d.month - 1) / 12 == 0 && (d.month - 1) % 12 == d.month - 1;
  }

  /**
   * Calendar order is lost between the years Date.UTC moves into the 1900s and those they
   * jump over, and every date it moves shares its number with the year it is moved to.
   */
  lemma TwoDigitYearsAreMoved(a: Date, b: Date)
    requires IsDate(a) && IsDate(b) && a.year <= 99 && 100 <= b.year < 1900
    ensures Before(a, b) && UtcDay(a) > UtcDay(b)
    ensures UtcDay(a) == UtcDay(a.(year := 1900 + a.year)) && Before(a, a.(year := 1900 + a.year))
  {
    MovedYear(a);
    UnmovedYear(b);
    hide UtcDay;
    hide DayInYear;
    hide DayFromYear;
    WithinYear(b);
    LaterYearStartsLater(b.year, 1900 + a.year);
  }

  lemma WrittenYear(d: Date)
    requires IsWritten(d)
    ensures IsoDay(d) == DayFromYear(d.year) + DayInYear(d)
    ensures DayFromYear(d.year) <= IsoDay(d) < DayFromYear(d.year + 1)
    ensures d.year >= 100 ==> UtcDay(d) == IsoDay(d)
  {
    assert (d.month - 1) / 12 == 0 && (d.month - 1) % 12 == d.month - 1;
    hide DayInYear;
    WithinYear(d);
    YearLength(d.year);
  }

  lemma NotInPastByDays(d: Date, today: int)
    ensures IsNotInPast(d, today) <==> UtcDay(d) >= today
  {
    hide UtcDay;
  }

  lemma BeforeTheEpoch(d: Date)
    requires IsWritten(d) && d.year < 2000
    ensures UtcDay(d) < DayFromYear(2000)
  {
    hide UtcDay;
    hide IsoDay;
    hide DayFromYear;
    hide DayInYear;
    var y := if d.year <= 99 then 1900 + d.year else d.year;
    if d.year <= 99 { MovedYear(d); } else { WrittenYear(d); YearLength(d.year); }
    LaterYearStartsLater(y, 2000);
  }

  /** Under a clock past 1999 the date checks of createRequest let none of those years through. */
  lemma AcceptedDatesAreUnmoved(start: Date, end: Date, today: int)
    requires IsWritten(start) && IsWritten(end) && today >= UtcDay(Date(2000, 1, 1))
    requires IsNotInPast(start, today) && IsoDay(start) <= IsoDay(end)
    ensures 2000 <= start.year <= end.year
    ensures IsoDay(start) == UtcDay(start) <= UtcDay(end) == IsoDay(end)
  {
    UnmovedYear(Date(2000, 1, 1));
    assert DayInYear(Date(2000, 1, 1)) == 0;
    NotInPastByDays(start, today);
    hide *;
    if start.year < 2000 { BeforeTheEpoch(start); }
    WrittenYear(start);
    WrittenYear(end);
    if end.year + 1 < start.year { LaterYearStartsLater(end.year + 1, start.year); }
  }
}
