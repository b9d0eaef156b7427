/**
 Calendar arithmetic of the real-time clock (kernel/src/cmos/cmos_rtc.c): civil time to seconds
 and back, in 32-bit arithmetic, with the year passed to months_to_sec in eight bits.
 */
module Rtc {
  import opened Words
  import opened Loops

  const DAY: int := 86400
  const HOUR: int := 3600
  const MINUTE: int := 60

  type u32 = x: int | 0 <= x < 0x1_0000_0000

  function Wrap32(x: int): u32 {
    x % 0x1_0000_0000
  }

  lemma {:induction false} SmallWrap32(x: int)
    requires 0 <= x < 0x1_0000_0000
    ensures Wrap32(x) == x
  {
  }

  /** ktime_t. */
  datatype Time = Time(year: nat, month: nat, day: nat, hour: nat, minute: nat, second: nat)

  /////////////////////////////////////////////////////////////////////////////
  // The Gregorian calendar
  /////////////////////////////////////////////////////////////////////////////

  predicate Leap(year: nat) {
    year % 4 == 0 && (year % 100 != 0 || year % 400 == 0)
  }

  function YearLength(year: nat): nat {
    if Leap(year) then 366 else 365
  }

  function MonthLength(month: nat, leap: bool): nat {
    if month == 2 then (if leap then 29 else 28)
    else if month in {4, 6, 9, 11} then 30
    else 31
  }

  predicate Valid(t: Time) {
    1970 <= t.year && InCalendar(t, Leap(t.year))
  }

  /** A valid time of a year with or without a leap day. */
  predicate InCalendar(t: Time, leap: bool) {
    && 1 <= t.month <= 12 && 1 <= t.day <= MonthLength(t.month, leap)
    && t.hour < 24 && t.minute < 60 && t.second < 60
  }

  const EPOCH := Time(1970, 1, 1, 0, 0, 0)

  /** One second later. */
  function Tick(t: Time): Time {
    TickIn(t, Leap(t.year))
  }

  function TickIn(t: Time, leap: bool): Time {
    if t.second < 59 then t.(second := t.second + 1)
    else if t.minute < 59 then t.(minute := t.minute + 1, second := 0)
    else if t.hour < 23 then t.(hour := t.hour + 1, minute := 0, second := 0)
    else if t.day < MonthLength(t.month, leap) then Time(t.year, t.month, t.day + 1, 0, 0, 0)
    else if t.month < 12 then Time(t.year, t.month + 1, 1, 0, 0, 0)
    else Time(t.year + 1, 1, 1, 0, 0, 0)
  }

  /** The days of the years 1970, ..., year. */
  function DaysThrough(year: nat): nat {
    if year <= 1969 then 0 else DaysThrough(year - 1) + YearLength(year)
  }

  /** The days of the first `months` months of a year. */
  function DaysOfMonths(months: nat, leap: bool): nat
    decreases months
  {
    if months == 0 then 0 else DaysOfMonths(months - 1, leap) + MonthLength(months, leap)
  }

  function SecondOfDay(t: Time): nat {
    HOUR * t.hour + MINUTE * t.minute + t.second
  }

  /** The seconds from the epoch to t. */
  function Seconds(t: Time): int
    requires t.year >= 1 && t.month >= 1
  {
    DAY * DaysThrough(t.year - 1) + SecondsInYear(t, Leap(t.year))
  }

  /** The seconds from the start of its year, which has a leap day or not. */
  function SecondsInYear(t: Time, leap: bool): int
    requires t.month >= 1
  {
    DAY * DayInYear(t.month, t.day, leap) + SecondOfDay(t)
  }

  /** The days of a year before this one. */
  function DayInYear(month: nat, day: nat, leap: bool): int
    requires month >= 1
  {
    DaysOfMonths(month - 1, leap) + day - 1
  }

  lemma {:induction false} TwelveMonths(leap: bool)
    ensures DaysOfMonths(0, leap) == 0 && DaysOfMonths(1, leap) == 31
    ensures var f := if leap then 1 else 0;
            && DaysOfMonths(2, leap) == 59 + f && DaysOfMonths(3, leap) == 90 + f && DaysOfMonths(4, leap) == 120 + f
            && DaysOfMonths(5, leap) == 151 + f && DaysOfMonths(6, leap) == 181 + f && DaysOfMonths(7, leap) == 212 + f
            && DaysOfMonths(8, leap) == 243 + f && DaysOfMonths(9, leap) == 273 + f && DaysOfMonths(10, leap) == 304 + f
            && DaysOfMonths(11, leap) == 334 + f && DaysOfMonths(12, leap) == 365 + f
  {
    assert DaysOfMonths(4, leap) == DaysOfMonths(0, leap) + 120 + if leap then 1 else 0;
    assert DaysOfMonths(8, leap) == DaysOfMonths(4, leap) + 123;
    assert DaysOfMonths(12, leap) == DaysOfMonths(8, leap) + 122;
  }

  /** Seconds counts ticks: none at the epoch, and each tick adds one. */
  lemma {:induction false} SecondsCountTicks(t: Time)
    requires Valid(t)
    ensures Seconds(EPOCH) == 0
    ensures Valid(Tick(t)) && Seconds(Tick(t)) == Seconds(t) + 1
  {
    StartOfYear(EPOCH, Leap(1970));
    TickFrom(t, DaysThrough(t.year - 1), Leap(t.year), Leap(t.year + 1));
    SecondsOfTick(t, Tick(t));
  }

  /** One second more, with the days of the years before and the leap days given. */
  predicate OneMore(t: Time, next: Time, days: nat, leap: bool, nextLeap: bool)
    requires t.month >= 1
  {
    if next.year == t.year then
      InCalendar(next, leap) && DAY * days + SecondsInYear(next, leap) == DAY * days + SecondsInYear(t, leap) + 1
    else
      && next.year == t.year + 1 && InCalendar(next, nextLeap)
      && DAY * (days + if leap then 366 else 365) + SecondsInYear(next, nextLeap)
         == DAY * days + SecondsInYear(t, leap) + 1
  }

  lemma {:induction false} SecondsOfTick(t: Time, next: Time)
    requires Valid(t) && OneMore(t, next, DaysThrough(t.year - 1), Leap(t.year), Leap(t.year + 1))
    ensures Valid(next) && Seconds(next) == Seconds(t) + 1
  {
  }

  lemma {:induction false} TickFrom(t: Time, days: nat, leap: bool, nextLeap: bool)
    requires InCalendar(t, leap)
    ensures OneMore(t, TickIn(t, leap), days, leap, nextLeap)
  {
    TickInYear(t, leap);
    if TickIn(t, leap).year > t.year {
      StartOfYear(TickIn(t, leap), nextLeap);
    }
  }

  lemma {:induction false} StartOfYear(t: Time, leap: bool)
    requires t == Time(t.year, 1, 1, 0, 0, 0)
    ensures InCalendar(t, leap) && SecondsInYear(t, leap) == 0
  {
  }

  lemma {:induction false} TickInYear(t: Time, leap: bool)
    requires InCalendar(t, leap)
    ensures var next := TickIn(t, leap);
            if next.year == t.year then
              InCalendar(next, leap) && SecondsInYear(next, leap) == SecondsInYear(t, leap) + 1
            else next == Time(t.year + 1, 1, 1, 0, 0, 0)
                 && SecondsInYear(t, leap) + 1 == DAY * if leap then 366 else 365
  {
    var next := TickIn(t, leap);
    if SecondOfDay(t) < DAY - 1 {
      assert next.month == t.month && next.day == t.day && SecondOfDay(next) == SecondOfDay(t) + 1;
    } else {
      LastDay(t.month, leap);
      assert SecondOfDay(t) == DAY - 1 && SecondOfDay(next) == 0;
    }
  }

  /** The day behind the last of a month. */
  lemma {:induction false} LastDay(month: nat, leap: bool)
    requires 1 <= month <= 12
    ensures var day := DayInYear(month, MonthLength(month, leap), leap) + 1;
            day == if month < 12 then DayInYear(month + 1, 1, leap) else if leap then 366 else 365
  {
    if month == 12 {
      TwelveMonths(leap);
    }
  }

  /** The order of the calendar: years first, seconds last. */
  predicate Earlier(t: Time, u: Time) {
    t.year < u.year || (t.year == u.year &&
    (t.month < u.month || (t.month == u.month &&
    (t.day < u.day || (t.day == u.day && SecondOfDay(t) < SecondOfDay(u))))))
  }

  lemma {:induction false} YearsGrow(a: nat, b: nat)
    requires 1969 <= a < b
    ensures DaysThrough(a) + YearLength(a + 1) <= DaysThrough(b)
    decreases b
  {
    if a + 1 < b {
      YearsGrow(a, b - 1);
    }
  }

  lemma {:induction false} MonthsGrow(a: nat, b: nat, leap: bool)
    requires a < b
    ensures DaysOfMonths(a, leap) + MonthLength(a + 1, leap) <= DaysOfMonths(b, leap)
    decreases b
  {
    if a + 1 < b {
      MonthsGrow(a, b - 1, leap);
    }
  }

  /** A valid time falls into its own month and year. */
  lemma {:induction false} InMonth(t: Time, leap: bool)
    requires InCalendar(t, leap)
    ensures DAY * DaysOfMonths(t.month - 1, leap) <= SecondsInYear(t, leap) < DAY * DaysOfMonths(t.month, leap)
    ensures 0 <= SecondsInYear(t, leap) < DAY * if leap then 366 else 365
  {
    var day := DayInYear(t.month, t.day, leap);
    assert SecondOfDay(t) < DAY && DaysOfMonths(t.month - 1, leap) <= day < DaysOfMonths(t.month, leap);
    assert DaysOfMonths(t.month, leap) <= DaysOfMonths(12, leap) == if leap then 366 else 365 by {
      TwelveMonths(leap);
      if t.month < 12 {
        MonthsGrow(t.month, 12, leap);
      }
    }
  }

  /** Seconds respects the order of the calendar. */
  lemma {:induction false} SecondsIncrease(t: Time, u: Time)
    requires Valid(t) && Valid(u) && Earlier(t, u)
    ensures Seconds(t) < Seconds(u)
  {
    if t.year < u.year {
      YearsGrow(t.year - 1, u.year - 1);
      LaterYear(t, DaysThrough(t.year - 1), Leap(t.year), u, DaysThrough(u.year - 1), Leap(u.year));
    } else {
      SecondsIncreaseInYear(t, u, Leap(t.year));
    }
  }

  lemma {:induction false} LaterYear(t: Time, d: nat, leap: bool, u: Time, e: nat, leap': bool)
    requires InCalendar(t, leap) && InCalendar(u, leap') && d + (if leap then 366 else 365) <= e
    ensures DAY * d + SecondsInYear(t, leap) < DAY * e + SecondsInYear(u, leap')
  {
    InMonth(t, leap);
    InMonth(u, leap');
  }

  lemma {:induction false} SecondsIncreaseInYear(t: Time, u: Time, leap: bool)
    requires InCalendar(t, leap) && InCalendar(u, leap) && Earlier(t, u) && t.year == u.year
    ensures SecondsInYear(t, leap) < SecondsInYear(u, leap)
  {
    var d, e := DayInYear(t.month, t.day, leap), DayInYear(u.month, u.day, leap);
    if t.month < u.month {
      MonthsGrow(t.month - 1, u.month - 1, leap);
    }
    assert SecondOfDay(t) < DAY && SecondOfDay(u) < DAY;
    assert d < e || (d == e && SecondOfDay(t) < SecondOfDay(u));
  }

  /////////////////////////////////////////////////////////////////////////////
  // RTC_time_to_int
  /////////////////////////////////////////////////////////////////////////////

  /** years_to_sec. */
  function YearsToSec(years: nat): u32 {
    Wrap32(DAY * DaysThrough(years))
  }

  method YearsToSecLoop(years: u32) returns (seconds: u32)
    ensures seconds == YearsToSec(years)
  {
    var left: nat, days: u32 := years, 0;
    ghost var counted := 0;
    while left > 1969
      invariant left <= years && DaysThrough(years) == DaysThrough(left) + counted && days == Wrap32(counted)
    {
      var length := LengthOfYear(left);
      days, counted := AddWrapped(days, counted, length);
      left := left - 1;
    }
    WrappedProduct(counted);
    seconds := Wrap32(days * DAY);
  }

  /** The body of the loop: 365 days, and one more in a leap year. */
  method LengthOfYear(year: nat) returns (days: nat)
    ensures days == YearLength(year)
  {
    days := 365;
    if year % 4 == 0 {
      if year % 100 == 0 {
        if year % 400 == 0 {
          days := days + 1;
        }
      } else {
        days := days + 1;
      }
    }
  }

  lemma {:induction false} WrappedProduct(days: int)
    ensures Wrap32(Wrap32(days) * DAY) == Wrap32(DAY * days)
  {
    var n, q := days / 0x1_0000_0000, Wrap32(days) * DAY / 0x1_0000_0000;
    ModUnique(DAY * days, 0x1_0000_0000, DAY * n + q, Wrap32(Wrap32(days) * DAY));
  }

  /** An addition of 32 bits; `total` is the sum without wrap-around. */
  method AddWrapped(r: u32, ghost total: int, x: int) returns (sum: u32, ghost whole: int)
    requires r == Wrap32(total)
    ensures whole == total + x && sum == Wrap32(whole)
  {
    sum, whole := Wrap32(r + x), total + x;
  }

  /** The leap test of months_to_sec, on the year modulo 256. */
  predicate LeapByte(year: nat) {
    Leap(year % 256)
  }

  /** months_to_sec: twelve or more months count as none. */
  function MonthsToSec(months: nat, leap: bool): nat {
    if months <= 11 then DAY * DaysOfMonths(months, leap) else 0
  }

  /** The cases of months_to_sec, each of which falls through to the next. */
  method MonthsToSecSwitch(months: nat, year: nat) returns (seconds: nat)
    ensures seconds == MonthsToSec(months, LeapByte(year)) && (months > 11 ==> seconds == 0)
  {
    TwelveMonths(LeapByte(year));
    var days, low := 0, year % 256;
    if 11 <= months <= 11 { days := days + 30; }
    if 10 <= months <= 11 { days := days + 31; }
    if 9 <= months <= 11 { days := days + 30; }
    if 8 <= months <= 11 { days := days + 31; }
    if 7 <= months <= 11 { days := days + 31; }
    if 6 <= months <= 11 { days := days + 30; }
    if 5 <= months <= 11 { days := days + 31; }
    if 4 <= months <= 11 { days := days + 30; }
    if 3 <= months <= 11 { days := days + 31; }
    if 2 <= months <= 11 {
      days := days + 28;
      if low % 4 == 0 && (low % 100 != 0 || low % 400 == 0) {
        days := days + 1;
      }
    }
    if 1 <= months <= 11 { days := days + 31; }
    seconds := days * DAY;
  }

  /** The sum of RTC_time_to_int, with the differences of a 32-bit year and an 8-bit month. */
  function TimeSum(t: Time): int {
    var years := if t.year == 0 then 0xFFFF_FFFF else t.year - 1;
    var months := if t.month == 0 then 0xFF else t.month - 1;
    DAY * DaysThrough(years) + MonthsToSec(months, LeapByte(t.year)) + DAY * (t.day - 1) + SecondOfDay(t)
  }

  /** RTC_time_to_int. */
  function TimeToInt(t: Time): u32 {
    Wrap32(TimeSum(t))
  }

  method RtcTimeToInt(t: Time) returns (r: u32)
    requires t.year < 0x1_0000_0000 && t.month < 256
    ensures r == TimeToInt(t)
  {
    var years := YearsToSecLoop(if t.year == 0 then 0xFFFF_FFFF else t.year - 1);
    var months := MonthsToSecSwitch(if t.month == 0 then 0xFF else t.month - 1, t.year);
    ghost var total := DAY * DaysThrough(if t.year == 0 then 0xFFFF_FFFF else t.year - 1);
    r, total := AddWrapped(years, total, months);
    r, total := AddWrapped(r, total, (t.day - 1) * DAY);
    r, total := AddWrapped(r, total, t.hour * HOUR);
    r, total := AddWrapped(r, total, t.minute * MINUTE);
    r, total := AddWrapped(r, total, t.second);
  }

  /** The 8-bit year has the leap day that the year has. */
  predicate LeapSeen(year: nat) {
    LeapByte(year) <==> Leap(year)
  }

  /** From 1970 to 2105 the 8-bit year is wrong in 1992 and 2100 alone. */
  lemma {:induction false} LeapSeenUntil2105(year: nat)
    requires 1970 <= year <= 2105
    ensures LeapSeen(year) <==> year != 1992 && year != 2100
    ensures !LeapByte(1992) && LeapByte(2100)
  {
    if year < 2048 {
      assert year % 256 == year - 1792;
    } else {
      assert year % 256 == year - 2048;
    }
  }

  /** Until the end of 2105 seconds fit into 32 bits. */
  lemma {:induction false} FitsUntil2105(year: nat)
    requires 1970 <= year <= 2105
    ensures DAY * (DaysThrough(year - 1) + 367) < 0x1_0000_0000
  {
    DaysBound(year);
  }

  lemma {:induction false} DaysBound(year: nat)
    requires 1969 <= year
    ensures 4 * DaysThrough(year) <= 1461 * (year - 1969) + 3
    decreases year
  {
    if year >= 1973 {
      DaysBound(year - 4);
      assert DaysThrough(year - 3) == DaysThrough(year - 4) + YearLength(year - 3);
      assert DaysThrough(year - 2) == DaysThrough(year - 3) + YearLength(year - 2);
      assert DaysThrough(year - 1) == DaysThrough(year - 2) + YearLength(year - 1);
    } else {
      assert DaysThrough(1969) == 0;
      assert DaysThrough(1970) == 365 && DaysThrough(1971) == 730 && DaysThrough(1972) == 1096;
    }
  }

  /**
   RTC_time_to_int gives the Gregorian seconds since 1970 if and only if the time lies before
   March or the 8-bit year is right about the leap day.
   */
  lemma {:induction false} TimeToIntIsGregorian(t: Time)
    requires Valid(t) && t.year <= 2105
    ensures TimeToInt(t) == Seconds(t) <==> t.month <= 2 || LeapSeen(t.year)
  {
    FitsUntil2105(t.year);
    assert TimeSum(t) == DAY * DaysThrough(t.year - 1) + SecondsInYear(t, LeapByte(t.year));
    GregorianParts(t, DaysThrough(t.year - 1), Leap(t.year), LeapByte(t.year));
  }

  /** The leap day of 1992 has the number of the day behind it. */
  lemma {:induction false} LeapDay1992Lost()
    ensures Valid(Time(1992, 2, 29, 0, 0, 0)) && Valid(Time(1992, 3, 1, 0, 0, 0))
    ensures TimeToInt(Time(1992, 2, 29, 0, 0, 0)) == TimeToInt(Time(1992, 3, 1, 0, 0, 0))
  {
    TwelveMonths(LeapByte(1992));
  }

  lemma {:induction false} GregorianParts(t: Time, days: nat, leap: bool, seen: bool)
    requires InCalendar(t, leap) && DAY * (days + if leap then 366 else 365) < 0x1_0000_0000
    ensures Wrap32(DAY * days + SecondsInYear(t, seen)) == DAY * days + SecondsInYear(t, leap)
            <==> t.month <= 2 || seen == leap
  {
    InMonth(t, leap);
    LeapDayMissed(t, leap, seen);
    WrapsApart(DAY * days + SecondsInYear(t, leap), DAY * days + SecondsInYear(t, seen));
  }

  /** Numbers less than 2^32 apart wrap to the same word only if they are equal. */
  lemma {:induction false} WrapsApart(x: int, y: int)
    requires 0 <= x < 0x1_0000_0000 && -DAY <= y - x <= DAY
    ensures Wrap32(y) == x <==> y == x
  {
  }

  lemma {:induction false} LeapDayMissed(t: Time, leap: bool, seen: bool)
    requires InCalendar(t, leap)
    ensures -DAY <= SecondsInYear(t, seen) - SecondsInYear(t, leap) <= DAY
    ensures SecondsInYear(t, seen) == SecondsInYear(t, leap) <==> t.month <= 2 || seen == leap
  {
    TwelveMonths(leap);
    TwelveMonths(seen);
  }

  /////////////////////////////////////////////////////////////////////////////
  // RTC_int_to_time
  /////////////////////////////////////////////////////////////////////////////

  /** The loop over the years, from `year` on. */
  function FindYear(s: u32, year: nat, fuel: nat): Outcome<nat>
    decreases fuel
  {
    if fuel == 0 then Timeout
    else if s <= YearsToSec(year) then Ok(year)
    else FindYear(s, if year == 0xFFFF_FFFF then 0 else year + 1, fuel - 1)
  }

  /** The loop over the months, whose counter has eight bits. */
  function FindMonth(r: u32, month: nat, leap: bool, fuel: nat): Outcome<nat>
    decreases fuel
  {
    if fuel == 0 then Timeout
    else if r <= MonthsToSec(month, leap) then Ok(month)
    else FindMonth(r, if month == 0xFF then 0 else month + 1, leap, fuel - 1)
  }

  /** The rest q of the month as day and time of the day. */
  function InDay(year: nat, month: nat, q: u32): Time {
    Time(year, month, (q / DAY + 1) % 256, q % DAY / HOUR, q % DAY % HOUR / MINUTE, q % DAY % HOUR % MINUTE)
  }

  /** RTC_int_to_time. */
  function IntToTime(s: u32, fuel: nat): Outcome<Time> {
    var year :- FindYear(s, 1970, fuel);
    InYear(year, Wrap32(s - YearsToSec(if year == 0 then 0xFFFF_FFFF else year - 1)), LeapByte(year), fuel)
  }

  function InYear(year: nat, r: u32, leap: bool, fuel: nat): Outcome<Time> {
    var month :- FindMonth(r, 1, leap, fuel);
    Ok(InDay(year, month, Wrap32(r - MonthsToSec(if month == 0 then 0xFF else month - 1, leap))))
  }

  method RtcIntToTime(s: u32, fuel: nat) returns (r: Outcome<Time>)
    ensures r == IntToTime(s, fuel)
  {
    var year: nat, left: nat := 1970, fuel;
    var end := YearsToSecLoop(year);
    while left > 0 && s > end
      invariant year < 0x1_0000_0000 && end == YearsToSec(year)
      invariant FindYear(s, 1970, fuel) == FindYear(s, year, left)
    {
      year, left := if year == 0xFFFF_FFFF then 0 else year + 1, left - 1;
      end := YearsToSecLoop(year);
    }
    if left == 0 {
      return Timeout;
    }
    var start := YearsToSecLoop(if year == 0 then 0xFFFF_FFFF else year - 1);
    r := RtcMonth(year, Wrap32(s - start), fuel);
  }

  method RtcMonth(year: nat, time: u32, fuel: nat) returns (r: Outcome<Time>)
    ensures r == InYear(year, time, LeapByte(year), fuel)
  {
    ghost var leap := LeapByte(year);
    var month: nat, left: nat := 1, fuel;
    var end := MonthsToSecSwitch(month, year);
    while left > 0 && time > end
      invariant end == MonthsToSec(month, leap)
      invariant FindMonth(time, 1, leap, fuel) == FindMonth(time, month, leap, left)
    {
      month, left := if month == 0xFF then 0 else month + 1, left - 1;
      end := MonthsToSecSwitch(month, year);
    }
    if left == 0 {
      return Timeout;
    }
    var start := MonthsToSecSwitch(if month == 0 then 0xFF else month - 1, year);
    return Ok(InDay(year, month, Wrap32(time - start)));
  }

  lemma {:induction false} YearsToSecGrows(a: nat, b: nat)
    requires 1969 <= a <= b <= 2105
    ensures YearsToSec(b) == DAY * DaysThrough(b) && YearsToSec(a) <= YearsToSec(b)
    decreases b
  {
    if b > 1969 {
      FitsUntil2105(b);
    }
    if a < b {
      YearsToSecGrows(a, b - 1);
    }
  }

  lemma {:induction false} YearFound(s: u32, from: nat, year: nat, fuel: nat)
    requires 1970 <= from <= year <= 2105 && s <= YearsToSec(year)
    requires from < year ==> s > YearsToSec(year - 1)
    ensures FindYear(s, from, fuel) == if fuel > year - from then Ok(year) else Timeout
    decreases fuel
  {
    if fuel > 0 && from < year {
      YearsToSecGrows(from, year - 1);
      YearFound(s, from + 1, year, fuel - 1);
    }
  }

  lemma {:induction false} MonthsToSecGrows(a: nat, b: nat, leap: bool)
    requires a <= b <= 11
    ensures MonthsToSec(a, leap) <= MonthsToSec(b, leap)
  {
    if a < b {
      MonthsGrow(a, b, leap);
    }
  }

  lemma {:induction false} MonthFound(r: u32, from: nat, month: nat, leap: bool, fuel: nat)
    requires 1 <= from <= month <= 11 && r <= MonthsToSec(month, leap)
    requires from < month ==> r > MonthsToSec(month - 1, leap)
    ensures FindMonth(r, from, leap, fuel) == if fuel > month - from then Ok(month) else Timeout
    decreases fuel
  {
    if fuel > 0 && from < month {
      MonthsToSecGrows(from, month - 1, leap);
      MonthFound(r, from + 1, month, leap, fuel - 1);
    }
  }

  /** Behind the start of December the loop over the months does not end. */
  lemma {:induction false} MonthNeverFound(r: u32, month: nat, leap: bool, fuel: nat)
    requires r > MonthsToSec(11, leap)
    ensures FindMonth(r, month, leap, fuel) == Timeout
    decreases fuel
  {
    if month <= 11 {
      MonthsToSecGrows(month, 11, leap);
    }
    if fuel > 0 {
      MonthNeverFound(r, if month == 0xFF then 0 else month + 1, leap, fuel - 1);
    }
  }

  /** Midnight at the start of a month, other than the epoch. */
  predicate StartsMonth(t: Time) {
    t.day == 1 && SecondOfDay(t) == 0 && t != EPOCH
  }

  lemma {:induction false} DayFound(t: Time, leap: bool)
    requires InCalendar(t, leap)
    ensures var q := DAY * (t.day - 1) + SecondOfDay(t);
            0 <= q < 0x1_0000_0000 && InDay(t.year, t.month, q) == t
  {
    var q, inDay := DAY * (t.day - 1) + SecondOfDay(t), SecondOfDay(t);
    ModUnique(q, DAY, t.day - 1, inDay);
    ModUnique(inDay, HOUR, t.hour, MINUTE * t.minute + t.second);
    ModUnique(MINUTE * t.minute + t.second, MINUTE, t.minute, t.second);
  }

  predicate OtherTime(back: Outcome<Time>, t: Time, enough: bool) {
    back != Ok(t) && (back.Ok? || (back == Timeout && !enough))
  }

  /** In the right year: the time comes back exactly before December and not at the start of a month. */
  lemma {:induction false} YearInverts(t: Time, r: u32, leap: bool, fuel: nat)
    requires InCalendar(t, leap) && r == SecondsInYear(t, leap) && (r > 0 || t == EPOCH)
    ensures StartsMonth(t) ==> OtherTime(InYear(t.year, r, leap, fuel), t, fuel >= 12)
    ensures !StartsMonth(t) && t.month == 12 ==> InYear(t.year, r, leap, fuel) == Timeout
    ensures !StartsMonth(t) && t.month < 12 ==>
              InYear(t.year, r, leap, fuel) == if fuel >= t.month then Ok(t) else Timeout
  {
    if StartsMonth(t) {
      FirstDayMissed(t, r, leap, fuel);
    } else if t.month == 12 {
      December(t, r, leap, fuel);
    } else {
      LaterInMonth(t, r, leap, fuel);
    }
  }

  lemma {:induction false} December(t: Time, r: u32, leap: bool, fuel: nat)
    requires InCalendar(t, leap) && r == SecondsInYear(t, leap) && !StartsMonth(t) && t.month == 12
    ensures InYear(t.year, r, leap, fuel) == Timeout
  {
    assert DAY * (t.day - 1) + SecondOfDay(t) > 0;
    MonthNeverFound(r, 1, leap, fuel);
  }

  lemma {:induction false} LaterInMonth(t: Time, r: u32, leap: bool, fuel: nat)
    requires InCalendar(t, leap) && r == SecondsInYear(t, leap) && !StartsMonth(t) && t.month < 12
    requires r > 0 || t == EPOCH
    ensures InYear(t.year, r, leap, fuel) == if fuel >= t.month then Ok(t) else Timeout
  {
    MonthSpan(t, r, leap);
    MonthFound(r, 1, t.month, leap, fuel);
    DayFound(t, leap);
  }

  lemma {:induction false} MonthSpan(t: Time, r: u32, leap: bool)
    requires InCalendar(t, leap) && r == SecondsInYear(t, leap) && !StartsMonth(t) && t.month < 12
    ensures MonthsToSec(t.month - 1, leap) <= r <= MonthsToSec(t.month, leap)
    ensures t.month > 1 ==> r > MonthsToSec(t.month - 1, leap)
    ensures Wrap32(r - MonthsToSec(t.month - 1, leap)) == DAY * (t.day - 1) + SecondOfDay(t)
  {
    InMonth(t, leap);
    assert t.month > 1 ==> t != EPOCH;
    SmallWrap32(r - MonthsToSec(t.month - 1, leap));
  }

  lemma {:induction false} FirstDayMissed(t: Time, r: u32, leap: bool, fuel: nat)
    requires InCalendar(t, leap) && r == SecondsInYear(t, leap) > 0 && StartsMonth(t)
    ensures OtherTime(InYear(t.year, r, leap, fuel), t, fuel >= 12)
  {
    var before := t.month - 1;
    assert before >= 1 by {
      NewYearOnly(t, leap);
    }
    if before > 1 {
      MonthsGrow(before - 1, before, leap);
    }
    MonthFound(r, 1, before, leap, fuel);
    MonthOfDay(t.year, before, Wrap32(r - MonthsToSec(before - 1, leap)));
  }

  lemma {:induction false} NewYearOnly(t: Time, leap: bool)
    requires t.month >= 1 && t.day == 1 && SecondOfDay(t) == 0 && SecondsInYear(t, leap) > 0
    ensures t.month > 1
  {
  }

  lemma {:induction false} MonthOfDay(year: nat, month: nat, q: u32)
    ensures InDay(year, month, q).month == month
  {
  }

  /** At the start of a year the loop stops a year early, and then looks for December. */
  lemma {:induction false} NewYearNeverEnds(year: nat, r: u32, leap: bool, fuel: nat)
    requires r >= DAY * 365
    ensures InYear(year, r, leap, fuel) == Timeout
  {
    TwelveMonths(leap);
    MonthNeverFound(r, 1, leap, fuel);
  }

  /** The time comes back: not in December, not at the start of a month, and its day is in the 8-bit calendar. */
  predicate ComesBack(t: Time) {
    t.month < 12 && !StartsMonth(t) && (InCalendar(t, LeapByte(t.year)) || SecondOfDay(t) == 0)
  }

  /** The last day of a year to which the 8-bit year gives a leap day too many: it lies in the next year. */
  predicate SpillsOver(t: Time) {
    t.month == 12 && t.day == 31 && SecondOfDay(t) > 0 && LeapByte(t.year) && !Leap(t.year)
  }

  /** The loop over the months does not end: at the start of a year, or in December. */
  predicate NeverEnds(t: Time) {
    if StartsMonth(t) then t.month == 1 else t.month == 12 && !SpillsOver(t)
  }

  /** What RTC_int_to_time makes of the number of t, given enough steps or not. */
  ghost predicate Answers(back: Outcome<Time>, t: Time, enough: bool) {
    && (enough ==> (back == Ok(t) <==> ComesBack(t)) && (back.Ok? <==> !NeverEnds(t)))
    && (back.Ok? ==> !NeverEnds(t) && (back == Ok(t) <==> ComesBack(t)))
    && (back.Ok? || back == Timeout)
  }

  /**
   RTC_int_to_time undoes RTC_time_to_int exactly for the times before December that are not the
   start of a month, and for the epoch; it loses 29 February 1992 except for its midnight.  Until
   2105 its loop over the months does not end in December, except on 31 December 2100, and at the
   start of any other year.
   */
  lemma {:induction false} IntToTimeInverts(t: Time, fuel: nat)
    requires Valid(t) && t.year <= 2105
    ensures Answers(IntToTime(TimeToInt(t), fuel), t, fuel >= 136)
  {
    var seen := LeapByte(t.year);
    var r := SecondsInYear(t, seen);
    Parts(t);
    YearBefore(t.year);
    if r == 0 && t != EPOCH {
      NewYearLost(t, fuel);
    } else if r > DAY * YearLength(t.year) {
      NextYear(t, r, fuel);
    } else {
      ItsYear(t, r, fuel);
    }
  }

  /** The loop over the years stops at the year of t. */
  lemma {:induction false} ItsYear(t: Time, r: u32, fuel: nat)
    requires Valid(t) && t.year <= 2105 && r == SecondsInYear(t, LeapByte(t.year)) && (r > 0 || t == EPOCH)
    requires r <= DAY * YearLength(t.year) && YearsToSec(t.year) == YearsToSec(t.year - 1) + DAY * YearLength(t.year)
    requires TimeToInt(t) == YearsToSec(t.year - 1) + r
    ensures Answers(IntToTime(TimeToInt(t), fuel), t, fuel >= 136)
  {
    YearOf(TimeToInt(t), t.year, fuel);
    SameYear(t, r, fuel);
  }

  lemma {:induction false} SameYear(t: Time, r: u32, fuel: nat)
    requires Valid(t) && r == SecondsInYear(t, LeapByte(t.year)) && (r > 0 || t == EPOCH)
    requires r <= DAY * YearLength(t.year)
    ensures Answers(InYear(t.year, r, LeapByte(t.year), fuel), t, fuel >= 12)
  {
    if InCalendar(t, LeapByte(t.year)) {
      YearInverts(t, r, LeapByte(t.year), fuel);
      SpillsLate(t, r, LeapByte(t.year), Leap(t.year));
    } else {
      LeapDayUnseen(t, r, fuel);
    }
  }

  /** The number of a time: the seconds of the years before and those that the 8-bit year counts in its own. */
  lemma {:induction false} Parts(t: Time)
    requires Valid(t) && t.year <= 2105
    ensures 0 <= SecondsInYear(t, LeapByte(t.year)) < DAY * 367
    ensures TimeToInt(t) == YearsToSec(t.year - 1) + SecondsInYear(t, LeapByte(t.year))
  {
    FitsUntil2105(t.year);
    PartsFit(t, DaysThrough(t.year - 1), Leap(t.year), LeapByte(t.year));
    assert TimeSum(t) == DAY * DaysThrough(t.year - 1) + SecondsInYear(t, LeapByte(t.year));
  }

  lemma {:induction false} PartsFit(t: Time, days: nat, leap: bool, seen: bool)
    requires InCalendar(t, leap) && DAY * (days + 367) < 0x1_0000_0000
    ensures 0 <= SecondsInYear(t, seen) < DAY * 367
    ensures Wrap32(DAY * days) == DAY * days
    ensures Wrap32(DAY * days + SecondsInYear(t, seen)) == DAY * days + SecondsInYear(t, seen)
  {
    InMonth(t, leap);
    LeapDayMissed(t, leap, seen);
    SmallWrap32(DAY * days);
    SmallWrap32(DAY * days + SecondsInYear(t, seen));
  }

  lemma {:induction false} NewYearLost(t: Time, fuel: nat)
    requires Valid(t) && t.year <= 2105 && t != EPOCH && SecondsInYear(t, LeapByte(t.year)) == 0
    requires TimeToInt(t) == YearsToSec(t.year - 1)
    ensures Answers(IntToTime(TimeToInt(t), fuel), t, fuel >= 136)
  {
    NewYear(t, LeapByte(t.year));
    YearBefore(t.year - 1);
    YearOf(TimeToInt(t), t.year - 1, fuel);
    NewYearNeverEnds(t.year - 1, TimeToInt(t) - YearsToSec(t.year - 2), LeapByte(t.year - 1), fuel);
  }

  /** More seconds than the year has: the last day of 2100. */
  lemma {:induction false} NextYear(t: Time, r: int, fuel: nat)
    requires Valid(t) && t.year <= 2105 && r == SecondsInYear(t, LeapByte(t.year)) > DAY * YearLength(t.year)
    requires TimeToInt(t) == YearsToSec(t.year - 1) + r
    ensures Answers(IntToTime(TimeToInt(t), fuel), t, fuel >= 136)
  {
    LeapSeenUntil2105(t.year);
    PastTheEnd(t, r, Leap(t.year), LeapByte(t.year));
    YearBefore(t.year);
    YearBefore(t.year + 1);
    var rest := r - DAY * YearLength(t.year);
    YearOf(TimeToInt(t), t.year + 1, fuel);
    MonthFound(rest, 1, 1, LeapByte(t.year + 1), fuel);
  }

  lemma {:induction false} PastTheEnd(t: Time, r: int, leap: bool, seen: bool)
    requires InCalendar(t, leap) && r == SecondsInYear(t, seen) > DAY * if leap then 366 else 365
    ensures seen && !leap && t.month == 12 && t.day == 31 && SecondOfDay(t) > 0
    ensures r < DAY * 366
  {
    InMonth(t, leap);
    LeapDayMissed(t, leap, seen);
    TwelveMonths(seen);
    if t.month < 12 {
      InMonth(t, true);
      MonthsGrow(t.month, 12, true);
    }
  }

  lemma {:induction false} SpillsLate(t: Time, r: int, seen: bool, leap: bool)
    requires InCalendar(t, seen) && r == SecondsInYear(t, seen) <= DAY * if leap then 366 else 365
    ensures !(t.month == 12 && t.day == 31 && SecondOfDay(t) > 0 && seen && !leap)
  {
    TwelveMonths(seen);
  }

  /** A leap day that the 8-bit year does not know counts as the day behind it. */
  lemma {:induction false} LeapDayUnseen(t: Time, r: u32, fuel: nat)
    requires Valid(t) && !InCalendar(t, LeapByte(t.year)) && r == SecondsInYear(t, LeapByte(t.year))
    ensures Answers(InYear(t.year, r, LeapByte(t.year), fuel), t, fuel >= 12)
  {
    assert t.month == 2 && t.day == 29 && !LeapByte(t.year);
    TwelveMonths(false);
    var next := t.(month := 3, day := 1);
    if SecondOfDay(t) > 0 {
      YearInverts(next, r, false, fuel);
    } else {
      MonthFound(r, 1, 2, false, fuel);
      DayFound(t, true);
    }
  }

  lemma {:induction false} YearBefore(year: nat)
    requires 1970 <= year <= 2105
    ensures YearsToSec(year) - YearsToSec(year - 1) == DAY * YearLength(year) >= DAY * 365
  {
    YearsToSecGrows(year, year);
    YearsToSecGrows(year - 1, year - 1);
  }

  /** The first loop finds the year in whose course, or at whose end, s lies. */
  lemma {:induction false} YearOf(s: u32, year: nat, fuel: nat)
    requires 1970 <= year <= 2105 && s <= YearsToSec(year)
    requires s > YearsToSec(year - 1) || (year == 1970 && s == 0)
    ensures IntToTime(s, fuel) ==
            if fuel > year - 1970 then InYear(year, s - YearsToSec(year - 1), LeapByte(year), fuel) else Timeout
  {
    YearFound(s, 1970, year, fuel);
    YearsToSecGrows(1969, 1969);
  }

  lemma {:induction false} NewYear(t: Time, leap: bool)
    requires InCalendar(t, leap) && SecondsInYear(t, leap) == 0
    ensures t == Time(t.year, 1, 1, 0, 0, 0)
  {
    if t.month > 1 {
      MonthsGrow(0, t.month - 1, leap);
    }
  }
}
