/** Conversion between timestamps and dates, as the program computes it. */
module DateTimes {
  import opened MachineInts
  import opened Calendar

  /** The branches of isLeapYear. */
  function IsLeapYear(y: uint16): (leap: bool)
    ensures leap <==> Leap(y)
  {
    if y % 4 != 0 then false
    else if y % 100 != 0 then true
    else if y % 400 != 0 then false
    else true
  }

  /** The cases of daysInMonth; the year defaults to 1970. */
  function DaysInMonth(month: uint8, year: uint16 := 1970): (days: uint8)
    ensures days == MonthLength(month, year)
  {
    match month
    case 1 | 3 | 5 | 7 | 8 | 10 | 12 => 31
    case 4 | 6 | 9 | 11 => 30
    case 2 => if IsLeapYear(year) then 29 else 28
    case _ => 0
  }

  /** The date of a timestamp: whole years and then whole months are taken off the day count. */
  method ComputeDateFromEpoch(epoch: uint32) returns (d: Date)
    ensures ValidDate(d) && 1970 <= d.y <= 2106
    ensures DayNumber(d) == epoch / SECONDS_PER_DAY
  {
    hide YearStart, Leap;
    YearStarts();
    var y: uint16, m: uint8 := 1970, 1;
    var e: uint32 := epoch / (60 * 60 * 24);

    while true
      invariant 1970 <= y && YearStart(y) + e == epoch / SECONDS_PER_DAY
      decreases e
    {
      var days: uint16 := if IsLeapYear(y) then 366 else 365;
      YearStartStep(y);
      YearStartOrder(1970, y);
      if e >= days {
        e := e - days;
      } else {
        break;
      }
      y := y + 1;
    }

    MonthTable(y);
    m := 1;
    while m < 12
      invariant 1 <= m <= 12 && e < YearLength(y) - DaysBeforeMonth(m, y)
      invariant YearStart(y) + DaysBeforeMonth(m, y) + e == epoch / SECONDS_PER_DAY
      invariant m < 12 || e < MonthLength(12, y)
    {
      var days: uint8 := DaysInMonth(m, y);
      if e >= days {
        e := e - days;
      } else {
        break;
      }
      m := m + 1;
    }

    d := Date(e + 1, m, y);
  }

  method ComputeTimeFromEpoch(epoch: uint32) returns (t: Time)
    ensures ValidTime(t) && SecondsOfDay(t) == epoch % SECONDS_PER_DAY && t == TimeOf(epoch)
  {
    TimeOfDay(epoch);
    var e := epoch;
    var s: uint8 := e % 60;
    e := e / 60;
    var m: uint8 := e % 60;
    e := e / 60;
    var h: uint8 := e % 24;
    t := Time(h, m, s);
  }

  function TimeOf(e: uint32): Time {
    Time(e / 60 / 60 % 24, e / 60 % 60, e % 60)
  }

  /** Sum of the lengths of the years 1971 up to y. */
  function YearSum(y: int): nat
    decreases y
  {
    if y <= 1970 then 0 else YearSum(y - 1) + YearLength(y)
  }

  /** The days the program counts: the years after 1970 up to and including the given one, and the
      months before the given one at their lengths in 1970. */
  function CountedDays(date: Date): int {
    YearSum(date.y) + DaysBeforeMonth(date.m, 1970) + date.d - 1
  }

  function EpochOf(date: Date, time: Time): uint32 {
    ToUInt32(CountedDays(date) * SECONDS_PER_DAY + SecondsOfDay(time))
  }

  method ComputeEpochFromDateTime(date: Date, time: Time) returns (r: uint32)
    ensures r == EpochOf(date, time)
  {
    var days := CountDays(date);
    EpochArithmetic(days + date.d - 1, time);
    days := ToUInt32(days + date.d - 1);
    r := ToUInt32(days * 86400 + time.h * 3600 + time.m * 60 + time.s);
  }

  /** The two loops of computeEpochFromDateTime. */
  method CountDays(date: Date) returns (days: uint32)
    ensures days == YearSum(date.y) + DaysBeforeMonth(date.m, 1970)
  {
    hide Leap;
    var y: uint16, m: uint8 := date.y, date.m;
    days := 0;
    YearSumBound(date.y);
    MonthSumBound(date.m);

    while y > 1970
      invariant y <= date.y && days + YearSum(y) == YearSum(date.y)
    {
      days := days + if IsLeapYear(y) then 366 else 365;
      y := y - 1;
      YearSumBound(y);
    }

    while m > 1
      invariant m <= date.m && days + DaysBeforeMonth(m, 1970) == YearSum(date.y) + DaysBeforeMonth(date.m, 1970)
    {
      m := m - 1;
      days := days + DaysInMonth(m);
      MonthSumBound(m);
    }
  }

  lemma EpochArithmetic(days: int, time: Time)
    ensures ToUInt32(ToUInt32(days) * 86400 + time.h * 3600 + time.m * 60 + time.s)
         == ToUInt32(days * SECONDS_PER_DAY + SecondsOfDay(time))
  {
    WrappedProduct(days, SECONDS_PER_DAY, SecondsOfDay(time));
    WrapEqual(ToUInt32(days) * 86400 + time.h * 3600 + time.m * 60 + time.s,
              ToUInt32(days) * SECONDS_PER_DAY + SecondsOfDay(time));
  }

  lemma YearSumBound(y: uint16)
    ensures YearSum(y) <= 366 * y
  {
    if y > 1970 {
      YearSumBound(y - 1);
    }
  }

  lemma MonthSumBound(m: uint8)
    ensures 0 <= DaysBeforeMonth(m, 1970) <= 31 * m
  {
    if m > 1 {
      MonthSumBound(m - 1);
    }
  }

  lemma WrappedProduct(x: int, k: nat, c: int)
    ensures ToUInt32(ToUInt32(x) * k + c) == ToUInt32(x * k + c)
  {
    var q := x / 0x1_0000_0000;
    assert x == 0x1_0000_0000 * q + ToUInt32(x);
    assert x * k == 0x1_0000_0000 * (q * k) + ToUInt32(x) * k;
    WrapAround(ToUInt32(x) * k + c, q * k);
  }

  lemma WrapAround(v: int, q: int)
    ensures ToUInt32(v + 0x1_0000_0000 * q) == ToUInt32(v)
  {
  }

  /** The days by which the program's day count is ahead of the calendar: it counts the leap day of
      the given year from the first of January, and never that of February itself. */
  function LeapLead(date: Date): nat {
    if Leap(date.y) && date.m <= 2 then 1 else 0
  }

  lemma YearSumIsYearStart(y: int)
    requires 1970 <= y
    ensures YearSum(y) == YearStart(y) + (if Leap(y) then 1 else 0)
  {
    if 1970 < y {
      YearSumIsYearStart(y - 1);
      YearStartStep(y - 1);
    }
  }

  lemma MonthShift(m: int, y: int)
    requires 1 <= m <= 12
    ensures DaysBeforeMonth(m, y) == DaysBeforeMonth(m, 1970) + if 2 < m && Leap(y) then 1 else 0
  {
    if 1 < m {
      MonthShift(m - 1, y);
    }
  }

  lemma CountedDaysLead(date: Date)
    requires ValidDate(date) && 1970 <= date.y
    ensures CountedDays(date) == DayNumber(date) + LeapLead(date)
  {
    YearSumIsYearStart(date.y);
    MonthShift(date.m, date.y);
  }

  /** Up to wrap-around, the computed timestamp is the Unix time plus the lead. */
  lemma EpochIsUnixTime(date: Date, time: Time)
    requires ValidDate(date) && 1970 <= date.y
    ensures EpochOf(date, time) == ToUInt32(UnixTime(date, time) + LeapLead(date) * SECONDS_PER_DAY)
  {
    hide Leap, YearStart, DaysBeforeMonth, MonthLength, YearSum, LeapLead;
    CountedDaysLead(date);
    LeadApart(EpochOf(date, time), UnixTime(date, time),
              CountedDays(date), DayNumber(date), LeapLead(date), SecondsOfDay(time));
  }

  lemma LeadApart(epoch: uint32, unix: int, counted: int, day: int, lead: int, second: int)
    requires epoch == ToUInt32(counted * SECONDS_PER_DAY + second)
    requires unix == day * SECONDS_PER_DAY + second && counted == day + lead
    ensures epoch == ToUInt32(unix + lead * SECONDS_PER_DAY)
  {
    WrapEqual(counted * SECONDS_PER_DAY + second, unix + lead * SECONDS_PER_DAY);
  }

  /** It is the Unix time exactly outside January and February of leap years. */
  lemma EpochCorrectIff(date: Date, time: Time)
    requires ValidDate(date) && 1970 <= date.y
    ensures EpochOf(date, time) == ToUInt32(UnixTime(date, time)) <==> !(Leap(date.y) && date.m <= 2)
  {
    EpochIsUnixTime(date, time);
    OneDayOff(UnixTime(date, time));
  }

  /** The first of January 1972 is computed a day late, the first of March is not. */
  lemma LeapYearWitnesses(newYear: Date, march: Date, midnight: Time)
    requires newYear == Date(1, 1, 1972) && march == Date(1, 3, 1972) && midnight == Time(0, 0, 0)
    ensures UnixTime(newYear, midnight) == 63072000 && EpochOf(newYear, midnight) == 63072000 + SECONDS_PER_DAY
    ensures UnixTime(march, midnight) == 68256000 && EpochOf(march, midnight) == 68256000
  {
    hide EpochOf, UnixTime, DayNumber, LeapLead, ValidDate, SecondsOfDay, ToUInt32;
    WitnessDates(newYear, march, midnight);
    EpochAt(newYear, midnight, 730, 1);
    EpochAt(march, midnight, 790, 0);
  }

  lemma WitnessDates(newYear: Date, march: Date, midnight: Time)
    requires newYear == Date(1, 1, 1972) && march == Date(1, 3, 1972) && midnight == Time(0, 0, 0)
    ensures ValidDate(newYear) && DayNumber(newYear) == 730 && LeapLead(newYear) == 1
    ensures ValidDate(march) && DayNumber(march) == 790 && LeapLead(march) == 0 && SecondsOfDay(midnight) == 0
  {
    hide YearStart, DaysBeforeMonth, Leap, MonthLength;
    DaysOf1972(newYear.y);
  }

  lemma EpochAt(date: Date, midnight: Time, days: nat, lead: nat)
    requires ValidDate(date) && 1970 <= date.y && DayNumber(date) == days && LeapLead(date) == lead
    requires SecondsOfDay(midnight) == 0 && (days + lead) * SECONDS_PER_DAY < 0x1_0000_0000
    ensures UnixTime(date, midnight) == days * SECONDS_PER_DAY
    ensures EpochOf(date, midnight) == (days + lead) * SECONDS_PER_DAY
  {
    hide EpochOf, DayNumber, LeapLead, ValidDate, SecondsOfDay, ToUInt32;
    EpochIsUnixTime(date, midnight);
    WrapSmall((days + lead) * SECONDS_PER_DAY);
  }

  lemma DaysOf1972(y: int)
    requires y == 1972
    ensures YearStart(y) == 730 && Leap(y)
    ensures DaysBeforeMonth(1, y) == 0 && DaysBeforeMonth(3, y) == 60
    ensures MonthLength(1, y) == 31 && MonthLength(3, y) == 31
  {
    assert DaysBeforeMonth(2, y) == 31;
  }

  lemma OneDayOff(v: int)
    ensures ToUInt32(v + SECONDS_PER_DAY) != ToUInt32(v)
  {
  }

  /** Dates of 32-bit timestamps end on 7 February 2106, which is no leap year. */
  lemma TimestampYears(date: Date, e: uint32)
    requires ValidDate(date) && 1970 <= date.y && DayNumber(date) == e / SECONDS_PER_DAY
    ensures date.y <= 2106 && (Leap(date.y) ==> date.y <= 2104 && e + SECONDS_PER_DAY < 0x1_0000_0000)
  {
    hide YearStart;
    YearStarts();
    DayWithinYear(date);
    YearStartOrder(1970, date.y);
    if 2107 <= date.y { YearStartOrder(2107, date.y); }
    if date.y <= 2105 { YearStartOrder(date.y, 2106); }
  }

  /** Decomposing a timestamp and putting it together again gives it back, except in January and
      February of leap years, where the result is one day late; nothing wraps. */
  lemma RoundTrip(e: uint32, date: Date)
    requires ValidDate(date) && 1970 <= date.y && DayNumber(date) == e / SECONDS_PER_DAY
    ensures EpochOf(date, TimeOf(e)) == if Leap(date.y) && date.m <= 2 then e + SECONDS_PER_DAY else e
  {
    TimestampYears(date, e);
    EpochIsUnixTime(date, TimeOf(e));
    TimeOfDay(e);
    Recomposed(e, DayNumber(date), SecondsOfDay(TimeOf(e)), LeapLead(date));
  }

  lemma Recomposed(e: uint32, day: int, second: int, lead: int)
    requires day == e / SECONDS_PER_DAY && second == e % SECONDS_PER_DAY
    requires 0 <= e + lead * SECONDS_PER_DAY < 0x1_0000_0000
    ensures ToUInt32(day * SECONDS_PER_DAY + second + lead * SECONDS_PER_DAY) == e + lead * SECONDS_PER_DAY
  {
    assert e == SECONDS_PER_DAY * (e / SECONDS_PER_DAY) + e % SECONDS_PER_DAY;
    WrapSmall(e + lead * SECONDS_PER_DAY);
  }

  lemma TimeOfDay(e: uint32)
    ensures SecondsOfDay(TimeOf(e)) == e % SECONDS_PER_DAY && ValidTime(TimeOf(e))
  {
    Sexagesimal(e, e / 60, e / 60 / 60, e / 60 / 60 / 24);
  }

  lemma Sexagesimal(e: nat, m: nat, h: nat, d: nat)
    requires m == e / 60 && h == m / 60 && d == h / 24
    ensures h % 24 * 3600 + m % 60 * 60 + e % 60 == e % SECONDS_PER_DAY
  {
    assert e == 60 * m + e % 60 && m == 60 * h + m % 60 && h == 24 * d + h % 24;
    DivModUnique(e, SECONDS_PER_DAY, d, h % 24 * 3600 + m % 60 * 60 + e % 60);
  }

  /** At one time of day the computed timestamps never run against the calendar, and the only two
      dates that share one are the 29th of February and the day after it. */
  lemma EpochMonotone(a: Date, b: Date, time: Time)
    requires ValidDate(a) && ValidDate(b) && ValidTime(time) && Earlier(a, b)
    requires 1970 <= a.y && b.y <= 2105
    ensures EpochOf(a, time) <= EpochOf(b, time)
    ensures EpochOf(a, time) == EpochOf(b, time) <==> a.y == b.y && a.m == 2 && a.d == 29 && b.m == 3 && b.d == 1
  {
    EpochInRange(a, time);
    EpochInRange(b, time);
    DayNumberOrder(a, b);
    if a.y == b.y {
      MonthTable(a.y);
    } else {
      DayWithinYear(a);
      DayWithinYear(b);
      YearStartOrder(a.y, b.y);
      MonthTable(a.y);
    }
  }

  lemma EpochInRange(date: Date, time: Time)
    requires ValidDate(date) && ValidTime(time) && 1970 <= date.y <= 2105
    ensures EpochOf(date, time) == (DayNumber(date) + LeapLead(date)) * SECONDS_PER_DAY + SecondsOfDay(time)
  {
    hide YearStart, DaysBeforeMonth, MonthLength, Leap, YearSum;
    YearStarts();
    EpochIsUnixTime(date, time);
    DayWithinYear(date);
    YearStartOrder(1970, date.y);
    YearStartOrder(date.y, 2106);
    WrapSmall(UnixTime(date, time) + LeapLead(date) * SECONDS_PER_DAY);
  }
}
