/** The alarm time of stopFor and sleepFor: the time of day of the clock plus a delay in seconds. */
module Alarms {
  import opened MachineInts
  import opened Calendar
  import opened DateTimes

  /** The Time constructor carries surplus seconds and minutes; it also runs on every copy. The
      total is kept unless one of the 8-bit carries overflows. */
  method NewTime(h: uint8, m: uint8, s: uint8) returns (t: Time)
    ensures t.m < 60 && t.s < 60 && t == Carried(Time(h, m, s))
    ensures SecondsOfDay(t) == h * 3600 + m * 60 + s - LostInCarry(Time(h, m, s))
    ensures SecondsOfDay(t) == h * 3600 + m * 60 + s <==> m + s / 60 < 256 && h + (m + s / 60) / 60 < 256
  {
    CarriedTotal(Time(h, m, s));
    hide LostInCarry, ToUInt8;
    var s': uint8, m': uint8, h': uint8 := s, m, h;
    m' := ToUInt8(m' + s' / 60);
    s' := s' % 60;
    h' := ToUInt8(h' + m' / 60);
    m' := m' % 60;
    t := Time(h', m', s');
  }

  function Carried(t: Time): Time {
    var m := ToUInt8(t.m + t.s / 60);
    Time(ToUInt8(t.h + m / 60), m % 60, t.s % 60)
  }

  /** 256 minutes or 256 hours, when the minutes or else the hours do not fit eight bits. */
  function LostInCarry(t: Time): nat {
    if t.m + t.s / 60 >= 256 then 256 * 60 else if t.h + (t.m + t.s / 60) / 60 >= 256 then 256 * 3600 else 0
  }

  lemma CarriedTotal(t: Time)
    ensures SecondsOfDay(Carried(t)) == SecondsOfDay(t) - LostInCarry(t)
    ensures LostInCarry(t) == 0 <==> t.m + t.s / 60 < 256 && t.h + (t.m + t.s / 60) / 60 < 256
  {
    var m := t.m + t.s / 60;
    Sixty(t.s);
    if m < 256 {
      Sixty(m);
      assert ToUInt8(m) == m;
    } else {
      assert ToUInt8(m) == m - 256 && (m - 256) / 60 == 0 && ToUInt8(t.h) == t.h;
    }
  }

  /** Time::fromSeconds: the minutes are not reduced modulo 60, and minutes and hours are cut to
      eight bits. */
  method FromSeconds(s: uint32) returns (t: Time)
    ensures t.s < 60 && t == Delay(s)
    ensures SecondsOfDay(t) == s + 240 * (15 * (s / 3600 % 256) - 64 * (s / 15360))
    ensures SecondsOfDay(t) == s <==> 15 * (s / 3600 % 256) == 64 * (s / 15360)
  {
    DelayTotal(s);
    var rest := s;
    var ts: uint8 := rest % 60;
    rest := rest / 60;
    var tm := ToUInt8(rest);
    rest := rest / 60;
    var th := ToUInt8(rest);
    t := Time(th, tm, ts);
  }

  function Delay(s: uint32): Time {
    Time(ToUInt8(s / 60 / 60), ToUInt8(s / 60), s % 60)
  }

  /** Minutes and hours are counted from the same seconds, each modulo 256. */
  lemma DelayTotal(s: uint32)
    ensures SecondsOfDay(Delay(s)) == s + 240 * (15 * (s / 3600 % 256) - 64 * (s / 15360))
  {
    Quotients(s);
    Sixty(s);
    assert s / 60 == 256 * (s / 60 / 256) + s / 60 % 256;
  }

  lemma Quotients(s: nat)
    ensures s / 60 / 60 == s / 3600 && s / 60 / 256 == s / 15360
  {
    Sixty(s);
    Sixty(s / 60);
    DivModUnique(s, 3600, s / 60 / 60, s / 60 % 60 * 60 + s % 60);
    assert s / 60 == 256 * (s / 60 / 256) + s / 60 % 256;
    DivModUnique(s, 15360, s / 60 / 256, s / 60 % 256 * 60 + s % 60);
  }

  /** The sum of a timestamp and a time goes through a date of all zeros. The alarm is meant to be
      the time of day s seconds after now. */
  method AlarmTime(now: uint32, s: uint32) returns (t: Time)
    ensures ValidTime(t) && t == AlarmOf(now, s)
    ensures SecondsOfDay(t) == ToUInt32(now + EffectiveDelay(s) - SECONDS_PER_DAY) % SECONDS_PER_DAY
    ensures SecondsOfDay(t) == (now + s) % SECONDS_PER_DAY <==>
      Slip(s) % 360 == 0 && SECONDS_PER_DAY <= now + s + 240 * Slip(s) < 0x1_0000_0000 + SECONDS_PER_DAY
  {
    AlarmSeconds(now, s);
    AlarmCorrectIff(now, s);
    var delay := FromSeconds(s);
    var carried := NewTime(delay.h, delay.m, delay.s);
    var epoch := ComputeEpochFromDateTime(Date(0, 0, 0), carried);
    t := ComputeTimeFromEpoch(ToUInt32(now + epoch));
  }

  function AlarmOf(now: uint32, s: uint32): Time {
    TimeOf(ToUInt32(now + EpochOf(Date(0, 0, 0), Carried(Delay(s)))))
  }

  /** How many seconds after now the alarm is meant to be, as far as the program is concerned. */
  function EffectiveDelay(s: uint32): nat {
    SecondsOfDay(Carried(Delay(s)))
  }

  lemma Sixty(v: nat)
    ensures v == 60 * (v / 60) + v % 60 && v % 60 < 60
  {
  }

  /** Copying a time more than once carries nothing more. */
  lemma CarryingTwice(t: Time)
    ensures Carried(Carried(t)) == Carried(t)
  {
    NothingToCarry(Carried(t));
  }

  lemma NothingToCarry(t: Time)
    requires t.m < 60 && t.s < 60
    ensures Carried(t) == t
  {
    assert t.s / 60 == 0 && t.s % 60 == t.s && ToUInt8(t.m) == t.m;
    assert t.m / 60 == 0 && t.m % 60 == t.m && ToUInt8(t.h) == t.h;
  }

  /** By how many times four minutes the effective delay is too long. */
  function Slip(s: uint32): int {
    15 * (s / 3600 % 256) - 64 * (s / 15360) - if s / 3600 % 256 + s / 60 % 256 / 60 < 256 then 0 else 3840
  }

  lemma EffectiveDelaySlip(s: uint32)
    ensures EffectiveDelay(s) == s + 240 * Slip(s)
    ensures EffectiveDelay(s)
         == 3600 * ((s / 3600 % 256 + s / 60 % 256 / 60) % 256) + 60 * (s / 60 % 256 % 60) + s % 60
  {
    hide SecondsOfDay, Carried, LostInCarry;
    Quotients(s);
    DelayTotal(s);
    CarriedTotal(Delay(s));
    HoursCarried(s / 3600 % 256, s / 60 % 256, s % 60);
  }

  lemma HoursCarried(h: uint8, m: uint8, s: uint8)
    requires s < 60
    ensures SecondsOfDay(Carried(Time(h, m, s))) == 3600 * ((h + m / 60) % 256) + 60 * (m % 60) + s
    ensures LostInCarry(Time(h, m, s)) == 240 * if h + m / 60 < 256 then 0 else 3840
  {
    assert s / 60 == 0 && s % 60 == s && ToUInt8(m + s / 60) == m;
  }

  /** Below an hour the delay is right; from there to 256 minutes each whole hour counts twice. */
  lemma EffectiveDelayShort(s: uint32)
    requires s < 15360
    ensures Slip(s) == 15 * (s / 3600) && EffectiveDelay(s) == s + 3600 * (s / 3600)
  {
    EffectiveDelaySlip(s);
    ShortQuotients(s, s / 60, s / 3600);
  }

  lemma ShortQuotients(s: nat, m: nat, h: nat)
    requires s < 15360 && m == s / 60 && h == s / 3600
    ensures h < 5 && h % 256 == h && m % 256 == m && m / 60 < 5 && s / 15360 == 0
  {
  }

  lemma ZeroDate(t: Time)
    ensures EpochOf(Date(0, 0, 0), t) == ToUInt32(SecondsOfDay(t) - SECONDS_PER_DAY)
  {
    assert YearSum(0) == 0 && DaysBeforeMonth(0, 1970) == 0;
  }

  /** The zero date is one day before the Epoch, so the sum is a day short, modulo 2^32. */
  lemma AlarmSeconds(now: uint32, s: uint32)
    ensures SecondsOfDay(AlarmOf(now, s)) == ToUInt32(now + EffectiveDelay(s) - SECONDS_PER_DAY) % SECONDS_PER_DAY
  {
    ZeroDate(Carried(Delay(s)));
    ShiftedTime(now, EffectiveDelay(s), EpochOf(Date(0, 0, 0), Carried(Delay(s))));
  }

  lemma ShiftedTime(now: uint32, d: nat, e: uint32)
    requires e == ToUInt32(d - SECONDS_PER_DAY)
    ensures SecondsOfDay(TimeOf(ToUInt32(now + e))) == ToUInt32(now + d - SECONDS_PER_DAY) % SECONDS_PER_DAY
  {
    AddWrapped(now, d - SECONDS_PER_DAY);
    TimeOfDay(ToUInt32(now + e));
  }

  lemma AddWrapped(a: int, b: int)
    ensures ToUInt32(a + ToUInt32(b)) == ToUInt32(a + b)
  {
  }

  /** That day does not matter as long as the sum does not wrap below zero or above 2^32, which
      would shift the time of day because 2^32 is no multiple of a day. */
  lemma AlarmMeetsDelayIff(now: uint32, s: uint32)
    ensures SecondsOfDay(AlarmOf(now, s)) == (now + EffectiveDelay(s)) % SECONDS_PER_DAY <==>
      SECONDS_PER_DAY <= now + EffectiveDelay(s) < 0x1_0000_0000 + SECONDS_PER_DAY
  {
    AlarmSeconds(now, s);
    DayShort(now, EffectiveDelay(s));
  }

  lemma DayShort(now: uint32, d: nat)
    requires d < 256 * 3600
    ensures ToUInt32(now + d - SECONDS_PER_DAY) % SECONDS_PER_DAY == (now + d) % SECONDS_PER_DAY <==>
      SECONDS_PER_DAY <= now + d < 0x1_0000_0000 + SECONDS_PER_DAY
  {
    var v := now + d - SECONDS_PER_DAY;
    SameTimeNextDay(v);
    if v < 0 {
      assert ToUInt32(v) == v + 0x1_0000_0000;
      NotWholeDays(v);
    } else if v >= 0x1_0000_0000 {
      assert ToUInt32(v) == v - 0x1_0000_0000;
      NotWholeDays(v - 0x1_0000_0000);
    }
  }

  lemma SameTimeNextDay(v: int)
    ensures (v + SECONDS_PER_DAY) % SECONDS_PER_DAY == v % SECONDS_PER_DAY
  {
  }

  lemma NotWholeDays(v: int)
    ensures (v + 0x1_0000_0000) % SECONDS_PER_DAY != v % SECONDS_PER_DAY
  {
  }

  /** The alarm is s seconds from now if and only if the effective delay is off by whole days and
      the sum does not wrap: a wrap shifts it by 2^32 seconds, which is no multiple of 240. */
  lemma AlarmCorrectIff(now: uint32, s: uint32)
    ensures SecondsOfDay(AlarmOf(now, s)) == (now + s) % SECONDS_PER_DAY <==>
      Slip(s) % 360 == 0 && SECONDS_PER_DAY <= now + s + 240 * Slip(s) < 0x1_0000_0000 + SECONDS_PER_DAY
  {
    hide Slip, AlarmOf, EffectiveDelay, SecondsOfDay;
    AlarmSeconds(now, s);
    EffectiveDelaySlip(s);
    EffectiveDelayBound(s);
    SlippedAlarm(now + s, Slip(s));
  }

  lemma EffectiveDelayBound(s: uint32)
    ensures EffectiveDelay(s) < 256 * 3600
  {
  }

  lemma SlippedAlarm(v: nat, k: int)
    requires 0 <= v + 240 * k < 0x1_0000_0000 + 256 * 3600
    ensures ToUInt32(v + 240 * k - SECONDS_PER_DAY) % SECONDS_PER_DAY == v % SECONDS_PER_DAY <==>
      k % 360 == 0 && SECONDS_PER_DAY <= v + 240 * k < 0x1_0000_0000 + SECONDS_PER_DAY
  {
    var w := v + 240 * k - SECONDS_PER_DAY;
    SameRemainder(ToUInt32(w), v);
    if w < 0 {
      assert ToUInt32(w) == w + 0x1_0000_0000;
      SlipAndWrap(k, 1);
    } else if w >= 0x1_0000_0000 {
      assert ToUInt32(w) == w - 0x1_0000_0000;
      SlipAndWrap(k, -1);
    } else {
      WrapSmall(w);
      SlipAndWrap(k, 0);
    }
  }

  lemma SlipAndWrap(k: int, wraps: int)
    requires -1 <= wraps <= 1
    ensures (240 * k - SECONDS_PER_DAY + wraps * 0x1_0000_0000) % SECONDS_PER_DAY == 0 <==> k % 360 == 0 && wraps == 0
  {
    var d := 240 * k - SECONDS_PER_DAY + wraps * 0x1_0000_0000;
    assert d == SECONDS_PER_DAY * (d / SECONDS_PER_DAY) + d % SECONDS_PER_DAY;
    if wraps == 0 {
      DivModUnique(d, SECONDS_PER_DAY, k / 360 - 1, 240 * (k % 360));
    }
  }

  /** Among the delays below 256 minutes these are the ones below an hour that end after the first
      day of the Epoch. */
  lemma ShortAlarmCorrectIff(now: uint32, s: uint32)
    requires s < 15360
    ensures SecondsOfDay(AlarmOf(now, s)) == (now + s) % SECONDS_PER_DAY <==> s < 3600 && SECONDS_PER_DAY <= now + s
  {
    hide Slip, AlarmOf, EffectiveDelay, SecondsOfDay;
    AlarmCorrectIff(now, s);
    EffectiveDelayShort(s);
    ShortQuotients(s, s / 60, s / 3600);
    ShortSlip(s, s / 3600);
    if s < 3600 {
      assert s / 3600 == 0;
    }
  }

  lemma ShortSlip(s: nat, h: nat)
    requires h == s / 3600 && h < 5
    ensures 15 * h % 360 == 0 <==> s < 3600
  {
    assert 15 * h % 360 == 15 * h;
  }

  lemma KnownSlips()
    ensures Slip(3600) == 15 && Slip(15360) == -4 && Slip(230400) == 0
  {
  }

  /** The error has either sign, and there are right delays of many hours. */
  lemma DelayWitnesses()
    ensures EffectiveDelay(3600) == 7200 && EffectiveDelay(15360) == 14400 && EffectiveDelay(230400) == 230400
  {
    hide EffectiveDelay, Slip;
    EffectiveDelaySlip(3600);
    EffectiveDelaySlip(15360);
    EffectiveDelaySlip(230400);
    KnownSlips();
  }

  lemma SameRemainder(a: int, b: int)
    ensures a % SECONDS_PER_DAY == b % SECONDS_PER_DAY <==> (a - b) % SECONDS_PER_DAY == 0
  {
  }
}
