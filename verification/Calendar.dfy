/** The Gregorian calendar, and the meaning of a Unix timestamp as POSIX defines it. */
module Calendar {
  import opened MachineInts

  datatype Date = Date(d: uint8, m: uint8, y: uint16)

  datatype Time = Time(h: uint8, m: uint8, s: uint8)

  const SECONDS_PER_DAY := 86400

  predicate Leap(y: int) {
    y % 4 == 0 && (y % 100 != 0 || y % 400 == 0)
  }

  function YearLength(y: int): int {
    if Leap(y) then 366 else 365
  }

  function MonthLength(m: int, y: int): int {
    if m in {1, 3, 5, 7, 8, 10, 12} then 31
    else if m in {4, 6, 9, 11} then 30
    else if m == 2 then (if Leap(y) then 29 else 28)
    else 0
  }

  function DaysBeforeMonth(m: int, y: int): int
    decreases m
  {
    if m <= 1 then 0 else DaysBeforeMonth(m - 1, y) + MonthLength(m - 1, y)
  }

  predicate ValidDate(date: Date) {
    1 <= date.m <= 12 && 1 <= date.d <= MonthLength(date.m, date.y)
  }

  predicate ValidTime(time: Time) {
    time.h < 24 && time.m < 60 && time.s < 60
  }

  function SecondsOfDay(time: Time): nat {
    time.h * 3600 + time.m * 60 + time.s
  }

  /** Days from the Epoch to the first of January of year y, by the leap-day terms of section 4.16
      of the POSIX.1-2017 Base Definitions, where y - 1900 is called tm_year. */
  function YearStart(y: int): int {
    var tm_year := y - 1900;
    (tm_year - 70) * 365 + (tm_year - 69) / 4 - (tm_year - 1) / 100 + (tm_year + 299) / 400
  }

  /** Days since the Epoch; the day of the year counts from zero. */
  function DayNumber(date: Date): int {
    YearStart(date.y) + DaysBeforeMonth(date.m, date.y) + date.d - 1
  }

  /** Seconds since the Epoch. */
  function UnixTime(date: Date, time: Time): int {
    DayNumber(date) * SECONDS_PER_DAY + SecondsOfDay(time)
  }

  /** Calendar order. */
  predicate Earlier(a: Date, b: Date) {
    a.y < b.y || (a.y == b.y && (a.m < b.m || (a.m == b.m && a.d < b.d)))
  }

  lemma NextQuotient(n: int, k: nat)
    requires 1 < k
    ensures (n + 1) / k == n / k + if (n + 1) % k == 0 then 1 else 0
  {
    var q, r := n / k, n % k;
    assert n == k * q + r;
    if r == k - 1 {
      assert k * (q + 1) == k * q + k;
      DivModUnique(n + 1, k, q + 1, 0);
    } else {
      DivModUnique(n + 1, k, q, r + 1);
    }
  }

  lemma LeapResidues(y: int)
    ensures (y - 1968) % 4 == y % 4 && (y - 1900) % 100 == y % 100 && (y - 1600) % 400 == y % 400
    ensures (y % 100 == 0 ==> y % 4 == 0) && (y % 400 == 0 ==> y % 100 == 0)
  {
    DivModUnique(y - 1968, 4, y / 4 - 492, y % 4);
    DivModUnique(y - 1900, 100, y / 100 - 19, y % 100);
    DivModUnique(y - 1600, 400, y / 400 - 4, y % 400);
    if y % 100 == 0 { DivModUnique(y, 4, 25 * (y / 100), 0); }
    if y % 400 == 0 { DivModUnique(y, 100, 4 * (y / 400), 0); }
  }

  lemma YearStartStep(y: int)
    ensures YearStart(y + 1) == YearStart(y) + YearLength(y)
  {
    LeapResidues(y);
    NextQuotient(y - 1969, 4);
    NextQuotient(y - 1901, 100);
    NextQuotient(y - 1601, 400);
  }

  lemma YearStarts()
    ensures YearStart(1970) == 0 && YearStart(2106) == 49673 && YearStart(2107) == 50038
  {
  }

  lemma YearStartOrder(y: int, z: int)
    requires 1970 <= y <= z
    ensures YearStart(z) - YearStart(y) >= 365 * (z - y)
    ensures y < z ==> YearStart(z) >= YearStart(y) + YearLength(y)
    decreases z - y
  {
    if y < z {
      YearStartStep(y);
      YearStartOrder(y + 1, z);
    }
  }

  lemma MonthTable(y: int)
    ensures DaysBeforeMonth(2, y) == 31
    ensures var f := MonthLength(2, y);
      && DaysBeforeMonth(3, y) == 31 + f && DaysBeforeMonth(4, y) == 62 + f && DaysBeforeMonth(5, y) == 92 + f
      && DaysBeforeMonth(6, y) == 123 + f && DaysBeforeMonth(7, y) == 153 + f && DaysBeforeMonth(8, y) == 184 + f
      && DaysBeforeMonth(9, y) == 215 + f && DaysBeforeMonth(10, y) == 245 + f && DaysBeforeMonth(11, y) == 276 + f
      && DaysBeforeMonth(12, y) == 306 + f && DaysBeforeMonth(13, y) == YearLength(y)
  {
  }

  lemma MonthLengthBound(m: int, y: int)
    ensures 0 <= MonthLength(m, y) <= 31
  {
  }

  lemma MonthOrder(m: int, n: int, y: int)
    requires 1 <= m < n <= 13
    ensures DaysBeforeMonth(m, y) + MonthLength(m, y) <= DaysBeforeMonth(n, y)
  {
    assert DaysBeforeMonth(n, y) == DaysBeforeMonth(n - 1, y) + MonthLength(n - 1, y);
    if m + 1 < n {
      MonthOrder(m, n - 1, y);
      MonthLengthBound(n - 1, y);
    }
  }

  /** The day number of a date is within its year. */
  lemma DayWithinYear(date: Date)
    requires ValidDate(date)
    ensures YearStart(date.y) <= DayNumber(date) < YearStart(date.y) + YearLength(date.y)
  {
    MonthTable(date.y);
    MonthOrder(date.m, 13, date.y);
    if 1 < date.m { MonthOrder(1, date.m, date.y); }
  }

  /** Day numbers follow calendar order, so no two dates share one. */
  lemma DayNumberOrder(a: Date, b: Date)
    requires ValidDate(a) && ValidDate(b) && 1970 <= a.y && 1970 <= b.y
    ensures Earlier(a, b) <==> DayNumber(a) < DayNumber(b)
    ensures a == b <==> DayNumber(a) == DayNumber(b)
  {
    if Earlier(a, b) {
      EarlierDay(a, b);
    } else if Earlier(b, a) {
      EarlierDay(b, a);
    }
  }

  lemma EarlierDay(a: Date, b: Date)
    requires ValidDate(a) && ValidDate(b) && 1970 <= a.y && Earlier(a, b)
    ensures DayNumber(a) < DayNumber(b)
  {
    DayWithinYear(a);
    DayWithinYear(b);
    if a.y < b.y {
      YearStartOrder(a.y, b.y);
    } else if a.m < b.m {
      MonthOrder(a.m, b.m, a.y);
    }
  }
}
