/**
 Calendar dates and seconds since 1970 (drivers/rtc.cpp, lib/time.cpp): two loops written apart from
 each other that are inverse to each other over the 32-bit range.
 */
module Calendar {
  const DAY: nat := 86400
  const EPOCH: nat := 1970
  const U32: nat := 0x1_0000_0000

  datatype Date = Date(year: nat, month: nat, day: nat, hour: nat, min: nat, sec: nat)

  predicate IsLeap(y: nat) {
    (y % 4 == 0 && y % 100 != 0) || y % 400 == 0
  }

  function YearDays(y: nat): nat {
    if IsLeap(y) then 366 else 365
  }

  /** Days in month m of year y, months counted from 0. */
  function MonthDays(y: nat, m: nat): nat
    requires m < 12
  {
    if m == 1 then (if IsLeap(y) then 29 else 28)
    else if m == 3 || m == 5 || m == 8 || m == 10 then 30 else 31
  }

  /** Days from 1970 up to the beginning of year y. */
  function DaysToYear(y: nat): nat {
    if y <= EPOCH then 0 else DaysToYear(y - 1) + YearDays(y - 1)
  }

  /** Days of year y before month m. */
  function DaysToMonth(y: nat, m: nat): nat
    requires m <= 12
  {
    if m == 0 then 0 else DaysToMonth(y, m - 1) + MonthDays(y, m - 1)
  }

  predicate ValidDate(d: Date) {
    && EPOCH <= d.year && 1 <= d.month <= 12 && 1 <= d.day <= MonthDays(d.year, d.month - 1)
    && d.hour < 24 && d.min < 60 && d.sec < 60
  }

  function DayNumber(d: Date): nat
    requires ValidDate(d)
  {
    DaysToYear(d.year) + DaysToMonth(d.year, d.month - 1) + (d.day - 1)
  }

  /** Seconds from 1970 to d. */
  function SecondsTo(d: Date): nat
    requires ValidDate(d)
  {
    DayNumber(d) * DAY + d.hour * 3600 + d.min * 60 + d.sec
  }

  // ---------- the Gregorian calendar in closed form ----------

  /** Days from 1970-01-01 to a date of the Gregorian calendar, by a formula without tables that counts years
      and months from March. */
  function Gregorian(year: nat, month: nat, day: nat): int
    requires 1 <= year && 1 <= month <= 12
  {
    var y, m := if month <= 2 then year - 1 else year, (month + 9) % 12;
    365 * y + y / 4 - y / 100 + y / 400 + (153 * m + 2) / 5 + day - 1 - 719468
  }

  /** The leap years up to year y. */
  function Leaps(y: nat): int {
    y / 4 - y / 100 + y / 400
  }

  lemma LeapsNext(y: nat)
    ensures Leaps(y + 1) == Leaps(y) + if IsLeap(y + 1) then 1 else 0
  {
    By4(y);
    By100(y);
    By400(y);
    Hundreds(y + 1);
  }

  lemma By4(y: nat)
    ensures (y + 1) / 4 == y / 4 + if (y + 1) % 4 == 0 then 1 else 0
  {
  }

  lemma By100(y: nat)
    ensures (y + 1) / 100 == y / 100 + if (y + 1) % 100 == 0 then 1 else 0
  {
  }

  lemma By400(y: nat)
    ensures (y + 1) / 400 == y / 400 + if (y + 1) % 400 == 0 then 1 else 0
  {
  }

  lemma Hundreds(y: nat)
    ensures y % 400 == 0 ==> y % 100 == 0
    ensures y % 100 == 0 ==> y % 4 == 0
  {
    if y % 400 == 0 {
      assert y == 100 * (4 * (y / 400));
    }
    if y % 100 == 0 {
      assert y == 4 * (25 * (y / 100));
    }
  }

  lemma {:induction false} YearsByFormula(y: nat)
    requires EPOCH <= y
    ensures DaysToYear(y) == 365 * (y - EPOCH) + Leaps(y - 1) - 477
  {
    hide Leaps, IsLeap;
    if y > EPOCH {
      YearsByFormula(y - 1);
      LeapsNext(y - 2);
    } else {
      assert Leaps(1969) == 477 by {
        LeapsAtEpoch();
      }
    }
  }

  lemma LeapsAtEpoch()
    ensures Leaps(1969) == 477
  {
  }

  /** The days of a year before each month. */
  lemma MonthStarts(y: nat)
    ensures DaysToMonth(y, 0) == 0 && DaysToMonth(y, 1) == 31
    ensures var leap := if IsLeap(y) then 1 else 0;
            forall m :: 2 <= m < 12 ==> DaysToMonth(y, m) == (153 * (m - 2) + 2) / 5 + 59 + leap
  {
    hide IsLeap;
    var feb := MonthDays(y, 1);
    assert DaysToMonth(y, 1) == 31;
    assert DaysToMonth(y, 2) == 31 + feb;
    assert DaysToMonth(y, 3) == 62 + feb && DaysToMonth(y, 4) == 92 + feb;
    assert DaysToMonth(y, 5) == 123 + feb && DaysToMonth(y, 6) == 153 + feb;
    assert DaysToMonth(y, 7) == 184 + feb && DaysToMonth(y, 8) == 215 + feb;
    assert DaysToMonth(y, 9) == 245 + feb && DaysToMonth(y, 10) == 276 + feb;
    assert DaysToMonth(y, 11) == 306 + feb;
  }

  /** Years, months and days summed up give what the formula gives. */
  lemma SumByFormula(year: nat, month: nat, day: nat)
    requires EPOCH <= year && 1 <= month <= 12
    ensures DaysToYear(year) + DaysToMonth(year, month - 1) + day - 1 == Gregorian(year, month, day)
  {
    hide DaysToYear, DaysToMonth, IsLeap, Leaps;
    YearsByFormula(year);
    MonthStarts(year);
    LeapsNext(year - 1);
    FormulaParts(year, month, day);
  }

  /** The day number of every valid date is what the formula gives. */
  lemma DayByFormula(d: Date)
    requires ValidDate(d)
    ensures DayNumber(d) == Gregorian(d.year, d.month, d.day)
  {
    SumByFormula(d.year, d.month, d.day);
  }

  lemma FormulaParts(y: nat, m: nat, d: nat)
    requires EPOCH <= y && 1 <= m <= 12
    ensures m <= 2 ==> Gregorian(y, m, d) == 365 * (y - EPOCH) + Leaps(y - 1) - 477 + 31 * (m - 1) + d - 1
    ensures m > 2 ==> Gregorian(y, m, d) == 365 * (y - EPOCH) + Leaps(y) - 477 + (153 * (m - 3) + 2) / 5 + 59 + d - 1
  {
  }

  // ---------- the date of a second is unique ----------

  lemma {:induction false} YearsGrow(y: nat, z: nat)
    requires EPOCH <= y < z
    ensures DaysToYear(y) + YearDays(y) <= DaysToYear(z)
  {
    if y < z - 1 {
      YearsGrow(y, z - 1);
    }
  }

  lemma {:induction false} MonthsGrow(y: nat, m: nat, n: nat)
    requires m < n <= 12
    ensures DaysToMonth(y, m) + MonthDays(y, m) <= DaysToMonth(y, n)
  {
    if m < n - 1 {
      MonthsGrow(y, m, n - 1);
    }
  }

  lemma WholeYear(y: nat)
    ensures DaysToMonth(y, 12) == YearDays(y)
  {
    var feb := MonthDays(y, 1);
    assert DaysToMonth(y, 1) == 31;
    assert DaysToMonth(y, 3) == 62 + feb;
    assert DaysToMonth(y, 5) == 123 + feb;
    assert DaysToMonth(y, 7) == 184 + feb;
    assert DaysToMonth(y, 9) == 245 + feb;
    assert DaysToMonth(y, 11) == 306 + feb;
  }

  lemma InYear(d: Date)
    requires ValidDate(d)
    ensures DaysToYear(d.year) <= DayNumber(d) < DaysToYear(d.year) + YearDays(d.year)
  {
    MonthsGrow(d.year, d.month - 1, 12);
    WholeYear(d.year);
  }

  lemma SameDay(a: Date, b: Date)
    requires ValidDate(a) && ValidDate(b) && DayNumber(a) == DayNumber(b)
    ensures a.year == b.year && a.month == b.month && a.day == b.day
  {
    hide IsLeap, DaysToYear, MonthDays, DaysToMonth;
    InYear(a);
    InYear(b);
    if a.year < b.year {
      YearsGrow(a.year, b.year);
    } else if b.year < a.year {
      YearsGrow(b.year, a.year);
    }
    if a.month < b.month {
      MonthsGrow(a.year, a.month - 1, b.month - 1);
    } else if b.month < a.month {
      MonthsGrow(a.year, b.month - 1, a.month - 1);
    }
  }

  lemma DayAndTime(n: nat, h: nat, m: nat, s: nat)
    requires h < 24 && m < 60 && s < 60
    ensures var t := n * DAY + h * 3600 + m * 60 + s;
            t / DAY == n && t % DAY / 3600 == h && t % DAY % 3600 / 60 == m && t % DAY % 3600 % 60 == s
  {
  }

  lemma SameSecond(a: Date, b: Date)
    requires ValidDate(a) && ValidDate(b) && SecondsTo(a) == SecondsTo(b)
    ensures a == b
  {
    hide DayNumber;
    DayAndTime(DayNumber(a), a.hour, a.min, a.sec);
    DayAndTime(DayNumber(b), b.hour, b.min, b.sec);
    SameDay(a, b);
  }

  // ---------- the code ----------

  /** break_unix_time, the weekday left out. */
  method BreakUnixTime(secs: nat) returns (d: Date)
    ensures ValidDate(d) && SecondsTo(d) == secs
    ensures Gregorian(d.year, d.month, d.day) * DAY + d.hour * 3600 + d.min * 60 + d.sec == secs
  {
    hide MonthDays, IsLeap, Gregorian;
    var days: nat, rem := secs / DAY, secs % DAY;
    ghost var all := days;
    var hour := rem / 3600;
    rem := rem % 3600;
    var min, sec := rem / 60, rem % 60;
    var year := EPOCH;
    while days >= YearDays(year)
      invariant EPOCH <= year && DaysToYear(year) + days == all
      decreases days
    {
      days := days - YearDays(year);
      year := year + 1;
    }
    WholeYear(year);
    var month: nat := 0;
    while month < 12 && days >= MonthDays(year, month)
      invariant month <= 12 && DaysToMonth(year, month) + days == all - DaysToYear(year)
      invariant days + DaysToMonth(year, month) < YearDays(year)
    {
      days := days - MonthDays(year, month);
      month := month + 1;
    }
    d := Date(year, month + 1, days + 1, hour, min, sec);
    DayByFormula(d);
  }

  function Within(lo: nat, n: nat, hi: nat): nat {
    if n < lo then lo else if n > hi then hi else n
  }

  /** rtc_get_unix_time from the register values on: the month is forced into 1 to 12 and a day 0 to 1, years
      before 1970 count as none, and the sum is one of 32 bits. */
  method UnixTime(year: nat, month0: nat, day0: nat, hour: nat, min: nat, sec: nat) returns (secs: nat)
    ensures EPOCH <= year ==>
              secs == (Gregorian(year, Within(1, month0, 12), Within(1, day0, day0 + 1)) * DAY +
                       hour * 3600 + min * 60 + sec) % U32
    ensures year < EPOCH ==>
              secs == ((DaysToMonth(year, Within(1, month0, 12) - 1) + Within(1, day0, day0 + 1) - 1) * DAY +
                       hour * 3600 + min * 60 + sec) % U32
    ensures ValidDate(Date(year, month0, day0, hour, min, sec)) ==>
              secs == SecondsTo(Date(year, month0, day0, hour, min, sec)) % U32
  {
    hide DaysToMonth, DaysToYear, Gregorian, IsLeap;
    if EPOCH <= year {
      SumByFormula(year, Within(1, month0, 12), Within(1, day0, day0 + 1));
    } else {
      NoYears(year);
    }
    var days := DaysBefore(year, month0, day0);
    secs := days * DAY % U32;
    Wrap(days * DAY, hour * 3600, min * 60, sec);
    secs := (secs + hour * 3600) % U32;
    secs := (secs + min * 60) % U32;
    secs := (secs + sec) % U32;
  }

  lemma Wrap(a: nat, b: nat, c: nat, d: nat)
    ensures (((a % U32 + b) % U32 + c) % U32 + d) % U32 == (a + b + c + d) % U32
  {
    WrapOne(a, b);
    WrapOne(a + b, c);
    WrapOne(a + b + c, d);
  }

  lemma WrapOne(a: nat, b: nat)
    ensures (a % U32 + b) % U32 == (a + b) % U32
  {
  }

  lemma NoYears(year: nat)
    ensures year < EPOCH ==> DaysToYear(year) == 0
  {
  }

  method DaysBefore(year: nat, month0: nat, day0: nat) returns (days: nat)
    ensures days ==
            DaysToYear(year) + DaysToMonth(year, Within(1, month0, 12) - 1) + (Within(1, day0, day0 + 1) - 1)
  {
    var month, day := month0, day0;
    if month < 1 {
      month := 1;
    }
    if month > 12 {
      month := 12;
    }
    if day < 1 {
      day := 1;
    }
    days := 0;
    var y := EPOCH;
    while y < year
      invariant EPOCH <= y && (y <= year || y == EPOCH) && days == DaysToYear(y)
    {
      days := days + if IsLeap(y) then 366 else 365;
      y := y + 1;
    }
    var m := 0;
    while m < month - 1
      invariant 0 <= m <= month - 1
      invariant days == DaysToYear(year) + DaysToMonth(year, m) - if m >= 2 && IsLeap(year) then 1 else 0
    {
      days := days + CommonMonth(m);
      m := m + 1;
    }
    if month > 2 && IsLeap(year) {
      days := days + 1;
    }
    days := days + (day - 1);
  }

  /** days_in_month */
  function CommonMonth(m: nat): nat
    requires m < 12
  {
    [31, 28, 31, 30, 31, 30, 31, 31, 30, 31, 30, 31][m]
  }

  /** Breaking a second down and putting the date together again gives the second. */
  method ThereAndBack(s: nat) returns (t: nat)
    requires s < U32
    ensures t == s
  {
    hide ValidDate, SecondsTo, Gregorian, DaysToMonth;
    var d := BreakUnixTime(s);
    t := UnixTime(d.year, d.month, d.day, d.hour, d.min, d.sec);
  }

  /** And the other way round for every valid date that 32 bits reach. */
  method BackAndThere(d: Date) returns (e: Date)
    requires ValidDate(d) && SecondsTo(d) < U32
    ensures e == d
  {
    hide ValidDate, SecondsTo, Gregorian;
    var s := UnixTime(d.year, d.month, d.day, d.hour, d.min, d.sec);
    e := BreakUnixTime(s);
    SameSecond(d, e);
  }
}
