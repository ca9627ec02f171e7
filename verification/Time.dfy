/**
 tm_to_time of lib/time.c: broken-down calendar time to seconds since the Epoch. The
 arithmetic is that of the C source: int is 32 bits, time_t 64 bits, and / and % truncate
 toward zero.
 */
module Time {

  type int32 = x: int | -0x8000_0000 <= x < 0x8000_0000

  datatype Tm = Tm(year: int32, mon: int32, mday: int32, hour: int32, min: int32, sec: int32)

  /* Conversion of a wider value to int. */
  function ToInt(x: int): int32 {
    (x + 0x8000_0000) % 0x1_0000_0000 - 0x8000_0000
  }

  predicate FitsInt(x: int) {
    -0x8000_0000 <= x < 0x8000_0000
  }

  function CDiv(a: int, b: int): int
    requires b > 0
  {
    if a >= 0 then a / b else -((-a) / b)
  }

  function CMod(a: int, b: int): int
    requires b > 0
  {
    a - b * CDiv(a, b)
  }

  /* The macro Q. */
  function Q(a: int, b: int): int
    requires b > 0
  {
    if a > 0 then CDiv(a, b) else -CDiv(b - a - 1, b)
  }

  const DAYS_AT_MONTH: seq<int> := [0, 31, 59, 90, 120, 151, 181, 212, 243, 273, 304, 334]

  /* The month in 0..11 and the year that goes with it. */
  function Normalise(year: int, month: int): (int, int) {
    if month >= 12 then (year + CDiv(month, 12), CMod(month, 12))
    else if month < 0 then
      var y, m := year + CDiv(month, 12), CMod(month, 12);
      if m != 0 then (y - 1, m + 12) else (y, m)
    else (year, month)
  }

  lemma NormaliseKeeps(year: int, month: int)
    ensures var (y, m) := Normalise(year, month); 0 <= m < 12 && 12 * y + m == 12 * year + month
  {
  }

  /* The right-hand side of the assignment to day, for year counted from 2000. */
  function DayOffset(year: int, month: int): int
    requires 0 <= month < 12
  {
    var z4 := ToInt(Q(year - (if month < 2 then 1 else 0), 4));
    var z100 := ToInt(Q(z4, 25));
    var z400 := ToInt(Q(z100, 4));
    year * 365 + z4 - z100 + z400 + DAYS_AT_MONTH[month]
  }

  /* tm_to_time. Signed overflow in the sums the source computes in int is undefined in C, so
     a caller may not ask for it. */
  function TmToTime(tm: Tm): int
    requires FitsInt(tm.year - 100) && FitsInt(tm.hour * 3600) && FitsInt(tm.min * 60)
  {
    var (year, month) := Normalise(tm.year - 100, tm.mon);
    NormaliseKeeps(tm.year - 100, tm.mon);
    var day := ToInt(tm.mday + DayOffset(year, month));
    day * 86400 + tm.hour * 3600 + tm.min * 60 + tm.sec + 946684800
  }

  // ------------------------------------------------------------------ the Gregorian calendar

  predicate Leap(year: int) {
    year % 4 == 0 && (year % 100 != 0 || year % 400 == 0)
  }

  function MonthLength(year: int, month: int): int
    requires 0 <= month < 12
  {
    if month == 1 then if Leap(year) then 29 else 28
    else if month == 3 || month == 5 || month == 8 || month == 10 then 30 else 31
  }

  /* The length of the month that comes n months after January 2000. */
  function LengthOf(n: int): int {
    MonthLength(2000 + n / 12, n % 12)
  }

  /* The days from 1 January 2000 to the first of the month n months later, counted month by
     month. */
  function Days(n: int): int
    decreases if n < 0 then -n else n
  {
    if n == 0 then 0 else if n > 0 then Days(n - 1) + LengthOf(n - 1) else Days(n + 1) - LengthOf(n)
  }

  lemma NextMonth(n: int)
    ensures Days(n + 1) == Days(n) + LengthOf(n)
  {
  }

  // ------------------------------------------------------------------ the proof

  lemma QIsFloor(a: int, b: int)
    requires b == 4 || b == 25
    ensures Q(a, b) == a / b
  {
    if b == 4 {
      assert -((3 - a) / 4) == a / 4;
    } else {
      assert -((24 - a) / 25) == a / 25;
    }
  }

  /* The leap days from 2000 up to the end of year y, in the source's three nested quotients. */
  function LeapDays(y: int): int {
    y / 4 - y / 100 + y / 400
  }

  lemma OffsetIsLeapDays(year: int, month: int)
    requires 0 <= month < 12 && -0x1_0000_0000 <= year <= 0x1_0000_0000
    ensures DayOffset(year, month)
         == year * 365 + LeapDays(year - if month < 2 then 1 else 0) + DAYS_AT_MONTH[month]
  {
    hide Q, ToInt;
    var a := year - if month < 2 then 1 else 0;
    QIsFloor(a, 4);
    Narrow(a / 4);
    QIsFloor(a / 4, 25);
    Narrow(a / 4 / 25);
    QIsFloor(a / 4 / 25, 4);
    Narrow(a / 4 / 25 / 4);
    Nested(a);
  }

  lemma Nested(a: int)
    ensures a / 4 / 25 == a / 100 && a / 4 / 25 / 4 == a / 400
  {
  }

  lemma LeapStep(y: int)
    ensures LeapDays(y) == LeapDays(y - 1) + if Leap(2000 + y) then 1 else 0
  {
    Carry4(y);
    Carry100(y);
    Carry400(y);
    Multiples(y);
  }

  lemma Carry4(y: int)
    ensures y / 4 == (y - 1) / 4 + (if y % 4 == 0 then 1 else 0) && (2000 + y) % 4 == y % 4
  {
  }

  lemma Carry100(y: int)
    ensures y / 100 == (y - 1) / 100 + (if y % 100 == 0 then 1 else 0) && (2000 + y) % 100 == y % 100
  {
  }

  lemma Carry400(y: int)
    ensures y / 400 == (y - 1) / 400 + (if y % 400 == 0 then 1 else 0) && (2000 + y) % 400 == y % 400
  {
  }

  lemma Multiples(y: int)
    ensures y % 100 == 0 ==> y % 4 == 0
    ensures y % 400 == 0 ==> y % 100 == 0
  {
  }

  /* The closed form, without the narrowing to int. */
  function Offset(n: int): int {
    n / 12 * 365 + LeapDays(n / 12 - if n % 12 < 2 then 1 else 0) + DAYS_AT_MONTH[n % 12]
  }

  lemma OffsetStep(n: int)
    ensures Offset(n + 1) == Offset(n) + LengthOf(n)
  {
    hide LeapDays;
    LeapStep(n / 12);
    if n % 12 == 11 {
      assert (n + 1) / 12 == n / 12 + 1 && (n + 1) % 12 == 0;
    } else {
      assert (n + 1) / 12 == n / 12 && (n + 1) % 12 == n % 12 + 1;
    }
  }

  lemma {:induction false} OffsetIsDays(n: int)
    ensures Offset(n) == Days(n) - 1
    decreases if n < 0 then -n else n
  {
    hide Offset, LengthOf;
    if n > 0 {
      OffsetIsDays(n - 1);
      OffsetStep(n - 1);
    } else if n < 0 {
      OffsetIsDays(n + 1);
      OffsetStep(n);
    } else {
      assert Offset(0) == -1 by { OffsetZero(); }
    }
  }

  lemma OffsetZero()
    ensures Offset(0) == -1
  {
  }

  /* The month tm names, in months after January 2000; the month may be any integer. */
  function MonthIndex(tm: Tm): int {
    12 * (tm.year - 100) + tm.mon
  }

  /* The seconds from the Epoch to tm, in unbounded arithmetic and counting months one by one. */
  function Seconds(tm: Tm): int {
    946684800 + (Days(MonthIndex(tm)) + tm.mday - 1) * 86400 + tm.hour * 3600 + tm.min * 60 + tm.sec
  }

  /* tm_to_time counts Gregorian months exactly, for every year and every integer month, if and
     only if the day count fits an int. */
  lemma TimeIsExact(tm: Tm)
    requires FitsInt(tm.year - 100) && FitsInt(tm.hour * 3600) && FitsInt(tm.min * 60)
    ensures TmToTime(tm) == Seconds(tm) <==> FitsInt(Days(MonthIndex(tm)) + tm.mday - 1)
  {
    var (year, month) := Normalise(tm.year - 100, tm.mon);
    NormaliseKeeps(tm.year - 100, tm.mon);
    var n := MonthIndex(tm);
    hide Days, DayOffset, LeapDays, Normalise, ToInt, FitsInt;
    assert DayOffset(year, month) == Days(n) - 1 by { MonthOffset(year, month, n); }
    Narrow(tm.mday + Days(n) - 1);
  }

  lemma MonthOffset(year: int, month: int, n: int)
    requires 0 <= month < 12 && n == 12 * year + month && -0x1_0000_0000 <= year <= 0x1_0000_0000
    ensures DayOffset(year, month) == Days(n) - 1
  {
    hide Days, DayOffset, LeapDays;
    TwelveParts(year, month, n);
    OffsetIsLeapDays(year, month);
    OffsetIsDays(n);
  }

  lemma TwelveParts(year: int, month: int, n: int)
    requires 0 <= month < 12 && n == 12 * year + month
    ensures n / 12 == year && n % 12 == month
  {
  }

  lemma Narrow(x: int)
    ensures FitsInt(x) <==> ToInt(x) == x
  {
  }

  lemma Epoch2000()
    ensures TmToTime(Tm(100, 0, 1, 0, 0, 0)) == 946684800
  {
    TimeIsExact(Tm(100, 0, 1, 0, 0, 0));
  }

  /* From a date to the same day of the next month, tm_to_time steps by the month's length. */
  lemma MonthStep(tm: Tm, next: Tm)
    requires FitsInt(tm.year - 100) && FitsInt(tm.hour * 3600) && FitsInt(tm.min * 60)
    requires FitsInt(next.year - 100) && MonthIndex(next) == MonthIndex(tm) + 1
    requires next.mday == tm.mday && next.hour == tm.hour && next.min == tm.min && next.sec == tm.sec
    requires FitsInt(Days(MonthIndex(tm)) + tm.mday - 1) && FitsInt(Days(MonthIndex(next)) + tm.mday - 1)
    ensures TmToTime(next) == TmToTime(tm) + 86400 * LengthOf(MonthIndex(tm))
  {
    hide TmToTime, Days, LengthOf;
    TimeIsExact(tm);
    TimeIsExact(next);
    NextMonth(MonthIndex(tm));
  }

  // ------------------------------------------------------------------ POSIX

  /* The expression of "Seconds Since the Epoch", section 4.16 of the Base Definitions volume
     of POSIX.1-2017, for the day of the year yday. */
  function PosixSeconds(year: int, yday: int, hour: int, min: int, sec: int): int {
    sec + min * 60 + hour * 3600 + yday * 86400 + (year - 70) * 31536000
      + (year - 69) / 4 * 86400 - (year - 1) / 100 * 86400 + (year + 299) / 400 * 86400
  }

  /* The days since 1 January of tm's year. */
  function DayOfYear(tm: Tm): int
    requires 0 <= tm.mon < 12
  {
    Days(MonthIndex(tm)) - Days(12 * (tm.year - 100)) + tm.mday - 1
  }

  lemma AgreesWithPosix(tm: Tm)
    requires 70 <= tm.year && 0 <= tm.mon < 12 && FitsInt(tm.hour * 3600) && FitsInt(tm.min * 60)
    ensures TmToTime(tm) == PosixSeconds(tm.year, DayOfYear(tm), tm.hour, tm.min, tm.sec)
        <==> FitsInt(Days(MonthIndex(tm)) + tm.mday - 1)
  {
    assert FitsInt(tm.year - 100);
    hide TmToTime, Days, Offset, FitsInt;
    TimeIsExact(tm);
    OffsetIsDays(12 * (tm.year - 100));
    NewYear(tm.year);
  }

  lemma NewYear(year: int)
    ensures Offset(12 * (year - 100)) + 1 + 10957
         == (year - 70) * 365 + (year - 69) / 4 - (year - 1) / 100 + (year + 299) / 400
  {
    var y := year - 100;
    assert 12 * y / 12 == y && 12 * y % 12 == 0;
    assert (y - 1) / 4 == (year - 69) / 4 - 8;
    assert (y - 1) / 100 == (year - 1) / 100 - 1;
    assert (y - 1) / 400 == (year + 299) / 400 - 1;
  }
}
