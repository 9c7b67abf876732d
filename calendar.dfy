/*
 * Calendar decomposition used by the Windows date formatter: a time value in
 * milliseconds since 1 January 1970 is split into year, month, day of month,
 * day of year, week day and time of day (ECMA-262 2015, section 20.3.1).
 * The source works on doubles; here the time value is an integer number of
 * milliseconds and C's truncating `/` and `%` on `int` are written out.
 */
module Calendar {

  import opened Arith

  const MsPerDay: int := 86400000

  /** Day number (within a leap year) of the first day of each month. */
  const LeapMonthStarts: seq<int> := [0, 31, 60, 91, 121, 152, 182, 213, 244, 274, 305, 335]

  /** WORD cast: keeps the low 16 bits of a two's complement int. */
  function Word(x: int): int
  {
    x % 0x1_0000
  }

  // ---------------------------------------------------------------------------
  // Reference calendar: the Gregorian rule and month lengths.
  // ---------------------------------------------------------------------------

  function YearLength(year: int): int
  {
    if FLeap(year) then 366 else 365
  }

  function MonthLength(mon: int, leap: bool): int
    requires 0 <= mon < 12
  {
    if mon == 1 then (if leap then 29 else 28)
    else if mon == 3 || mon == 5 || mon == 8 || mon == 10 then 30
    else 31
  }

  /** Days of a common year that precede each month; index 12 is the year's length. */
  const CommonMonthStarts: seq<int> := [0, 31, 59, 90, 120, 151, 181, 212, 243, 273, 304, 334, 365]

  /** Days of the year that precede month `mon` (0-based). */
  function MonthStart(mon: int, leap: bool): int
    requires 0 <= mon <= 12
  {
    CommonMonthStarts[mon] + (if leap && mon >= 2 then 1 else 0)
  }

  /** The month starts add up the month lengths. */
  lemma MonthStartsAddUp(mon: int, leap: bool)
    requires 0 <= mon < 12
    ensures MonthStart(0, leap) == 0
    ensures MonthStart(mon + 1, leap) - MonthStart(mon, leap) == MonthLength(mon, leap)
    ensures MonthStart(12, leap) == (if leap then 366 else 365)
  {
  }

  // ---------------------------------------------------------------------------
  // FLeap, DayFromYear, DblModPos
  // ---------------------------------------------------------------------------

  /** The Gregorian leap-year rule. `year & 3` of a two's complement int is the
      non-negative remainder modulo 4, and C's `%` is only compared with zero,
      where it agrees with the Euclidean remainder. */
  predicate FLeap(year: int)
    ensures FLeap(year) ==> year % 4 == 0
    ensures year % 4 == 0 && year % 100 != 0 ==> FLeap(year)
    ensures year % 100 == 0 ==> (FLeap(year) <==> year % 400 == 0)
  {
    year % 4 == 0 && (year % 100 != 0 || year % 400 == 0)
  }

  /** The same rule with C's truncating remainder, as the source writes it. */
  lemma FLeapWithCRemainder(year: int)
    ensures FLeap(year) <==> year % 4 == 0 && (CRem(year, 100) != 0 || CRem(year, 400) == 0)
  {
    CRemZero(year, 100);
    CRemZero(year, 400);
  }

  /** The day number of 1 January of `year`; the positive branch truncates, the
      other floors, exactly as the source does. */
  function DayFromYear(year: int): (day: int)
    ensures year == 1970 ==> day == 0
    ensures year >= 1970 ==> 365 * (year - 1970) <= day <= 366 * (year - 1970)
    ensures year <= 1970 ==> 366 * (year - 1970) <= day <= 365 * (year - 1970)
  {
    var y := year - 1970;
    var day := 365 * y;
    if day > 0 then
      day + TruncDiv(y + 1, 4) - TruncDiv(y + 69, 100) + TruncDiv(y + 369, 400)
    else
      // Dafny's `/` by a positive divisor is floor division.
      day + (y + 1) / 4 - (y + 69) / 100 + (y + 369) / 400
  }

  /** The floor formula, in years since 1970, valid for every year. */
  function DayNumber(y: int): int
  {
    365 * y + (y + 1) / 4 - (y + 69) / 100 + (y + 369) / 400
  }

  /** Day number of 1 January of `year`, by the floor formula. */
  function YearStart(year: int): int
  {
    DayNumber(year - 1970)
  }

  /** The year containing day number `day`. */
  predicate DayInYear(day: int, year: int)
  {
    YearStart(year) <= day < YearStart(year + 1)
  }

  /** Both branches of DayFromYear compute the floor formula: the truncating
      branch is only taken for years after 1970, where every quotient is positive. */
  lemma DayFromYearIsFloorFormula(year: int)
    ensures DayFromYear(year) == YearStart(year)
  {
  }

  /** 1 January 1970 is day 0. */
  lemma DayFromYearEpoch()
    ensures DayFromYear(1970) == 0
  {
  }

  /** Consecutive years are 366 days apart exactly when the first is a leap year. */
  lemma {:induction false} DayFromYearStep(year: int)
    ensures DayFromYear(year + 1) - DayFromYear(year) == YearLength(year)
  {
    DayFromYearIsFloorFormula(year);
    DayFromYearIsFloorFormula(year + 1);
    YearStartStep(year);
  }

  lemma YearStartStep(year: int)
    ensures YearStart(year + 1) - YearStart(year) == YearLength(year)
  {
    var y := year - 1970;
    assert YearStart(year + 1) == DayNumber(y + 1);
    DayNumberStep(y);
    assert y + 1970 == year;
  }

  lemma DayNumberStep(y: int)
    ensures DayNumber(y + 1) - DayNumber(y) == YearLength(y + 1970)
  {
    var a := (y + 1 + 1) / 4 - (y + 1) / 4;
    var b := (y + 1 + 69) / 100 - (y + 69) / 100;
    var c := (y + 1 + 369) / 400 - (y + 369) / 400;
    FloorStepAt(y, 4, 1, 492);
    FloorStepAt(y, 100, 69, 19);
    FloorStepAt(y, 400, 369, 4);
    assert DayNumber(y + 1) - DayNumber(y) == 365 + a - b + c;
    LeapCount(y + 1970);
  }

  /** The Gregorian rule as a count: +1 for multiples of 4, -1 for multiples of
      100, +1 for multiples of 400. */
  lemma LeapCount(year: int)
    ensures YearLength(year) == 365 + (if year % 4 == 0 then 1 else 0)
                                    - (if year % 100 == 0 then 1 else 0)
                                    + (if year % 400 == 0 then 1 else 0)
  {
    if year % 400 == 0 {
      assert year == year / 400 * 400;
      ModuloOfMultiple(0, year / 400 * 4, 100);
      ModuloOfMultiple(0, year / 400 * 100, 4);
    } else if year % 100 == 0 {
      assert year == year / 100 * 100;
      ModuloOfMultiple(0, year / 100 * 25, 4);
    }
  }

  /** Going from y to y + 1, floor((y + k) / d) grows by one exactly when d
      divides y + 1970 (= y + k + 1 + d * m). */
  lemma FloorStepAt(y: int, d: int, k: int, m: int)
    requires d > 0 && 1970 == k + 1 + d * m
    ensures (y + 1 + k) / d - (y + k) / d == (if (y + 1970) % d == 0 then 1 else 0)
  {
    StepOfFloor(y + k, d);
    ModuloOfMultiple(y + k + 1, m, d);
    assert y + k + 1 + m * d == y + 1970;
  }

  /** 400 * DayNumber(y) stays within [-398, 481] of 146097 * y. */
  lemma DayNumberEstimate(y: int)
    ensures -398 <= 400 * DayNumber(y) - 146097 * y <= 481
  {
    var a := (y + 1) % 4;
    var b := (y + 69) % 100;
    var c := (y + 369) % 400;
    assert 4 * ((y + 1) / 4) == y + 1 - a;
    assert 100 * ((y + 69) / 100) == y + 69 - b;
    assert 400 * ((y + 369) / 400) == y + 369 - c;
    assert 400 * DayNumber(y) - 146097 * y == 193 - 100 * a + 4 * b - c;
    // c agrees with b modulo 100, and b with a modulo 4
    var j := c / 100;
    var m := b / 4;
    assert (y + 369) - (y + 69) == 300;
    ModuloOfShift(y + 69, 300, 100, 400);
    assert c % 100 == b;
    ModuloOfShift(y + 1, 68, 4, 100);
    assert b % 4 == a;
    assert c == 100 * j + b && 0 <= j < 4;
    assert b == 4 * m + a && 0 <= m < 25;
  }

  /** Reducing x + k modulo a multiple of d keeps x + k modulo d. */
  lemma ModuloOfShift(x: int, k: int, d: int, big: int)
    requires d > 0 && big > 0 && big % d == 0 && k % d == 0
    ensures ((x + k) % big) % d == x % d
  {
    var q := (x + k) / big;
    var e := big / d;
    assert big == e * d;
    var f := k / d;
    assert k == f * d;
    var r := (x + k) % big;
    assert x + k == q * big + r;
    assert r == x + f * d - q * e * d;
    assert r == x + (f - q * e) * d;
    ModuloOfMultiple(x, f - q * e, d);
  }

  /** The estimate the source uses is at most one year too large. */
  lemma {:induction false} YearEstimate(day: int)
    ensures var y := (400 * day + 398) / 146097;
            YearStart(1970 + y - 1) <= day < YearStart(1970 + y + 1)
  {
    var y := (400 * day + 398) / 146097;
    assert 146097 * y <= 400 * day + 398 < 146097 * (y + 1);
    DayNumberEstimate(y - 1);
    DayNumberEstimate(y + 1);
    assert YearStart(1970 + y - 1) == DayNumber(y - 1);
    assert YearStart(1970 + y + 1) == DayNumber(y + 1);
  }

  /** The non-negative remainder of `dbl` by a positive `dblDen`. */
  function DblModPos(dbl: int, dblDen: int): (r: int)
    requires dblDen > 0
    ensures 0 <= r < dblDen
    ensures r == dbl % dblDen
  {
    var m := CRem(dbl, dblDen);
    DblModPosMeaning(dbl, dblDen);
    if m < 0 then m + dblDen else m
  }

  lemma DblModPosMeaning(dbl: int, dblDen: int)
    requires dblDen > 0
    ensures var m := CRem(dbl, dblDen);
            -dblDen < m < dblDen &&
            (if m < 0 then m + dblDen else m) == dbl % dblDen
  {
    if dbl < 0 {
      var q := (-dbl) / dblDen;
      var s := (-dbl) % dblDen;
      assert -dbl == q * dblDen + s;
      if s == 0 {
        DivModUnique(dbl, dblDen, -q, 0);
      } else {
        DivModUnique(dbl, dblDen, -q - 1, dblDen - s);
      }
    }
  }

  // ---------------------------------------------------------------------------
  // YMD and GetYmdFromTv
  // ---------------------------------------------------------------------------

  /** Windows SYSTEMTIME: every field is a 16-bit WORD. */
  class SystemTime {
    var wYear: int
    var wMonth: int
    var wDay: int
    var wHour: int
    var wMinute: int
    var wSecond: int
    var wMilliseconds: int

    constructor ()
    {
    }
  }

  /** Decomposed date; `yt` is the week day of 1 January, plus 7 in a leap year. */
  class Ymd {
    var year: int
    var yt: int
    var mon: int
    var mday: int
    var yday: int
    var wday: int
    var time: int

    constructor ()
    {
    }

    method ToSystemTime(sys: SystemTime)
      modifies sys
      ensures sys.wYear == Word(year)
      ensures sys.wMonth == Word(mon + 1) && sys.wDay == Word(mday + 1)
      ensures 0 <= mon < 12 ==> sys.wMonth == mon + 1
      ensures 0 <= mday < 31 ==> sys.wDay == mday + 1
      ensures 0 <= time < MsPerDay ==>
                sys.wMilliseconds == time % 1000 < 1000 &&
                sys.wSecond == (time / 1000) % 60 < 60 &&
                sys.wMinute == (time / 60000) % 60 < 60 &&
                sys.wHour == time / 3600000 < 24
    {
      sys.wYear := Word(year);
      sys.wMonth := Word(mon + 1);
      sys.wDay := Word(mday + 1);
      var t := time;
      sys.wMilliseconds := Word(CRem(t, 1000));
      t := TruncDiv(t, 1000);
      ghost var t1 := t;
      sys.wSecond := Word(CRem(t, 60));
      t := TruncDiv(t, 60);
      ghost var t2 := t;
      sys.wMinute := Word(CRem(t, 60));
      t := TruncDiv(t, 60);
      sys.wHour := Word(t);
      WordOfSmall(mon + 1);
      WordOfSmall(mday + 1);
      ClockFields(time, t1, t2, t);
    }
  }

  lemma WordOfSmall(x: int)
    ensures 0 <= x < 0x1_0000 ==> Word(x) == x
  {
    if 0 <= x < 0x1_0000 {
      DivModUnique(x, 0x1_0000, 0, x);
    }
  }

  lemma ClockFields(time: int, t1: int, t2: int, t3: int)
    requires t1 == TruncDiv(time, 1000) && t2 == TruncDiv(t1, 60) && t3 == TruncDiv(t2, 60)
    ensures 0 <= time < MsPerDay ==>
              Word(CRem(time, 1000)) == time % 1000 < 1000 &&
              Word(CRem(t1, 60)) == (time / 1000) % 60 < 60 &&
              Word(CRem(t2, 60)) == (time / 60000) % 60 < 60 &&
              Word(t3) == time / 3600000 < 24
  {
    if 0 <= time < MsPerDay {
      CDivModNonNegative(time, 1000);
      CDivModNonNegative(time / 1000, 60);
      CDivModNonNegative(time / 1000 / 60, 60);
      DivDiv(time, 1000, 60);
      DivDiv(time, 60000, 60);
      WordOfSmall(time % 1000);
      WordOfSmall((time / 1000) % 60);
      WordOfSmall((time / 60000) % 60);
      WordOfSmall(time / 3600000);
    }
  }

  /** Moves `year` back by one when `day` precedes its first day. */
  method GetDayMinAndUpdateYear(day: int, year: int) returns (dayMin: int, newYear: int)
    ensures newYear == (if day < YearStart(year) then year - 1 else year)
    ensures dayMin == YearStart(newYear)
  {
    newYear := year;
    dayMin := DayFromYear(newYear);
    DayFromYearIsFloorFormula(newYear);
    if day < dayMin {
      newYear := newYear - 1;
      dayMin := DayFromYear(newYear);
      DayFromYearIsFloorFormula(newYear);
    }
  }

  /** The first half of GetYmdFromTv: the day number, time of day, week day,
      year and week day of 1 January, by the branch for positive time values
      (truncating) or the one for the others (flooring). */
  method SplitTimeValue(tv: int) returns (day: int, time: int, wday: int, year: int, dayMin: int, yt: int)
    ensures day == tv / MsPerDay
    ensures time == tv % MsPerDay && 0 <= time < MsPerDay
    ensures wday == (day + 4) % 7
    ensures DayInYear(day, year) && dayMin == YearStart(year)
    ensures 0 <= day - dayMin < YearLength(year)
    ensures yt == (dayMin + 4) % 7
  {
    if tv > 0 {
      day, time, wday, year, dayMin, yt := SplitPositiveTimeValue(tv);
    } else {
      day, time, wday, year, dayMin, yt := SplitNonPositiveTimeValue(tv);
    }
  }

  /** The branch for positive time values, which truncates. */
  method SplitPositiveTimeValue(tv: int) returns (day: int, time: int, wday: int, year: int, dayMin: int, yt: int)
    requires tv > 0
    ensures day == tv / MsPerDay
    ensures time == tv % MsPerDay && 0 <= time < MsPerDay
    ensures wday == (day + 4) % 7
    ensures DayInYear(day, year) && dayMin == YearStart(year)
    ensures 0 <= day - dayMin < YearLength(year)
    ensures yt == (dayMin + 4) % 7
  {
    day := TruncDiv(tv, MsPerDay);
    time := DblModPos(tv, MsPerDay);
    wday := CRem(day + 4, 7);
    year := 1970 + TruncDiv(400 * day + 398, 146097);
    PositiveDayFacts(tv);
    dayMin, year := GetDayMinAndUpdateYear(day, year);
    PositiveYearStart(day, year, dayMin);
    yt := CRem(dayMin + 4, 7);
  }

  /** The branch for the other time values, which floors. */
  method SplitNonPositiveTimeValue(tv: int) returns (day: int, time: int, wday: int, year: int, dayMin: int, yt: int)
    requires tv <= 0
    ensures day == tv / MsPerDay
    ensures time == tv % MsPerDay && 0 <= time < MsPerDay
    ensures wday == (day + 4) % 7
    ensures DayInYear(day, year) && dayMin == YearStart(year)
    ensures 0 <= day - dayMin < YearLength(year)
    ensures yt == (dayMin + 4) % 7
  {
    day := tv / MsPerDay;
    time := DblModPos(tv, MsPerDay);
    wday := DblModPos(day + 4, 7);
    year := 1970 + (400 * day + 398) / 146097;
    dayMin, year := GetDayMinAndUpdateYear(day, year);
    YearFound(day, year);
    yt := DblModPos(dayMin + 4, 7);
  }

  method GetYmdFromTv(tv: int, pymd: Ymd)
    modifies pymd
    ensures pymd.time == tv % MsPerDay && 0 <= pymd.time < MsPerDay
    ensures pymd.wday == (tv / MsPerDay + 4) % 7
    ensures DayInYear(tv / MsPerDay, pymd.year)
    ensures pymd.yday == tv / MsPerDay - YearStart(pymd.year)
    ensures 0 <= pymd.yday < YearLength(pymd.year)
    ensures pymd.yday == 365 ==> FLeap(pymd.year)
    ensures pymd.yt == (YearStart(pymd.year) + 4) % 7 + (if FLeap(pymd.year) then 7 else 0)
    ensures 0 <= pymd.mon < 12
    ensures var leap := FLeap(pymd.year);
            MonthStart(pymd.mon, leap) <= pymd.yday < MonthStart(pymd.mon + 1, leap) &&
            pymd.mday == pymd.yday - MonthStart(pymd.mon, leap) &&
            0 <= pymd.mday < MonthLength(pymd.mon, leap)
  {
    var day, time, wday, year, dayMin, yt := SplitTimeValue(tv);
    var yday := day - dayMin;
    var leap := FLeap(year);
    pymd.time, pymd.wday, pymd.year, pymd.yday := time, wday, year, yday;

    if leap {
      yt := yt + 7;
    } else if yday >= 59 {
      yday := yday + 1;
    }
    pymd.yt := yt;

    var mon := MonthOfLeapYearDay(yday);
    pymd.mon := mon;
    pymd.mday := yday - LeapMonthStarts[mon];
    MonthFromLeapTable(day - dayMin, yday, mon, leap);
    MonthStartsAddUp(mon, leap);
  }

  /** The month of a day of a leap year, by comparing against the month starts. */
  function MonthOfLeapYearDay(yday: int): (mon: int)
    ensures 0 <= yday < 366 ==>
              0 <= mon < 12 &&
              LeapMonthStarts[mon] <= yday < (if mon == 11 then 366 else LeapMonthStarts[mon + 1])
  {
    if yday < 182 then
      if yday < 60 then 0 + (if yday >= 31 then 1 else 0)
      else if yday < 121 then 2 + (if yday >= 91 then 1 else 0)
      else 4 + (if yday >= 152 then 1 else 0)
    else
      if yday < 244 then 6 + (if yday >= 213 then 1 else 0)
      else if yday < 305 then 8 + (if yday >= 274 then 1 else 0)
      else 10 + (if yday >= 335 then 1 else 0)
  }

  /** With a positive time value the truncating operations of the first branch
      agree with floor division. */
  lemma PositiveDayFacts(tv: int)
    requires tv > 0
    ensures var day := tv / MsPerDay;
            day >= 0 && TruncDiv(tv, MsPerDay) == day &&
            CRem(day + 4, 7) == (day + 4) % 7 &&
            TruncDiv(400 * day + 398, 146097) == (400 * day + 398) / 146097
  {
    var day := tv / MsPerDay;
    CDivModNonNegative(day + 4, 7);
  }

  lemma PositiveYearStart(day: int, year: int, dayMin: int)
    requires day >= 0
    requires var y := 1970 + (400 * day + 398) / 146097;
             year == (if day < YearStart(y) then y - 1 else y)
    requires dayMin == YearStart(year)
    ensures DayInYear(day, year) && 0 <= day - dayMin < YearLength(year)
    ensures CRem(dayMin + 4, 7) == (dayMin + 4) % 7
  {
    YearFound(day, year);
    assert year >= 1970 by {
      assert YearStart(1970) == 0;
    }
    DayNumberNonNegative(year - 1970);
    CDivModNonNegative(dayMin + 4, 7);
  }

  lemma DayNumberNonNegative(y: int)
    requires y >= 0
    ensures DayNumber(y) >= 0
  {
  }

  /** Reading the month off the leap-year table, after shifting common-year days
      from 1 March on by one, gives the month of the reference calendar. */
  lemma MonthFromLeapTable(yday: int, adjusted: int, mon: int, leap: bool)
    requires 0 <= yday < (if leap then 366 else 365)
    requires adjusted == (if !leap && yday >= 59 then yday + 1 else yday)
    requires 0 <= mon < 12
    requires LeapMonthStarts[mon] <= adjusted < (if mon == 11 then 366 else LeapMonthStarts[mon + 1])
    ensures MonthStart(mon, leap) <= yday < MonthStart(mon + 1, leap)
    ensures adjusted - LeapMonthStarts[mon] == yday - MonthStart(mon, leap)
  {
  }

  /** The year the source settles on contains `day`. */
  lemma YearFound(day: int, year: int)
    requires var y := 1970 + (400 * day + 398) / 146097;
             year == (if day < YearStart(y) then y - 1 else y)
    ensures DayInYear(day, year)
    ensures 0 <= day - YearStart(year) < YearLength(year)
  {
    YearEstimate(day);
    YearStartStep(year);
  }

}
