/** Seconds since the Epoch and days of the week, against a count of the days year by year and month by month. */
module Calendar {
  import Bits

  // The code of time.c. Years are counted from 1900 and may be negative.

  /** Division in C truncates towards zero. */
  function Div(a: int, b: int): int
    requires b > 0
  {
    if a >= 0 then a / b else 0 - (0 - a) / b
  }

  function Rem(a: int, b: int): int
    requires b > 0
  {
    a - b * Div(a, b)
  }

  /** is_leap_year() */
  function IsLeapYear(year: int): bool {
    if Rem(year, 400) == 100 then true else if Rem(year, 100) == 0 then false else Rem(year, 4) == 0
  }

  /** leap_years_to_end() */
  function LeapYearsToEnd(year: int): int {
    Div(year, 4) - Div(year, 100) + Div(year + 300, 400)
  }

  const OFFSET: seq<int> := [1, 4, 3, 6, 1, 4, 6, 2, 5, 0, 3, 5]

  const MONTH_START: seq<int> := [0, 31, 59, 90, 120, 151, 181, 212, 243, 273, 304, 334]

  /** The sum that day_of_week() reduces. */
  function WeekSum(year: int, mon: nat, mday: int): int
    requires mon < 12
  {
    var y := PseudoYear(year, mon);
    y + LeapYearsToEnd(y) + OFFSET[mon] + mday
  }

  /** January and February belong to the year before. */
  function PseudoYear(year: int, mon: nat): int {
    if mon < 2 then year - 1 else year
  }

  /** day_of_week() */
  function DayOfWeek(year: int, mon: nat, mday: int): int
    requires mon < 12
  {
    Rem(WeekSum(year, mon, mday), 7)
  }

  /** struct tm, as far as mktime() is concerned */
  class Time {
    var year: int
    var mon: nat
    var mday: int
    var hour: int
    var min: int
    var sec: int
    var yday: int
    var wday: int

    constructor (year: int, mon: nat, mday: int, hour: int, min: int, sec: int)
      ensures this.year == year && this.mon == mon && this.mday == mday
      ensures this.hour == hour && this.min == min && this.sec == sec
    {
      this.year, this.mon, this.mday, this.hour, this.min, this.sec := year, mon, mday, hour, min, sec;
      yday, wday := 0, 0;
    }

    /**
      mktime(): the day of the year and of the week are filled in. All three results are
      right for every year from 1900 on, and each exactly where truncation does no harm.
     */
    method MkTime() returns (seconds: int)
      requires mon < 12
      modifies `yday, `wday
      ensures seconds == 86400 * DaysSinceEpoch(year, mon, mday) + 3600 * hour + 60 * min + sec <==> CountRight(year, mon)
      ensures yday == DaysInMonths(year, mon) + mday - 1 <==> mon < 2 || LeapRight(year)
      ensures wday == (DaysSinceEpoch(year, mon, mday) + 4) % 7 <==> WeekRight(year, mon, mday)
      ensures year >= 0 ==> CountRight(year, mon) && LeapRight(year)
      ensures year >= 0 && mday >= 1 ==> WeekRight(year, mon, mday)
    {
      yday := mday - 1 + MONTH_START[mon];
      if mon >= 2 && IsLeapYear(year) {
        yday := yday + 1;
      }
      MonthStarts(year, mon);
      LeapExact(year);
      wday := DayOfWeek(year, mon, mday);
      WeekDay(year, mon, mday);
      var days := yday + 365 * year - 25567 + LeapYearsToEnd(year - 1);
      CountExact(year, mon, mday);
      Since1900(year, mon, mday);
      seconds := days * 86400 + ((hour * 60 + min) * 60 + sec);
    }
  }

  // The count.

  /** The Gregorian rule, for calendar years. */
  predicate Leap(y: int) {
    y % 4 == 0 && (y % 100 != 0 || y % 400 == 0)
  }

  function DaysInYear(year: int): nat {
    if Leap(1900 + year) then 366 else 365
  }

  function DaysInMonth(year: int, mon: nat): nat
    requires mon < 12
  {
    if mon == 1 then (if Leap(1900 + year) then 29 else 28)
    else if mon == 3 || mon == 5 || mon == 8 || mon == 10 then 30
    else 31
  }

  /** Days of the year before a month. */
  function DaysInMonths(year: int, mon: nat): nat
    requires mon <= 12
  {
    if mon == 0 then 0 else DaysInMonths(year, mon - 1) + DaysInMonth(year, mon - 1)
  }

  /** Days from the start of 1970 to the start of a year, negative before 1970. */
  function DaysBeforeYear(year: int): int
    decreases if year >= 70 then year - 70 else 70 - year
  {
    if year == 70 then 0
    else if year > 70 then DaysBeforeYear(year - 1) + DaysInYear(year - 1)
    else DaysBeforeYear(year + 1) - DaysInYear(year)
  }

  function DaysSinceEpoch(year: int, mon: nat, mday: int): int
    requires mon < 12
  {
    DaysBeforeYear(year) + DaysInMonths(year, mon) + mday - 1
  }

  // Where truncation does no harm.

  /** The century leap years before 1900 are missed. */
  predicate LeapRight(year: int) {
    year >= 0 || year % 400 != 100
  }

  /** The truncated number of leap years is right. */
  predicate LeapCountRight(year: int) {
    || year >= 0
    || if year % 100 == 0 then year >= -300 || (year + 300) % 400 == 0
       else year % 4 != 0 <==> year >= -300
  }

  /** In a missed leap year one mistake makes up for the other from March on. */
  predicate CountRight(year: int, mon: nat) {
    if LeapRight(year) then LeapCountRight(year - 1) else mon >= 2
  }

  predicate WeekRight(year: int, mon: nat, mday: int)
    requires mon < 12
  {
    LeapCountRight(PseudoYear(year, mon)) && (WeekSum(year, mon, mday) >= 0 || WeekSum(year, mon, mday) % 7 == 0)
  }

  // Division.

  /** How far truncation is above rounding down. */
  function Up(a: int, b: int): int
    requires b > 0
  {
    if a < 0 && a % b != 0 then 1 else 0
  }

  lemma DivIs(a: int, b: int)
    requires b > 0
    ensures Div(a, b) == a / b + Up(a, b) && Rem(a, b) == a % b - b * Up(a, b)
  {
    if a < 0 {
      var q, r := a / b, a % b;
      assert 0 - a == b * (0 - q) - r;
      if r == 0 {
        Bits.ModUnique(0 - a, b, 0 - q, 0);
      } else {
        assert b * (0 - q) - r == b * (0 - q - 1) + (b - r);
        Bits.ModUnique(0 - a, b, 0 - q - 1, b - r);
      }
    }
  }

  // Leap years.

  /** Remainders of a year depend on its place in the cycle of 400 years. */
  lemma Cycle(year: int, r: int)
    requires r == year % 400
    ensures year % 4 == r % 4 && year % 100 == r % 100
    ensures (1900 + year) % 4 == r % 4 && (1900 + year) % 100 == r % 100
    ensures (1900 + year) % 400 == (300 + r) % 400 == (year + 300) % 400
  {
    var q := year / 400;
    Shift4(100 * q, r);
    Shift4(100 * q + 475, r);
    Shift100(4 * q, r);
    Shift100(4 * q + 19, r);
    Shift400(q, 300 + r);
    Shift400(q + 4, 300 + r);
  }

  lemma Shift4(x: int, r: int)
    ensures (4 * x + r) % 4 == r % 4
  {
  }

  lemma Shift100(x: int, r: int)
    ensures (100 * x + r) % 100 == r % 100
  {
  }

  lemma Shift400(x: int, r: int)
    ensures (400 * x + r) % 400 == r % 400
  {
  }

  /** The code knows the leap years, but for the century ones before 1900, which it takes for common years. */
  lemma LeapExact(year: int)
    ensures IsLeapYear(year) == Leap(1900 + year) <==> LeapRight(year)
    ensures !LeapRight(year) ==> Leap(1900 + year)
  {
    var r := year % 400;
    Cycle(year, r);
    Remainders(year);
    assert Leap(1900 + year) <==> r % 4 == 0 && (r % 100 != 0 || r == 100);
  }

  lemma Remainders(year: int)
    ensures IsLeapYear(year) <==> (year >= 0 && year % 400 == 100) || (year % 100 != 0 && year % 4 == 0)
  {
    DivIs(year, 400);
    DivIs(year, 100);
    DivIs(year, 4);
    Cycle(year, year % 400);
  }

  /** The number of leap years from 1900 on, negative before. */
  function LeapYears(year: int): int {
    year / 4 - year / 100 + (year + 300) / 400
  }

  lemma TruncError(year: int)
    ensures LeapYearsToEnd(year) - LeapYears(year) == Up(year, 4) - Up(year, 100) + Up(year + 300, 400)
  {
    DivIs(year, 4);
    DivIs(year, 100);
    DivIs(year + 300, 400);
  }

  /** A multiple of 100 is one of 4, and one of 400 after 300 is one of 100. */
  lemma Multiples(year: int)
    ensures year % 100 == 0 ==> year % 4 == 0
    ensures (year + 300) % 400 == 0 ==> year % 100 == 0
    ensures (year + 1) % 400 == 100 ==> year % 4 != 0 && year % 100 != 0
  {
    Cycle(year, year % 400);
  }

  /** The code computes it exactly where truncation does no harm; it is too high by one in a missed leap year. */
  lemma LeapCountExact(year: int)
    ensures LeapYearsToEnd(year) == LeapYears(year) <==> LeapCountRight(year)
    ensures !LeapRight(year + 1) ==> LeapYearsToEnd(year) == LeapYears(year) + 1
    ensures -1 <= LeapYearsToEnd(year) - LeapYears(year) <= 1
  {
    TruncError(year);
    Multiples(year);
  }

  // Quotients grow by one at multiples.

  lemma Next4(n: int)
    ensures n / 4 == (n - 1) / 4 + if n % 4 == 0 then 1 else 0
  {
  }

  lemma Next100(n: int)
    ensures n / 100 == (n - 1) / 100 + if n % 100 == 0 then 1 else 0
  {
  }

  lemma Next400(n: int)
    ensures n / 400 == (n - 1) / 400 + if n % 400 == 0 then 1 else 0
  {
  }

  /** The number of leap years counts each leap year once. */
  lemma LeapCount(year: int)
    ensures LeapYears(year) == LeapYears(year - 1) + if Leap(1900 + year) then 1 else 0
  {
    Next4(year);
    Next100(year);
    Next400(year + 300);
    LeapIs(year);
    Multiples(year);
  }

  lemma LeapIs(year: int)
    ensures Leap(1900 + year) <==> year % 4 == 0 && (year % 100 != 0 || (year + 300) % 400 == 0)
  {
    Cycle(year, year % 400);
  }

  // The code agrees with the count.

  lemma {:induction false} YearStarts(year: int)
    ensures DaysBeforeYear(year) == 365 * year - 25567 + LeapYears(year - 1)
    decreases if year >= 70 then year - 70 else 70 - year
  {
    if year > 70 {
      YearStarts(year - 1);
      LeapCount(year - 1);
    } else if year < 70 {
      YearStarts(year + 1);
      LeapCount(year);
    }
  }

  lemma MonthStarts(year: int, mon: nat)
    requires mon < 12
    ensures DaysInMonths(year, mon) == MONTH_START[mon] + if mon >= 2 && Leap(1900 + year) then 1 else 0
  {
    assert DaysInMonths(year, 0) == 0;
    assert DaysInMonths(year, 1) == 31;
    var f := DaysInMonth(year, 1);
    assert DaysInMonths(year, 2) == 31 + f;
    assert DaysInMonths(year, 3) == 62 + f;
    assert DaysInMonths(year, 4) == 92 + f;
    assert DaysInMonths(year, 5) == 123 + f;
    assert DaysInMonths(year, 6) == 153 + f;
    assert DaysInMonths(year, 7) == 184 + f;
    assert DaysInMonths(year, 8) == 215 + f;
    assert DaysInMonths(year, 9) == 245 + f;
    assert DaysInMonths(year, 10) == 276 + f;
    assert DaysInMonths(year, 11) == 306 + f;
  }

  /** The day count of mktime() is right exactly where its mistakes, if any, cancel out. */
  lemma CountExact(year: int, mon: nat, mday: int)
    requires mon < 12
    ensures var yday := mday - 1 + MONTH_START[mon] + if mon >= 2 && IsLeapYear(year) then 1 else 0;
            yday + 365 * year - 25567 + LeapYearsToEnd(year - 1) == DaysSinceEpoch(year, mon, mday) <==> CountRight(year, mon)
  {
    YearStarts(year);
    MonthStarts(year, mon);
    LeapExact(year);
    LeapCountExact(year - 1);
  }

  /** The Epoch was a Thursday, and the days of the week go round: right exactly if the sum is, and is not negative. */
  lemma WeekDay(year: int, mon: nat, mday: int)
    requires mon < 12
    ensures DayOfWeek(year, mon, mday) == (DaysSinceEpoch(year, mon, mday) + 4) % 7 <==> WeekRight(year, mon, mday)
  {
    var y := PseudoYear(year, mon);
    var a := WeekSum(year, mon, mday);
    var d := LeapYearsToEnd(y) - LeapYears(y);
    var b := DaysSinceEpoch(year, mon, mday) + 4;
    LeapCountExact(y);
    WeekTrue(year, mon, mday, a - d);
    DivIs(a, 7);
    NearSeven(a, d, b % 7);
  }

  /** The sum with the right number of leap years. */
  lemma WeekTrue(year: int, mon: nat, mday: int, a: int)
    requires mon < 12
    requires var y := PseudoYear(year, mon); a == y + LeapYears(y) + OFFSET[mon] + mday
    ensures a % 7 == (DaysSinceEpoch(year, mon, mday) + 4) % 7
  {
    YearStarts(year);
    MonthStarts(year, mon);
    LeapCount(year);
    var b := DaysSinceEpoch(year, mon, mday) + 4;
    var w := Weeks(mon);
    assert b - a == 7 * (52 * year - 3652 + w);
    Congruent(a, b, 52 * year - 3652 + w);
  }

  /** A remainder that may be negative, of a number that may be off by one. */
  lemma NearSeven(a: int, d: int, w: int)
    requires -1 <= d <= 1 && w == (a - d) % 7
    ensures a % 7 - (if a < 0 && a % 7 != 0 then 7 else 0) == w <==> d == 0 && (a >= 0 || a % 7 == 0)
  {
  }

  /** The months' offsets are their starts in weeks, less the days over. */
  lemma Weeks(mon: nat) returns (w: int)
    requires mon < 12
    ensures MONTH_START[mon] - OFFSET[mon] + (if mon < 2 then 1 else 0) == 7 * w
  {
    w := [0, 4, 8, 12, 17, 21, 25, 30, 34, 39, 43, 47][mon];
  }

  lemma Congruent(a: int, b: int, k: int)
    requires b - a == 7 * k
    ensures a % 7 == b % 7
  {
    assert b == a + 7 * k;
  }

  /**
    In the year after every leap year from 1604 to 1896 the number of leap years before is
    truncated, and the count is a day short.
   */
  lemma DayLost(year: int)
    requires -300 < year - 1 < 0 && (year - 1) % 4 == 0 && (year - 1) % 100 != 0
    ensures !CountRight(year, 0)
    ensures MONTH_START[0] + 365 * year - 25567 + LeapYearsToEnd(year - 1) == DaysSinceEpoch(year, 0, 1) - 1
  {
    YearStarts(year);
    TruncError(year - 1);
    Multiples(year - 1);
  }

  /** From 1900 on nothing goes wrong. */
  lemma Since1900(year: int, mon: nat, mday: int)
    requires mon < 12
    ensures year >= 0 ==> CountRight(year, mon)
    ensures year >= 0 && mday >= 1 ==> WeekRight(year, mon, mday)
  {
    assert OFFSET[mon] >= 0;
    if year == 0 && mon < 2 {
      assert OFFSET[mon] >= 1;
    }
  }
}
