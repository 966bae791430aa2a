/** Seconds since the epoch and calendar dates, include/kernel/time.h. */
module Calendar {
  import opened Base

  // ----- the Gregorian calendar -----

  predicate Leap(y: nat) { y % 4 == 0 && (y % 100 != 0 || y % 400 == 0) }

  function YearDays(y: nat): nat { if Leap(y) then 366 else 365 }

  /** Days of month `m`, counted from 0, of year `y`. */
  function MonthDays(y: nat, m: nat): nat {
    if m == 1 then (if Leap(y) then 29 else 28)
    else if m == 3 || m == 5 || m == 8 || m == 10 then 30
    else 31
  }

  /** Days from 1 January 1970 to 1 January of year `y`: the lengths of the years between. */
  function YearStart(y: nat): nat { if y <= 1970 then 0 else YearStart(y - 1) + YearDays(y - 1) }

  /** Days of year `y` before month `m`. */
  function MonthStart(y: nat, m: nat): nat { if m == 0 then 0 else MonthStart(y, m - 1) + MonthDays(y, m - 1) }

  lemma YearMonths(y: nat)
    ensures MonthStart(y, 12) == YearDays(y)
  {
    var leap := if Leap(y) then 1 else 0;
    assert MonthStart(y, 1) == 31;
    assert MonthStart(y, 2) == 59 + leap;
    assert MonthStart(y, 3) == 90 + leap;
    assert MonthStart(y, 4) == 120 + leap;
    assert MonthStart(y, 5) == 151 + leap;
    assert MonthStart(y, 6) == 181 + leap;
    assert MonthStart(y, 7) == 212 + leap;
    assert MonthStart(y, 8) == 243 + leap;
    assert MonthStart(y, 9) == 273 + leap;
    assert MonthStart(y, 10) == 304 + leap;
    assert MonthStart(y, 11) == 334 + leap;
  }

  lemma {:induction false} YearsGrow(y: nat, z: nat)
    requires 1970 <= y < z
    ensures YearStart(y) < YearStart(z)
    decreases z
  {
    if y + 1 < z {
      YearsGrow(y, z - 1);
    }
  }

  lemma {:induction false} MonthsGrow(y: nat, m: nat, n: nat)
    requires m < n
    ensures MonthStart(y, m) < MonthStart(y, n)
    decreases n
  {
    if m + 1 < n {
      MonthsGrow(y, m, n - 1);
    }
  }

  /** Day `d` falls in year `y`, month `m`, after `k` days of the month. */
  ghost predicate Falls(d: nat, y: nat, m: nat, k: nat) {
    1970 <= y && m < 12 && k < MonthDays(y, m) && d == YearStart(y) + MonthStart(y, m) + k
  }

  lemma InYear(d: nat, y: nat, m: nat, k: nat)
    requires Falls(d, y, m, k)
    ensures YearStart(y) <= d < YearStart(y + 1)
  {
    YearMonths(y);
    if m + 1 < 12 {
      MonthsGrow(y, m + 1, 12);
    }
  }

  /** Every day falls on one date only. */
  lemma FallsOnce(d: nat, y: nat, m: nat, k: nat, y': nat, m': nat, k': nat)
    requires Falls(d, y, m, k) && Falls(d, y', m', k')
    ensures y == y' && m == m' && k == k'
  {
    hide YearDays, MonthDays, Leap;
    InYear(d, y, m, k);
    InYear(d, y', m', k');
    if y + 1 < y' {
      YearsGrow(y + 1, y');
    } else if y' + 1 < y {
      YearsGrow(y' + 1, y);
    }
    if m + 1 < m' {
      MonthsGrow(y, m + 1, m');
    } else if m' + 1 < m {
      MonthsGrow(y, m' + 1, m);
    }
  }

  // ----- from a date to seconds -----

  datatype Tm = Tm(sec: int, min: int, hour: int, mday: int, mon: int, year: int, wday: int, yday: int)

  /** Division as in C, toward zero. */
  function Quotient(a: int, b: nat): int
    requires b > 0
  { if a >= 0 then a / b else -((-a) / b) }

  /** The days that tm2posix counts for a year, with its sums taken as `int`. */
  function CountedDays(year: int): int {
    ToInt(year - 70) * 365 + Quotient(ToInt(year - 69), 4) - Quotient(ToInt(year - 1), 100)
    + Quotient(ToInt(year + 299), 400)
  }

  /** The terms of tm2posix before their sum is taken in 64 bits. */
  function Seconds(tm: Tm): int {
    tm.sec + tm.min * 60 + tm.hour * 3600 + (tm.yday + CountedDays(tm.year)) * 86400
  }

  /** tm2posix. */
  function ToPosix(tm: Tm): int { Seconds(tm) % U64 }

  lemma Fourths(y: nat)
    requires y >= 1970
    ensures (y + 1 - 1969) / 4 == (y - 1969) / 4 + if y % 4 == 0 then 1 else 0
  {
  }

  lemma Hundredths(y: nat)
    requires y >= 1970
    ensures (y + 1 - 1901) / 100 == (y - 1901) / 100 + if y % 100 == 0 then 1 else 0
  {
    Carry(y - 1901, 100, y, 19);
  }

  /** A quotient goes up by one just when the number it is of gets to a multiple. */
  lemma Carry(x: nat, a: nat, y: nat, k: nat)
    requires a > 1 && y == x + 1 + a * k
    ensures (x + 1) / a == x / a + if y % a == 0 then 1 else 0
  {
    var q, r := x / a, x % a;
    assert x == a * q + r;
    if r + 1 == a {
      assert a * (q + 1) == a * q + a && a * (q + 1 + k) == a * q + a + a * k;
      ModUnique(x + 1, a, q + 1, 0);
      ModUnique(y, a, q + 1 + k, 0);
    } else {
      assert a * (q + k) == a * q + a * k;
      ModUnique(x + 1, a, q, r + 1);
      ModUnique(y, a, q + k, r + 1);
    }
  }

  lemma FourHundredths(y: nat)
    requires y >= 1970
    ensures (y + 1 - 1601) / 400 == (y - 1601) / 400 + if y % 400 == 0 then 1 else 0
  {
    Carry(y - 1601, 400, y, 4);
  }

  lemma FourHundred(y: nat)
    ensures y % 400 == 0 ==> y % 100 == 0
  {
    if y % 400 == 0 {
      ModUnique(y, 100, 4 * (y / 400), 0);
    }
  }

  lemma Hundred(y: nat)
    ensures y % 100 == 0 ==> y % 4 == 0
  {
    if y % 100 == 0 {
      ModUnique(y, 4, 25 * (y / 100), 0);
    }
  }

  lemma LeapCount(y: nat)
    ensures (if y % 4 == 0 then 1 else 0) - (if y % 100 == 0 then 1 else 0) + (if y % 400 == 0 then 1 else 0) ==
      if Leap(y) then 1 else 0
  {
    FourHundred(y);
    Hundred(y);
  }

  ghost function Formula(y: nat): int
    requires y >= 1970
  { (y - 1970) * 365 + (y - 1969) / 4 - (y - 1901) / 100 + (y - 1601) / 400 }

  lemma FormulaStep(y: nat)
    requires y >= 1970
    ensures Formula(y + 1) == Formula(y) + YearDays(y)
  {
    Fourths(y);
    Hundredths(y);
    FourHundredths(y);
    LeapCount(y);
  }

  lemma {:induction false} YearFormula(y: nat)
    requires y >= 1970
    ensures YearStart(y) == Formula(y)
  {
    hide YearDays;
    if y > 1970 {
      YearFormula(y - 1);
      FormulaStep(y - 1);
    }
  }

  /** How many days tm2posix counts too few for the year 1900 + `n`. */
  ghost function Lost(n: int): int
    requires n >= 70
  { YearStart(n + 1900) - CountedDays(ToInt(n)) }

  /** The `int` of a year past the last, beside the year itself. */
  lemma Behind(x: int)
    ensures ToInt(x) <= INT_MAX && ToInt(x) >= -0x8000_0000 && (x - ToInt(x)) % 0x1_0000_0000 == 0
    ensures x <= INT_MAX && x >= 0 ==> ToInt(x) == x
    ensures x > INT_MAX ==> x - ToInt(x) >= 0x1_0000_0000
  {
  }

  /** Years in range: nothing is lost. */
  lemma NothingLost(n: int)
    requires 70 <= n <= INT_MAX - 299
    ensures Lost(n) == 0
  {
    hide YearStart, Quotient, ToInt;
    YearFormula(n + 1900);
    SmallInt(n);
    SmallInt(n - 70);
    SmallInt(n - 69);
    SmallInt(n - 1);
    SmallInt(n + 299);
    Plain(n);
  }

  lemma Plain(n: int)
    requires n >= 70
    ensures Quotient(n - 69, 4) == (n - 69) / 4 && Quotient(n - 1, 100) == (n - 1) / 100
    ensures Quotient(n + 299, 400) == (n + 299) / 400
  {
  }

  /** A quotient is at most that of the greatest `int`, and near its argument over the divisor. */
  lemma QuotientRange(x: int, b: nat)
    requires b > 0
    ensures b * Quotient(x, b) <= x + b && x - b <= b * Quotient(x, b)
  {
    if x >= 0 {
      assert b * (x / b) <= x < b * (x / b) + b;
    } else {
      assert b * ((-x) / b) <= -x < b * ((-x) / b) + b;
      assert b * -((-x) / b) == -(b * ((-x) / b));
    }
  }

  lemma LostTerms(n: int)
    requires n >= 70
    ensures Lost(n) == 365 * (n - 70 - ToInt(n - 70)) + ((n - 69) / 4 - Quotient(ToInt(n - 69), 4))
      - ((n - 1) / 100 - Quotient(ToInt(n - 1), 100)) + ((n + 299) / 400 - Quotient(ToInt(n + 299), 400))
  {
    hide YearStart, Quotient, ToInt;
    YearFormula(n + 1900);
    IntSum(n, -70);
    IntSum(n, -69);
    IntSum(n, -1);
    IntSum(n, 299);
  }

  /** The last years of an `int`, whose sum with 299 overflows. */
  lemma LastYears(n: int)
    requires INT_MAX - 299 < n <= INT_MAX
    ensures Lost(n) > 1000
  {
    hide YearStart, Quotient, ToInt, CountedDays, Lost;
    LostTerms(n);
    SmallInt(n - 70);
    SmallInt(n - 69);
    SmallInt(n - 1);
    Behind(n + 299);
    Plain(n);
    QuotientRange(ToInt(n + 299), 400);
  }

  /** Later years, whose `int` is some other year. */
  lemma LateYears(n: int)
    requires n > INT_MAX
    ensures Lost(n) < -1000 || Lost(n) > 1000
  {
    hide YearStart, Quotient, ToInt, CountedDays, Lost;
    if n - 70 <= INT_MAX {
      JustPast(n);
    } else {
      LostTerms(n);
      Behind(n - 70);
      Behind(n - 69);
      Behind(n - 1);
      Behind(n + 299);
      QuotientRange(ToInt(n - 69), 4);
      QuotientRange(ToInt(n - 1), 100);
      QuotientRange(ToInt(n + 299), 400);
    }
  }

  /** The first years past the last: the difference of 70 is an `int` again. */
  lemma JustPast(n: int)
    requires INT_MAX < n <= INT_MAX + 70
    ensures Lost(n) < -1000 || Lost(n) > 1000
  {
    hide YearStart, Quotient, ToInt, CountedDays, Lost;
    LostTerms(n);
    SmallInt(n - 70);
    if n - 69 <= INT_MAX {
      SmallInt(n - 69);
    } else {
      IntOf(n - 69, n - 69 - 0x1_0000_0000);
    }
    if n - 1 <= INT_MAX {
      SmallInt(n - 1);
    } else {
      IntOf(n - 1, n - 1 - 0x1_0000_0000);
    }
    IntOf(n + 299, n + 299 - 0x1_0000_0000);
    QuotientRange(ToInt(n - 69), 4);
    QuotientRange(ToInt(n - 1), 100);
    QuotientRange(ToInt(n + 299), 400);
  }

  /** tm2posix counts the true lengths of the years up to the last but 299 that an `int` holds, and
      for no later year. */
  lemma LostIff(n: int)
    requires n >= 70
    ensures n <= INT_MAX - 299 ==> Lost(n) == 0
    ensures n > INT_MAX - 299 ==> Lost(n) < -1000 || Lost(n) > 1000
  {
    hide Lost;
    if n <= INT_MAX - 299 {
      NothingLost(n);
    } else if n <= INT_MAX {
      LastYears(n);
    } else {
      LateYears(n);
    }
  }

  // ----- from seconds to a date -----

  /** The first loop: whole years from 1970 on are taken off the days. */
  method TakeYears(days0: nat) returns (year: nat, days: nat)
    ensures year >= 1970 && YearStart(year) + days == days0 && days < YearDays(year)
  {
    year, days := 1970, days0;
    while days >= 365
      invariant year >= 1970 && YearStart(year) + days == days0
      decreases days
    {
      if Leap(year) {
        if days >= 366 {
          days := days - 366;
        } else {
          break;
        }
      } else {
        days := days - 365;
      }
      year := year + 1;
    }
  }

  /** The second loop: whole months are taken off the days. */
  method TakeMonths(year: nat, days0: nat) returns (month: nat, days: nat, monthDays: nat)
    requires days0 < YearDays(year)
    ensures month < 12 && days < MonthDays(year, month)
    ensures monthDays == MonthStart(year, month) && monthDays + days == days0
  {
    hide YearDays, Leap;
    month, days, monthDays := 0, days0, 0;
    YearMonths(year);
    MonthEnds(year);
    while days >= 28
      invariant month < 12 && monthDays == MonthStart(year, month) && monthDays + days == days0
      decreases days
    {
      if month == 1 {
        if Leap(year) {
          if days >= 29 {
            days, monthDays := days - 29, monthDays + 29;
          } else {
            break;
          }
        } else {
          if days >= 28 {
            days, monthDays := days - 28, monthDays + 28;
          } else {
            break;
          }
        }
      } else if month == 3 || month == 5 || month == 8 || month == 10 {
        if days >= 30 {
          days, monthDays := days - 30, monthDays + 30;
        } else {
          break;
        }
      } else {
        if days >= 31 {
          days, monthDays := days - 31, monthDays + 31;
        } else {
          break;
        }
      }
      month := month + 1;
    }
  }

  lemma MonthEnds(y: nat)
    ensures MonthStart(y, 12) == MonthStart(y, 11) + MonthDays(y, 11)
  {
  }

  /** posix2tm.  The date it finds is right, as far as an `int` holds the year; but what it stores as
      the day of the year is the day of the month, counted from 0, and what it stores as the day of
      the month is short by the days of the months before. */
  method FromPosix(epoch: nat) returns (tm: Tm, ghost year: nat)
    ensures Dated(epoch, year, tm)
    ensures tm.mday == tm.yday - MonthStart(year, tm.mon) + 1
    ensures 0 <= tm.sec < 60 && 0 <= tm.min < 60 && 0 <= tm.hour < 24
    ensures tm.wday == (epoch / 86400 + 4) % 7
  {
    hide YearStart, MonthStart, MonthDays, YearDays, Leap, ToInt;
    var days, rem: nat := epoch / 86400, epoch % 86400;
    var y;
    y, days := TakeYears(days);
    year := y;
    var month, monthDays;
    month, days, monthDays := TakeMonths(y, days);
    SmallInts(y, month, days);
    Clock(rem);
    tm := Tm(ToInt(rem % 60), ToInt(rem / 60 % 60), ToInt(rem / 3600 % 24), ToInt(days - monthDays + 1),
             ToInt(month), ToInt(y - 1900), ToInt((epoch / 86400 + 4) % 7), ToInt(days));
  }

  /** The fields of a date and time, as posix2tm leaves them. */
  ghost predicate Dated(epoch: nat, year: nat, tm: Tm) {
    && year >= 1970 && tm.year == ToInt(year - 1900) && 0 <= tm.mon < 12 && tm.yday >= 0
    && Falls(epoch / 86400, year, tm.mon, tm.yday)
    && tm.hour * 3600 + tm.min * 60 + tm.sec == epoch % 86400
  }

  lemma Clock(rem: nat)
    requires rem < 86400
    ensures rem / 3600 % 24 * 3600 + rem / 60 % 60 * 60 + rem % 60 == rem
    ensures rem / 3600 % 24 < 24 && rem / 60 % 60 < 60
  {
    assert rem / 3600 == rem / 60 / 60;
  }

  lemma SmallInts(year: nat, month: nat, days: nat)
    requires month < 12 && days < MonthDays(year, month)
    ensures days < 366 && MonthStart(year, month) < 366
    ensures forall x :: -400 <= x < 400 ==> ToInt(x) == x
  {
    YearMonths(year);
    MonthsGrow(year, month, 12);
  }

  /** Seconds that differ by whole days are the same in 64 bits only when they are the same. */
  lemma SameSeconds(e: int, v: int)
    requires 0 <= e < U64 && -0x1000_0000_0000_0000 < v < 0x1000_0000_0000_0000 && (e - v) % 86400 == 0
    ensures v % U64 == e <==> v == e
  {
    var m := v / U64;
    assert v == U64 * m + v % U64 && -1 <= m <= 0;
    assert U64 % 86400 != 0;
  }

  lemma CountedRange(year: int)
    ensures -0x100_0000_0000 < CountedDays(year) < 0x100_0000_0000
  {
    hide Quotient, ToInt;
    Behind(year - 70);
    Behind(year - 69);
    Behind(year - 1);
    Behind(year + 299);
    QuotientRange(ToInt(year - 69), 4);
    QuotientRange(ToInt(year - 1), 100);
    QuotientRange(ToInt(year + 299), 400);
  }

  /** The seconds come back exactly when no day is lost. */
  lemma BackIff(epoch: nat, year: nat, tm: Tm, extra: nat)
    requires Dated(epoch, year, tm) && epoch < U64 && extra < 400
    ensures ToPosix(tm.(yday := tm.yday + extra)) == epoch <==> Lost(year - 1900) + MonthStart(year, tm.mon) == extra
  {
    hide YearStart, CountedDays, MonthDays, MonthStart, ToInt;
    CountedRange(tm.year);
    MonthBound(year, tm.mon, tm.yday);
    var v, days := Seconds(tm.(yday := tm.yday + extra)), Lost(year - 1900) + MonthStart(year, tm.mon) - extra;
    assert epoch == epoch / 86400 * 86400 + epoch % 86400;
    assert epoch - v == days * 86400;
    SameSeconds(epoch, v);
  }

  lemma MonthBound(year: nat, m: nat, k: nat)
    requires m < 12 && k < MonthDays(year, m)
    ensures k < 31 && MonthStart(year, m) < 366 && (MonthStart(year, m) == 0 <==> m == 0)
    ensures m == 0 <==> MonthStart(year, m) + k < 31
  {
    YearMonths(year);
    MonthsGrow(year, m, 12);
    assert MonthStart(year, 1) == 31;
    if m > 0 {
      MonthsGrow(year, 0, m);
    }
    if m > 1 {
      MonthsGrow(year, 1, m);
    }
  }

  /** With the days of the earlier months added back, the seconds come back exactly up to the last
      but 299 years that an `int` holds. */
  lemma RoundTrip(epoch: nat, year: nat, tm: Tm)
    requires Dated(epoch, year, tm) && epoch < U64
    ensures ToPosix(tm.(yday := tm.yday + MonthStart(year, tm.mon))) == epoch <==> year - 1900 <= INT_MAX - 299
  {
    hide YearStart, MonthDays, MonthStart, ToInt, ToPosix, Lost;
    MonthBound(year, tm.mon, tm.yday);
    BackIff(epoch, year, tm, MonthStart(year, tm.mon));
    LostIff(year - 1900);
  }

  /** As they stand, the fields give the seconds back exactly in January of those years. */
  lemma NaiveRoundTrip(epoch: nat, year: nat, tm: Tm)
    requires Dated(epoch, year, tm) && epoch < U64
    ensures ToPosix(tm) == epoch <==> tm.mon == 0 && year - 1900 <= INT_MAX - 299
    ensures tm.mon == 0 <==> epoch / 86400 < YearStart(year) + 31
    ensures tm.yday == epoch / 86400 - YearStart(year) <==> tm.mon == 0
  {
    hide YearStart, MonthDays, MonthStart, ToInt, ToPosix, Lost;
    MonthBound(year, tm.mon, tm.yday);
    BackIff(epoch, year, tm, 0);
    LostIff(year - 1900);
    assert tm.(yday := tm.yday + 0) == tm;
  }

  /** The first second of February 1970 does not come back. */
  lemma FebruaryFails()
    ensures
      var tm := Tm(0, 0, 0, -30, 1, 70, 0, 0);
      Dated(31 * 86400, 1970, tm) && tm.mday == tm.yday - MonthStart(1970, 1) + 1 && ToPosix(tm) != 31 * 86400
  {
    assert MonthStart(1970, 1) == 31;
    NaiveRoundTrip(31 * 86400, 1970, Tm(0, 0, 0, -30, 1, 70, 0, 0));
  }
}
