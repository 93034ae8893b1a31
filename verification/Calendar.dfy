/** The proleptic Gregorian calendar on day numbers: day 0 is Monday, 1 January 1.
    Months are counted from January of year 0. */
module Calendar {

  // ---------- quotients and remainders ----------

  lemma AtLeastOnce(f: int, d: int)
    requires f >= 1 && d >= 1
    ensures f * d >= f
  {
    assert f * (d - 1) >= 0;
  }

  lemma ModOf(q: int, r: int, f: int)
    requires 0 <= r < f
    ensures (f * q + r) % f == r && (f * q + r) / f == q
  {
    var x := f * q + r;
    var d := q - x / f;
    assert f * d == x % f - r;
    if d >= 1 {
      AtLeastOnce(f, d);
    } else if d <= -1 {
      AtLeastOnce(f, -d);
    }
  }

  lemma Residue(x: int, c: int, d: int)
    requires c >= 1 && d >= 1
    ensures x % c == (x % (c * d)) % c
  {
    var q, r := x / (c * d), x % (c * d);
    assert x == c * (d * q + r / c) + r % c;
    ModOf(d * q + r / c, r % c, c);
  }

  lemma ModPeriod(x: int, c: int, k: int)
    requires c >= 1
    ensures (x + c * k) % c == x % c && (x + c * k) / c == x / c + k
  {
    assert x + c * k == c * (x / c + k) + x % c;
    ModOf(x / c + k, x % c, c);
  }

  // ---------- months and dates ----------

  predicate Leap(y: int) {
    y % 4 == 0 && (y % 100 != 0 || y % 400 == 0)
  }

  function DaysInMonth(y: int, m: int): (n: int)
    ensures 28 <= n <= 31
  {
    if m == 2 then (if Leap(y) then 29 else 28)
    else if m == 4 || m == 6 || m == 9 || m == 11 then 30
    else 31
  }

  predicate ValidDate(y: int, m: int, d: int) {
    1 <= m <= 12 && 1 <= d <= DaysInMonth(y, m)
  }

  function MonthIndex(y: int, m: int): int { 12 * y + m - 1 }
  function YearOfMonth(k: int): int { k / 12 }
  function MonthInYear(k: int): (m: int)
    ensures 1 <= m <= 12
  {
    k % 12 + 1
  }

  function MonthLength(k: int): (n: int)
    ensures 28 <= n <= 31
  {
    DaysInMonth(YearOfMonth(k), MonthInYear(k))
  }

  /** Day number of the first of month k: month lengths added up from 1 January 1,
      which is month 12. */
  function MonthStart(k: int): int
    decreases if k < 12 then 12 - k else k - 12
  {
    if k == 12 then 0
    else if k < 12 then MonthStart(k + 1) - MonthLength(k)
    else MonthStart(k - 1) + MonthLength(k - 1)
  }

  lemma NextMonth(k: int)
    ensures MonthStart(k + 1) == MonthStart(k) + MonthLength(k)
  {
  }

  lemma {:induction false} MonthsIncrease(j: int, k: int)
    requires j <= k
    ensures MonthStart(j) + 28 * (k - j) <= MonthStart(k)
    decreases k - j
  {
    if j == k {
    } else {
      MonthsIncrease(j, k - 1);
      NextMonth(k - 1);
    }
  }

  // ---------- the date of a day number ----------

  function MonthFrom(n: int, k: int): (r: int)
    requires MonthStart(k) <= n
    ensures MonthStart(r) <= n < MonthStart(r + 1)
    decreases n - MonthStart(k)
  {
    NextMonth(k);
    if n < MonthStart(k + 1) then k else MonthFrom(n, k + 1)
  }

  function MonthDown(n: int, k: int): (r: int)
    requires n < MonthStart(k)
    ensures MonthStart(r) <= n < MonthStart(r + 1)
    decreases MonthStart(k) - n
  {
    NextMonth(k - 1);
    if MonthStart(k - 1) <= n then k - 1 else MonthDown(n, k - 1)
  }

  /** The month day n lies in. */
  function MonthOf(n: int): (r: int)
    ensures MonthStart(r) <= n < MonthStart(r + 1)
  {
    if MonthStart(12) <= n then MonthFrom(n, 12) else MonthDown(n, 12)
  }

  function Year(n: int): int { YearOfMonth(MonthOf(n)) }

  function Month(n: int): (m: int)
    ensures 1 <= m <= 12
  {
    MonthInYear(MonthOf(n))
  }

  function Day(n: int): (d: int)
    ensures 1 <= d <= MonthLength(MonthOf(n))
  {
    NextMonth(MonthOf(n));
    n - MonthStart(MonthOf(n)) + 1
  }

  function DayNumber(y: int, m: int, d: int): int {
    MonthStart(MonthIndex(y, m)) + d - 1
  }

  /** Monday is 1, Sunday 7. */
  function DayOfWeek(n: int): int { n % 7 + 1 }

  lemma MonthOfUnique(n: int, k: int)
    requires MonthStart(k) <= n < MonthStart(k) + MonthLength(k)
    ensures MonthOf(n) == k
  {
    NextMonth(k);
    var j := MonthOf(n);
    if j < k {
      MonthsIncrease(j + 1, k);
    } else if k < j {
      MonthsIncrease(k + 1, j);
    }
  }

  lemma SplitMonth(y: int, m: int)
    requires 1 <= m <= 12
    ensures YearOfMonth(MonthIndex(y, m)) == y && MonthInYear(MonthIndex(y, m)) == m
    ensures MonthLength(MonthIndex(y, m)) == DaysInMonth(y, m)
  {
  }

  /** Date and day number determine each other. */
  lemma DateOfDayNumber(y: int, m: int, d: int)
    requires ValidDate(y, m, d)
    ensures var n := DayNumber(y, m, d); MonthOf(n) == MonthIndex(y, m) && Day(n) == d
    ensures Year(DayNumber(y, m, d)) == y && Month(DayNumber(y, m, d)) == m
  {
    SplitMonth(y, m);
    MonthOfUnique(DayNumber(y, m, d), MonthIndex(y, m));
  }

  lemma DayNumberOfDate(n: int)
    ensures ValidDate(Year(n), Month(n), Day(n)) && DayNumber(Year(n), Month(n), Day(n)) == n
  {
    JoinMonth(MonthOf(n));
  }

  lemma JoinMonth(k: int)
    ensures MonthIndex(YearOfMonth(k), MonthInYear(k)) == k
  {
  }

  /** Later days are in no earlier month. */
  lemma MonthOfMonotone(a: int, b: int)
    requires a <= b
    ensures MonthOf(a) <= MonthOf(b)
  {
    if MonthOf(b) < MonthOf(a) {
      MonthsIncrease(MonthOf(b) + 1, MonthOf(a));
    }
  }

  // ---------- years in closed form, and the 400-year period ----------

  /** Day number of 1 January of year y. */
  function YearStart(y: int): int {
    365 * (y - 1) + (y - 1) / 4 - (y - 1) / 100 + (y - 1) / 400
  }

  lemma Floors(x: int)
    ensures (x + 1) / 4 == x / 4 + (if (x + 1) % 4 == 0 then 1 else 0)
  {
  }

  lemma Floors100(x: int)
    ensures (x + 1) / 100 == x / 100 + (if (x + 1) % 100 == 0 then 1 else 0)
  {
  }

  lemma Floors400(x: int)
    ensures (x + 1) / 400 == x / 400 + (if (x + 1) % 400 == 0 then 1 else 0)
  {
  }

  lemma Divisors(y: int)
    ensures y % 400 == 0 ==> y % 100 == 0
    ensures y % 100 == 0 ==> y % 4 == 0
  {
    Residue(y, 100, 4);
    Residue(y, 4, 25);
  }

  lemma YearLength(y: int)
    ensures YearStart(y + 1) == YearStart(y) + (if Leap(y) then 366 else 365)
  {
    Floors(y - 1);
    Floors100(y - 1);
    Floors400(y - 1);
    Divisors(y);
  }

  lemma MonthAfter(y: int, m: int)
    requires 1 <= m <= 12
    ensures MonthStart(12 * y + m) == MonthStart(12 * y + m - 1) + DaysInMonth(y, m)
  {
    SplitMonth(y, m);
    NextMonth(12 * y + m - 1);
  }

  lemma FirstHalf(y: int)
    ensures MonthStart(12 * y + 6) == MonthStart(12 * y) + (if Leap(y) then 182 else 181)
  {
    MonthAfter(y, 1);
    MonthAfter(y, 2);
    MonthAfter(y, 3);
    MonthAfter(y, 4);
    MonthAfter(y, 5);
    MonthAfter(y, 6);
  }

  lemma SecondHalf(y: int)
    ensures MonthStart(12 * y + 12) == MonthStart(12 * y + 6) + 184
  {
    MonthAfter(y, 7);
    MonthAfter(y, 8);
    MonthAfter(y, 9);
    MonthAfter(y, 10);
    MonthAfter(y, 11);
    MonthAfter(y, 12);
  }

  lemma TwelveMonths(y: int)
    ensures MonthStart(12 * (y + 1)) == MonthStart(12 * y) + (if Leap(y) then 366 else 365)
  {
    FirstHalf(y);
    SecondHalf(y);
    assert 12 * (y + 1) == 12 * y + 12;
  }

  lemma {:induction false} YearStarts(y: int)
    ensures MonthStart(12 * y) == YearStart(y)
    decreases if y < 1 then 1 - y else y - 1
  {
    if y == 1 {
    } else if y < 1 {
      YearStarts(y + 1);
      TwelveMonths(y);
      YearLength(y);
    } else {
      YearStarts(y - 1);
      TwelveMonths(y - 1);
      YearLength(y - 1);
    }
  }

  lemma NextOffset(y: int, m: int)
    requires 1 <= m < 12
    ensures (367 * (m + 1) - 362) / 12 - (if m < 2 then 0 else if Leap(y) then 1 else 2)
            == (367 * m - 362) / 12 - (if m <= 2 then 0 else if Leap(y) then 1 else 2) + DaysInMonth(y, m)
  {
    match m
    case 1 => case 2 => case 3 => case 4 => case 5 => case 6 =>
    case 7 => case 8 => case 9 => case 10 => case 11 =>
  }

  lemma NextMonthStarts(y: int, m: int, start: int)
    requires 1 <= m < 12 && start == MonthStart(12 * y + m - 1)
    requires start - YearStart(y) == (367 * m - 362) / 12 - (if m <= 2 then 0 else if Leap(y) then 1 else 2)
    ensures MonthStart(12 * y + m) - YearStart(y)
            == (367 * (m + 1) - 362) / 12 - (if m < 2 then 0 else if Leap(y) then 1 else 2)
  {
    MonthAfter(y, m);
    NextOffset(y, m);
  }

  /** Where every month starts, in closed form. */
  lemma {:induction false} MonthStartsAt(y: int, m: int)
    requires 1 <= m <= 12
    ensures MonthStart(12 * y + m - 1) - YearStart(y)
            == (367 * m - 362) / 12 - (if m <= 2 then 0 else if Leap(y) then 1 else 2)
    decreases m
  {
    if m == 1 {
      YearStarts(y);
    } else {
      MonthStartsAt(y, m - 1);
      NextMonthStarts(y, m - 1, MonthStart(12 * y + m - 2));
    }
  }

  /** The first day number of a year is that of its 1 January. */
  lemma NewYear(y: int)
    ensures DayNumber(y, 1, 1) == YearStart(y)
  {
    YearStarts(y);
  }

  /** The day numbers are anchored: 1 January 1970 is day 719162, a Thursday. */
  lemma Anchor()
    ensures YearStart(1970) == 719162 && DayOfWeek(YearStart(1970)) == 4
  {
  }

  lemma YearPeriod(y: int)
    ensures YearStart(y + 400) == YearStart(y) + 146097
  {
    assert (y - 1 + 400) / 4 == (y - 1) / 4 + 100;
    assert (y - 1 + 400) / 100 == (y - 1) / 100 + 4;
    assert (y - 1 + 400) / 400 == (y - 1) / 400 + 1;
  }

  lemma LeapPeriod(y: int)
    ensures Leap(y + 400) == Leap(y)
  {
    ModPeriod(y, 4, 100);
    ModPeriod(y, 100, 4);
    ModPeriod(y, 400, 1);
  }

  lemma LengthPeriod(k: int)
    ensures MonthLength(k + 4800) == MonthLength(k)
  {
    ModPeriod(k, 12, 400);
    LeapPeriod(YearOfMonth(k));
  }

  predicate Repeats(k: int) { MonthStart(k + 4800) == MonthStart(k) + 146097 }

  lemma JanuaryRepeats(y: int)
    ensures Repeats(12 * y)
  {
    YearStarts(y);
    YearStarts(y + 400);
    YearPeriod(y);
    assert 12 * (y + 400) == 12 * y + 4800;
  }

  lemma NextRepeats(k: int)
    requires Repeats(k)
    ensures Repeats(k + 1)
  {
    NextMonth(k);
    NextMonth(k + 4800);
    LengthPeriod(k);
  }

  lemma {:induction false} AllRepeat(y: int, m: nat)
    ensures Repeats(12 * y + m)
  {
    if m == 0 {
      JanuaryRepeats(y);
    } else {
      AllRepeat(y, m - 1);
      NextRepeats(12 * y + m - 1);
    }
  }

  /** The calendar repeats after 4800 months, weekdays included: 146097 days are
      20871 weeks. */
  lemma {:induction false} PeriodMany(k: int, t: nat)
    ensures MonthStart(k + 4800 * t) == MonthStart(k) + 146097 * t
    ensures MonthLength(k + 4800 * t) == MonthLength(k)
    ensures DayOfWeek(MonthStart(k + 4800 * t)) == DayOfWeek(MonthStart(k))
    decreases t
  {
    if t == 0 {
    } else {
      PeriodMany(k, t - 1);
      var j := k + 4800 * (t - 1);
      AllRepeat(j / 12, j % 12);
      LengthPeriod(j);
      assert j == 12 * (j / 12) + j % 12 && j + 4800 == k + 4800 * t;
      ModPeriod(MonthStart(j), 7, 20871);
    }
  }
}
