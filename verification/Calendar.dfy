// The proleptic Gregorian calendar behind Go's time package: a day number
// counts from 1 January of year 0, and every integer is a day of exactly one date.
module Calendar {

  datatype Date = Date(year: int, month: int, day: int)

  const SECONDS_PER_DAY := 86400

  predicate Leap(y: int) {
    y % 4 == 0 && (y % 100 != 0 || y % 400 == 0)
  }

  function DaysIn(m: int, y: int): (n: int)
    requires 1 <= m <= 12
  {
    if m == 2 then (if Leap(y) then 29 else 28)
    else if m == 4 || m == 6 || m == 9 || m == 11 then 30
    else 31
  }

  predicate ValidDate(d: Date) {
    1 <= d.month <= 12 && 1 <= d.day <= DaysIn(d.month, d.year)
  }

  // Days before 1 January of year y.
  function YearStart(y: int): int {
    365 * y + (y + 3) / 4 - (y + 99) / 100 + (y + 399) / 400
  }

  // Days of year y before the first of month m; m == 13 gives the length of the year.
  function MonthStart(m: int, y: int): int
    requires 1 <= m <= 13
  {
    if m == 1 then 0 else MonthStart(m - 1, y) + DaysIn(m - 1, y)
  }

  function DayNumber(d: Date): int
    requires ValidDate(d)
  {
    YearStart(d.year) + MonthStart(d.month, d.year) + d.day - 1
  }

  // The date of a day number: walk to the year, then to the month.
  function DateOf(n: int): (d: Date)
    ensures ValidDate(d) && DayNumber(d) == n
  {
    var y := YearOf(n);
    YearLength(y);
    var m := MonthOf(n - YearStart(y), y, 1);
    Date(y, m, n - YearStart(y) - MonthStart(m, y) + 1)
  }

  function YearOf(n: int): (y: int)
    ensures YearStart(y) <= n < YearStart(y + 1)
  {
    if n < YearStart(0) then YearBefore(n, 0) else YearFrom(n, 0)
  }

  function YearFrom(n: int, from: int): (y: int)
    requires YearStart(from) <= n
    ensures YearStart(y) <= n < YearStart(y + 1)
    decreases n - YearStart(from)
  {
    YearsAscend(from);
    if n < YearStart(from + 1) then from else YearFrom(n, from + 1)
  }

  function YearBefore(n: int, until: int): (y: int)
    requires n < YearStart(until)
    ensures YearStart(y) <= n < YearStart(y + 1)
    decreases YearStart(until) - n
  {
    YearsAscend(until - 1);
    if YearStart(until - 1) <= n then until - 1 else YearBefore(n, until - 1)
  }

  lemma YearsAscend(y: int)
    ensures YearStart(y) < YearStart(y + 1)
  {
    LeapDays(y);
  }

  function MonthOf(n: int, y: int, from: int): (m: int)
    requires 1 <= from <= 12 && MonthStart(from, y) <= n < MonthStart(13, y)
    ensures 1 <= m <= 12 && MonthStart(m, y) <= n < MonthStart(m + 1, y)
    decreases 12 - from
  {
    if n < MonthStart(from + 1, y) then from else MonthOf(n, y, from + 1)
  }

  lemma YearLength(y: int)
    ensures YearStart(y + 1) == YearStart(y) + MonthStart(13, y)
    ensures MonthStart(13, y) == if Leap(y) then 366 else 365
  {
    LeapDays(y);
    MonthTable(y);
  }

  lemma LeapDays(y: int)
    ensures YearStart(y + 1) == YearStart(y) + if Leap(y) then 366 else 365
  {
    Divides(y);
    Multiples(y, 4);
    Multiples(y, 100);
    Multiples(y, 400);
    LeapSum(y, (y + 3) / 4, (y + 99) / 100, (y + 399) / 400);
  }

  lemma Divides(y: int)
    ensures (y % 400 == 0 ==> y % 100 == 0) && (y % 100 == 0 ==> y % 4 == 0)
  {
    if y % 400 == 0 {
      MultipleOf(y, 100, 4 * (y / 400));
    }
    if y % 100 == 0 {
      MultipleOf(y, 4, 25 * (y / 100));
    }
  }

  lemma MultipleOf(y: int, k: int, m: int)
    requires k > 0 && y == k * m
    ensures y % k == 0
  {
    Quotient(y, k, m, 0);
  }

  // Every fourth year counts a day more, but for every hundredth, but for every four-hundredth.
  lemma LeapSum(y: int, a: int, b: int, c: int)
    requires (y % 400 == 0 ==> y % 100 == 0) && (y % 100 == 0 ==> y % 4 == 0)
    ensures (a + if y % 4 == 0 then 1 else 0) - (b + if y % 100 == 0 then 1 else 0)
            + (c + if y % 400 == 0 then 1 else 0) == a - b + c + if Leap(y) then 1 else 0
  {
  }

  // One more number divisible by k before y + 1 than before y, exactly when k divides y.
  lemma Multiples(y: int, k: int)
    requires k > 0
    ensures (y + k) / k == (y + k - 1) / k + if y % k == 0 then 1 else 0
  {
    var q, r := y / k, y % k;
    assert y == q * k + r;
    Quotient(y + k, k, q + 1, r);
    if r == 0 {
      Quotient(y + k - 1, k, q, k - 1);
    } else {
      Quotient(y + k - 1, k, q + 1, r - 1);
    }
  }

  lemma Quotient(a: int, k: int, q: int, r: int)
    requires 0 <= r < k && a == q * k + r
    ensures a / k == q
  {
    var d := a / k - q;
    assert d >= 1 ==> d * k >= k;
    assert d <= -1 ==> d * k <= -k;
    assert d * k == r - a % k;
  }

  lemma MonthTable(y: int)
    ensures MonthStart(13, y) == if Leap(y) then 366 else 365
  {
    assert MonthStart(2, y) == 31;
    assert MonthStart(4, y) == (if Leap(y) then 91 else 90);
    assert MonthStart(6, y) == MonthStart(4, y) + 61;
    assert MonthStart(8, y) == MonthStart(6, y) + 61;
    assert MonthStart(10, y) == MonthStart(8, y) + 61;
    assert MonthStart(12, y) == MonthStart(10, y) + 61;
  }

  lemma YearStartMonotone(y: int, z: int)
    requires y <= z
    ensures YearStart(y) <= YearStart(z)
    decreases z - y
  {
  }

  lemma {:induction false} MonthStartMonotone(m: int, k: int, y: int)
    requires 1 <= m <= k <= 13
    ensures MonthStart(m, y) <= MonthStart(k, y)
    decreases k - m
  {
    if m < k {
      MonthStartMonotone(m, k - 1, y);
    }
  }

  // Two valid dates with the same day number are the same date, so DateOf and
  // DayNumber are inverse to each other.
  lemma DayNumberInjective(a: Date, b: Date)
    requires ValidDate(a) && ValidDate(b) && DayNumber(a) == DayNumber(b)
    ensures a == b
  {
    InYear(a);
    InYear(b);
    if a.year < b.year {
      YearStartMonotone(a.year + 1, b.year);
    } else if b.year < a.year {
      YearStartMonotone(b.year + 1, a.year);
    } else if a.month < b.month {
      MonthStartMonotone(a.month + 1, b.month, a.year);
    } else if b.month < a.month {
      MonthStartMonotone(b.month + 1, a.month, a.year);
    }
  }

  lemma InYear(d: Date)
    requires ValidDate(d)
    ensures YearStart(d.year) <= DayNumber(d) < YearStart(d.year + 1)
  {
    MonthStartMonotone(1, d.month, d.year);
    MonthStartMonotone(d.month + 1, 13, d.year);
    YearLength(d.year);
  }

  // ---- Known values ----

  // Months have 31 and 30 days in turn, beginning again in August, but for February.
  lemma MonthLengths(m: int, y: int)
    requires 1 <= m <= 12
    ensures m != 2 ==> DaysIn(m, y) == 30 + (m + m / 8) % 2
    ensures DaysIn(2, y) == 29 <==> (y % 4 == 0 && y % 100 != 0) || y % 400 == 0
    ensures DaysIn(2, y) == 28 || DaysIn(2, y) == 29
  {
  }

  // The Unix epoch, counted from 1 January of year 0, and a leap day.
  lemma KnownDays()
    ensures DayNumber(Date(1970, 1, 1)) == 719528
    ensures DayNumber(Date(2024, 2, 29)) == 739310
  {
  }

  lemma DateOfDayNumber(d: Date)
    requires ValidDate(d)
    ensures DateOf(DayNumber(d)) == d
  {
    DayNumberInjective(DateOf(DayNumber(d)), d);
  }
}
