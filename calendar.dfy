/** The proleptic Gregorian calendar as day numbers: the folder names of the
    daily snapshots ("yyyymmdd", read with pd.to_datetime(..., format=
    "%Y%m%d")) become integers, so that "30 days before" is a subtraction. */
module Calendar {
  import opened Wrappers
  import opened Text

  predicate IsLeapYear(y: int)
  {
    y % 4 == 0 && (y % 100 != 0 || y % 400 == 0)
  }

  function YearLength(y: int): nat
  {
    if IsLeapYear(y) then 366 else 365
  }

  function MonthLength(y: int, m: int): nat
    requires 1 <= m <= 12
  {
    if m == 2 then (if IsLeapYear(y) then 29 else 28)
    else if m == 4 || m == 6 || m == 9 || m == 11 then 30
    else 31
  }

  predicate ValidDate(y: nat, m: nat, d: nat)
  {
    1 <= m <= 12 && 1 <= d <= MonthLength(y, m)
  }

  /** Days from 0000-01-01 to the first of January of year y: 365 per year
      plus one per leap year in [0, y). */
  function DaysBeforeYear(y: nat): int
  {
    365 * y + (y + 3) / 4 - (y + 99) / 100 + (y + 399) / 400
  }

  /** Days from the first of January to the first of month m of year y. */
  function DaysBeforeMonth(y: nat, m: nat): nat
    requires 1 <= m <= 13
  {
    if m == 1 then 0 else DaysBeforeMonth(y, m - 1) + MonthLength(y, m - 1)
  }

  /** The day number of a date; 0000-01-01 is day 0. */
  function DayNumber(y: nat, m: nat, d: nat): int
    requires ValidDate(y, m, d)
  {
    DaysBeforeYear(y) + DaysBeforeMonth(y, m) + d - 1
  }

  // -------------------------------------------------------------------------

  lemma MulAtLeast(a: int, k: int)
    requires a >= 1 && k > 0
    ensures a * k >= k
  {
  }

  /** Division is determined by quotient and remainder. */
  lemma DivUnique(n: int, k: int, q: int, r: int)
    requires k > 0 && 0 <= r < k && n == q * k + r
    ensures n / k == q
  {
    var q', r' := n / k, n % k;
    assert (q - q') * k == r' - r;
    if q > q' {
      MulAtLeast(q - q', k);
    } else if q < q' {
      MulAtLeast(q' - q, k);
    }
  }

  /** Going from y to y + 1, ceil(y / k) grows by one exactly when k
      divides y. */
  lemma CeilDivStep(y: nat, k: nat)
    requires k > 0
    ensures (y + k) / k - (y + k - 1) / k == if y % k == 0 then 1 else 0
  {
    var q, r := y / k, y % k;
    DivUnique(y + k, k, q + 1, r);
    if r == 0 {
      DivUnique(y + k - 1, k, q, k - 1);
    } else {
      DivUnique(y + k - 1, k, q + 1, r - 1);
    }
  }

  /** Each year adds its own length. */
  lemma YearStep(y: nat)
    ensures DaysBeforeYear(y + 1) == DaysBeforeYear(y) + YearLength(y)
  {
    CeilDivStep(y, 4);
    CeilDivStep(y, 100);
    CeilDivStep(y, 400);
    if y % 100 == 0 {
      var q := y / 100;
      DivUnique(y, 4, q * 25, 0);
    }
    if y % 400 == 0 {
      var q := y / 400;
      DivUnique(y, 100, q * 4, 0);
    }
  }

  lemma {:induction false} DaysBeforeYearMonotone(y: nat, y': nat)
    requires y < y'
    ensures DaysBeforeYear(y) + YearLength(y) <= DaysBeforeYear(y')
    decreases y' - y
  {
    YearStep(y);
    if y + 1 < y' {
      DaysBeforeYearMonotone(y + 1, y');
    }
  }

  /** The twelve months make up the year. */
  lemma MonthsMakeYear(y: nat)
    ensures DaysBeforeMonth(y, 13) == YearLength(y)
  {
    assert DaysBeforeMonth(y, 2) == 31;
    assert DaysBeforeMonth(y, 3) == 31 + MonthLength(y, 2);
    assert DaysBeforeMonth(y, 4) == 62 + MonthLength(y, 2);
    assert DaysBeforeMonth(y, 5) == 92 + MonthLength(y, 2);
    assert DaysBeforeMonth(y, 6) == 123 + MonthLength(y, 2);
    assert DaysBeforeMonth(y, 7) == 153 + MonthLength(y, 2);
    assert DaysBeforeMonth(y, 8) == 184 + MonthLength(y, 2);
    assert DaysBeforeMonth(y, 9) == 215 + MonthLength(y, 2);
    assert DaysBeforeMonth(y, 10) == 245 + MonthLength(y, 2);
    assert DaysBeforeMonth(y, 11) == 276 + MonthLength(y, 2);
    assert DaysBeforeMonth(y, 12) == 306 + MonthLength(y, 2);
  }

  lemma {:induction false} DaysBeforeMonthMonotone(y: nat, m: nat, m': nat)
    requires 1 <= m < m' <= 13
    ensures DaysBeforeMonth(y, m) + MonthLength(y, m) <= DaysBeforeMonth(y, m')
    decreases m' - m
  {
    if m + 1 < m' {
      DaysBeforeMonthMonotone(y, m + 1, m');
    }
  }

  /** A date lies inside its year. */
  lemma DayWithinYear(y: nat, m: nat, d: nat)
    requires ValidDate(y, m, d)
    ensures DaysBeforeYear(y) <= DayNumber(y, m, d) < DaysBeforeYear(y) + YearLength(y)
  {
    if m < 12 {
      DaysBeforeMonthMonotone(y, m, 13);
    }
    MonthsMakeYear(y);
  }

  predicate DateBefore(y: nat, m: nat, d: nat, y': nat, m': nat, d': nat)
  {
    y < y' || (y == y' && (m < m' || (m == m' && d < d')))
  }

  /** Later dates have larger day numbers. */
  lemma DayNumberMonotone(y: nat, m: nat, d: nat, y': nat, m': nat, d': nat)
    requires ValidDate(y, m, d) && ValidDate(y', m', d')
    requires DateBefore(y, m, d, y', m', d')
    ensures DayNumber(y, m, d) < DayNumber(y', m', d')
  {
    if y < y' {
      DayWithinYear(y, m, d);
      DayWithinYear(y', m', d');
      DaysBeforeYearMonotone(y, y');
    } else if m < m' {
      DaysBeforeMonthMonotone(y, m, m');
    }
  }

  /** The calendar day after a valid date. */
  function NextDate(y: nat, m: nat, d: nat): (nat, nat, nat)
    requires ValidDate(y, m, d)
  {
    if d < MonthLength(y, m) then (y, m, d + 1)
    else if m < 12 then (y, m + 1, 1)
    else (y + 1, 1, 1)
  }

  /** Consecutive calendar days have consecutive day numbers, so a timedelta
      of n days is a difference of n in day numbers. */
  lemma NextDateIsNextDay(y: nat, m: nat, d: nat)
    requires ValidDate(y, m, d)
    ensures var (y', m', d') := NextDate(y, m, d);
      ValidDate(y', m', d') && DayNumber(y', m', d') == DayNumber(y, m, d) + 1
  {
    if d == MonthLength(y, m) && m == 12 {
      MonthsMakeYear(y);
      YearStep(y);
    }
  }

  // -------------------------------------------------------------------------
  // "yyyymmdd"

  function YearOf(s: string): nat
    requires |s| == 8 && AllDigits(s)
  {
    DigitsValue(s[..4])
  }

  function MonthOf(s: string): nat
    requires |s| == 8 && AllDigits(s)
  {
    DigitsValue(s[4..6])
  }

  function DayOf(s: string): nat
    requires |s| == 8 && AllDigits(s)
  {
    DigitsValue(s[6..])
  }

  /** pd.to_datetime(s, format="%Y%m%d") on an eight-digit name, as a day
      number; None where it raises because the digits name no date. */
  function ParseYmd(s: string): (r: Option<int>)
    ensures r.Some? <==> |s| == 8 && AllDigits(s) && ValidDate(YearOf(s), MonthOf(s), DayOf(s))
  {
    if |s| == 8 && AllDigits(s) && ValidDate(YearOf(s), MonthOf(s), DayOf(s)) then
      Some(DayNumber(YearOf(s), MonthOf(s), DayOf(s)))
    else None
  }

  /** The digits of yyyymmdd spell y * 10000 + m * 100 + d. */
  lemma YmdValue(s: string)
    requires |s| == 8 && AllDigits(s)
    ensures DigitsValue(s) == YearOf(s) * 10000 + MonthOf(s) * 100 + DayOf(s)
  {
    var a, b, c := s[..4], s[4..6], s[6..];
    assert s == a + b + c;
    assert s[..6] == a + b;
    DigitsValueAppend(a, b);
    DigitsValueAppend(a + b, c);
    assert Pow10(2) == 100;
  }

  lemma YmdValueOrder(y: nat, m: nat, d: nat, y': nat, m': nat, d': nat)
    requires m < 100 && d < 100 && m' < 100 && d' < 100
    ensures DateBefore(y, m, d, y', m', d') <==> y * 10000 + m * 100 + d < y' * 10000 + m' * 100 + d'
  {
    if y < y' {
      assert y * 10000 + 10000 <= y' * 10000;
    } else if y' < y {
      assert y' * 10000 + 10000 <= y * 10000;
    }
  }

  /** Among folder names that are dates, Python's string order is the
      calendar order: "START <= name <= END" compares days. */
  lemma YmdOrderIsDateOrder(a: string, b: string)
    requires ParseYmd(a).Some? && ParseYmd(b).Some?
    ensures LexLe(a, b) <==> ParseYmd(a).value <= ParseYmd(b).value
  {
    LexLeDigits(a, b);
    YmdValue(a);
    YmdValue(b);
    var ya, ma, da := YearOf(a), MonthOf(a), DayOf(a);
    var yb, mb, db := YearOf(b), MonthOf(b), DayOf(b);
    YmdValueOrder(ya, ma, da, yb, mb, db);
    YmdValueOrder(yb, mb, db, ya, ma, da);
    if DateBefore(ya, ma, da, yb, mb, db) {
      DayNumberMonotone(ya, ma, da, yb, mb, db);
    } else if DateBefore(yb, mb, db, ya, ma, da) {
      DayNumberMonotone(yb, mb, db, ya, ma, da);
    }
  }
}
