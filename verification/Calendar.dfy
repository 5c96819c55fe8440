/** The proleptic Gregorian calendar: day numbers and dates determine each other. Day 0 is 1 January of
    year 1, so that leap years close each cycle of 4, 100 and 400 years. */
module Calendar {
  import opened Domain

  datatype Date = Date(year: int, month: int, day: int)

  predicate IsLeap(year: int) {
    year % 4 == 0 && (year % 100 != 0 || year % 400 == 0)
  }

  function DaysInMonth(year: int, month: int): int {
    if month == 2 then (if IsLeap(year) then 29 else 28)
    else if month == 4 || month == 6 || month == 9 || month == 11 then 30
    else 31
  }

  predicate Valid(date: Date) {
    1 <= date.month <= 12 && 1 <= date.day <= DaysInMonth(date.year, date.month)
  }

  function DaysBeforeYear(year: int): int {
    var z := year - 1;
    365 * z + z / 4 - z / 100 + z / 400
  }

  function DaysBeforeMonth(year: int, month: int): int
    requires 1 <= month <= 13
  {
    if month == 1 then 0 else DaysBeforeMonth(year, month - 1) + DaysInMonth(year, month - 1)
  }

  function DayNumber(date: Date): int
    requires Valid(date)
  {
    DaysBeforeYear(date.year) + DaysBeforeMonth(date.year, date.month) + date.day - 1
  }

  // ----- from a day number to its year: cycles of 400, 100, 4 and 1 years -----

  function YearOf(n: int): int {
    var d400 := n % 146097;
    var c100 := Min(d400 / 36524, 3);
    var d100 := d400 - 36524 * c100;
    var d4 := d100 % 1461;
    1 + 400 * (n / 146097) + 100 * c100 + 4 * (d100 / 1461) + Min(d4 / 365, 3)
  }

  lemma CycleDays(a: int, b: int, c: int, e: int)
    requires 0 <= b < 4 && 0 <= c < 25 && 0 <= e < 4
    ensures DaysBeforeYear(1 + 400 * a + 100 * b + 4 * c + e) == 146097 * a + 36524 * b + 1461 * c + 365 * e
    ensures IsLeap(1 + 400 * a + 100 * b + 4 * c + e) <==> e == 3 && (c != 24 || b == 3)
  {
    var z := 400 * a + 100 * b + 4 * c + e;
    QuotientOf(z, 4, 100 * a + 25 * b + c, e);
    QuotientOf(z, 100, 4 * a + b, 4 * c + e);
    QuotientOf(z, 400, a, 100 * b + 4 * c + e);
    CycleLeap(a, b, c, e);
  }

  lemma QuotientOf(z: int, m: int, q: int, r: int)
    requires m == 4 || m == 100 || m == 400
    requires z == m * q + r && 0 <= r < m
    ensures z / m == q && z % m == r
  {
  }

  lemma CycleLeap(a: int, b: int, c: int, e: int)
    requires 0 <= b < 4 && 0 <= c < 25 && 0 <= e < 4
    ensures IsLeap(1 + 400 * a + 100 * b + 4 * c + e) <==> e == 3 && (c != 24 || b == 3)
  {
    var year := 1 + 400 * a + 100 * b + 4 * c + e;
    if e < 3 {
      QuotientOf(year, 4, 100 * a + 25 * b + c, e + 1);
    } else {
      QuotientOf(year, 4, 100 * a + 25 * b + c + 1, 0);
      if c < 24 {
        QuotientOf(year, 100, 4 * a + b, 4 * c + 4);
      } else {
        QuotientOf(year, 100, 4 * a + b + 1, 0);
        if b < 3 { QuotientOf(year, 400, a, 100 * b + 100); } else { QuotientOf(year, 400, a + 1, 0); }
      }
    }
  }

  lemma DivisionStep(z: int, m: int)
    requires m == 4 || m == 100 || m == 400
    ensures (z + 1) / m == z / m + (if (z + 1) % m == 0 then 1 else 0)
  {
  }

  lemma YearLength(year: int)
    ensures DaysBeforeYear(year + 1) == DaysBeforeYear(year) + (if IsLeap(year) then 366 else 365)
  {
    DivisionStep(year - 1, 4);
    DivisionStep(year - 1, 100);
    DivisionStep(year - 1, 400);
    LeapYearsNest(year);
  }

  lemma LeapYearsNest(year: int)
    ensures year % 100 == 0 ==> year % 4 == 0
    ensures year % 400 == 0 ==> year % 100 == 0
  {
    assert year % 100 == 0 ==> year == 4 * (25 * (year / 100));
    assert year % 400 == 0 ==> year == 100 * (4 * (year / 400));
  }

  lemma YearBrackets(n: int)
    ensures DaysBeforeYear(YearOf(n)) <= n < DaysBeforeYear(YearOf(n)) + (if IsLeap(YearOf(n)) then 366 else 365)
  {
    var a, d400 := n / 146097, n % 146097;
    var b := Min(d400 / 36524, 3);
    var d100 := d400 - 36524 * b;
    assert 0 <= b <= 3 && 0 <= d100 <= 36524 && (d100 == 36524 ==> b == 3);
    var c, d4 := d100 / 1461, d100 % 1461;
    assert 0 <= c <= 24 && 0 <= d4 <= 1460 && (c == 24 && d4 == 1460 ==> b == 3);
    var e := Min(d4 / 365, 3);
    CycleDays(a, b, c, e);
  }

  function MonthFrom(year: int, dayOfYear: int, month: int): (found: int)
    requires 1 <= month <= 12 && DaysBeforeMonth(year, month) <= dayOfYear
    requires dayOfYear < (if IsLeap(year) then 366 else 365)
    ensures month <= found <= 12
    ensures DaysBeforeMonth(year, found) <= dayOfYear < DaysBeforeMonth(year, found) + DaysInMonth(year, found)
    decreases 12 - month
  {
    YearIsTwelveMonths(year);
    if dayOfYear < DaysBeforeMonth(year, month) + DaysInMonth(year, month) then month
    else MonthFrom(year, dayOfYear, month + 1)
  }

  lemma YearIsTwelveMonths(year: int)
    ensures DaysBeforeMonth(year, 13) == if IsLeap(year) then 366 else 365
  {
    var february := DaysInMonth(year, 2);
    assert DaysBeforeMonth(year, 2) == 31;
    assert DaysBeforeMonth(year, 3) == 31 + february;
    assert DaysBeforeMonth(year, 5) == 92 + february;
    assert DaysBeforeMonth(year, 7) == 153 + february;
    assert DaysBeforeMonth(year, 9) == 215 + february;
    assert DaysBeforeMonth(year, 11) == 276 + february;
  }

  /** The date of a day number; its postcondition is the round trip. */
  function DateOf(n: int): (date: Date)
    ensures Valid(date) && DayNumber(date) == n
  {
    YearBrackets(n);
    var year := YearOf(n);
    YearLength(year);
    var dayOfYear := n - DaysBeforeYear(year);
    var month := MonthFrom(year, dayOfYear, 1);
    Date(year, month, dayOfYear - DaysBeforeMonth(year, month) + 1)
  }

  predicate Earlier(a: Date, b: Date) {
    || a.year < b.year
    || (a.year == b.year && (a.month < b.month || (a.month == b.month && a.day < b.day)))
  }

  lemma {:induction false} YearsIncrease(a: int, b: int)
    requires a < b
    ensures DaysBeforeYear(a) + 365 <= DaysBeforeYear(b)
    decreases b - a
  {
    YearLength(b - 1);
    if a < b - 1 {
      YearsIncrease(a, b - 1);
    }
  }

  lemma {:induction false} MonthsIncrease(year: int, a: int, b: int)
    requires 1 <= a < b <= 13
    ensures DaysBeforeMonth(year, a) + DaysInMonth(year, a) <= DaysBeforeMonth(year, b)
    decreases b
  {
    if a < b - 1 {
      MonthsIncrease(year, a, b - 1);
    }
  }

  lemma MonthsWithinYear(date: Date)
    requires Valid(date)
    ensures DaysBeforeYear(date.year) <= DayNumber(date) < DaysBeforeYear(date.year + 1)
  {
    MonthStartsAtLeastZero(date.year, date.month);
    MonthsIncrease(date.year, date.month, 13);
    YearIsTwelveMonths(date.year);
    YearLength(date.year);
  }

  lemma {:induction false} MonthStartsAtLeastZero(year: int, month: int)
    requires 1 <= month <= 13
    ensures DaysBeforeMonth(year, month) >= 0
    decreases month
  {
    if month > 1 {
      MonthStartsAtLeastZero(year, month - 1);
    }
  }

  /** Dates are ordered as their day numbers. */
  lemma EarlierIsSmaller(a: Date, b: Date)
    requires Valid(a) && Valid(b)
    ensures Earlier(a, b) <==> DayNumber(a) < DayNumber(b)
  {
    MonthsWithinYear(a);
    MonthsWithinYear(b);
    if a.year < b.year {
      if a.year + 1 < b.year { YearsIncrease(a.year + 1, b.year); }
    } else if b.year < a.year {
      if b.year + 1 < a.year { YearsIncrease(b.year + 1, a.year); }
    } else if a.month < b.month {
      MonthsIncrease(a.year, a.month, b.month);
    } else if b.month < a.month {
      MonthsIncrease(a.year, b.month, a.month);
    }
  }

  /** A date is recovered from its day number. */
  lemma DateOfDayNumber(date: Date)
    requires Valid(date)
    ensures DateOf(DayNumber(date)) == date
  {
    var back := DateOf(DayNumber(date));
    EarlierIsSmaller(date, back);
    EarlierIsSmaller(back, date);
  }
}
