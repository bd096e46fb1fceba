/** The civil-date arithmetic of src/time.rs, tied to calendar counting. */
module Calendar {

  datatype Date = Date(year: int, month: int, day: int)

  predicate IsLeapYear(year: int) {
    (year % 4 == 0 && year % 100 != 0) || year % 400 == 0
  }

  function DaysInMonth(year: int, month: int): (d: int)
    ensures 0 <= d <= 31
    ensures 1 <= month <= 12 ==> 28 <= d
  {
    match month
    case 1 | 3 | 5 | 7 | 8 | 10 | 12 => 31
    case 4 | 6 | 9 | 11 => 30
    case 2 => if IsLeapYear(year) then 29 else 28
    case _ => 0
  }

  predicate ValidDate(d: Date) {
    1 <= d.month <= 12 && 1 <= d.day <= DaysInMonth(d.year, d.month)
  }

  /** Division that truncates toward zero, as the source's integer division does. */
  function TruncDiv(a: int, b: int): int
    requires b > 0
  {
    if a >= 0 then a / b else -((-a) / b)
  }

  /** `days_from_civil`: the constant-time day number of a civil date. */
  function DaysFromCivil(d: Date): int {
    var y := if d.month <= 2 then d.year - 1 else d.year;
    var era := TruncDiv(if y >= 0 then y else y - 399, 400);
    var yearOfEra := y - era * 400;
    var monthPrime := (d.month + 9) % 12;
    var dayOfYear := (153 * monthPrime + 2) / 5 + d.day - 1;
    var dayOfEra := yearOfEra * 365 + yearOfEra / 4 - yearOfEra / 100 + dayOfYear;
    era * 146_097 + dayOfEra - 719_468
  }

  // ---- calendar counting ----

  /** The day after a date, by the lengths of months. */
  function NextDay(d: Date): Date {
    if d.day < DaysInMonth(d.year, d.month) then Date(d.year, d.month, d.day + 1)
    else if d.month < 12 then Date(d.year, d.month + 1, 1)
    else Date(d.year + 1, 1, 1)
  }

  /** Calendar order. */
  predicate Before(a: Date, b: Date) {
    a.year < b.year
    || (a.year == b.year && (a.month < b.month || (a.month == b.month && a.day < b.day)))
  }

  /** Days before 1 March of year `y`, counted from 1 March of year 0. */
  function MarchDays(y: int): int {
    365 * y + y / 4 - y / 100 + y / 400
  }

  lemma TruncatedEraIsFloor(y: int)
    ensures TruncDiv(if y >= 0 then y else y - 399, 400) == y / 400
  {
  }

  lemma EraDays(y: int)
    ensures var yoe := y - y / 400 * 400;
            y / 400 * 146_097 + yoe * 365 + yoe / 4 - yoe / 100 == MarchDays(y)
  {
    var era, yoe := y / 400, y % 400;
    assert y == 400 * era + yoe;
    assert y / 4 == 100 * era + yoe / 4;
    assert y / 100 == 4 * era + yoe / 100;
  }

  function MarchYear(d: Date): int {
    if d.month <= 2 then d.year - 1 else d.year
  }

  /** The days of the months from March up to the month before `month`. */
  function MonthOffset(month: int): int {
    match month
    case 3 => 0 case 4 => 31 case 5 => 61 case 6 => 92 case 7 => 122 case 8 => 153
    case 9 => 184 case 10 => 214 case 11 => 245 case 12 => 275 case 1 => 306 case _ => 337
  }

  /** The day number by March-based years and the months' real lengths. */
  function DayCount(d: Date): int {
    MarchDays(MarchYear(d)) + MonthOffset(d.month) + d.day - 1 - 719_468
  }

  lemma FormulaIsDayCount(d: Date)
    requires 1 <= d.month <= 12
    ensures DaysFromCivil(d) == DayCount(d)
  {
    TruncatedEraIsFloor(MarchYear(d));
    EraDays(MarchYear(d));
    assert (153 * ((d.month + 9) % 12) + 2) / 5 == MonthOffset(d.month);
  }

  lemma FourthYear(y: int)
    ensures y / 4 - (y - 1) / 4 == if y % 4 == 0 then 1 else 0
  {
  }

  lemma HundredthYear(y: int)
    ensures y / 100 - (y - 1) / 100 == if y % 100 == 0 then 1 else 0
  {
  }

  lemma FourHundredthYear(y: int)
    ensures y / 400 - (y - 1) / 400 == if y % 400 == 0 then 1 else 0
  {
  }

  lemma CenturiesAreFourthYears(y: int)
    ensures y % 100 == 0 ==> y % 4 == 0
  {
    assert y == 4 * (25 * (y / 100)) + y % 100;
  }

  lemma FourHundredthsAreCenturies(y: int)
    ensures y % 400 == 0 ==> y % 100 == 0
  {
    assert y == 100 * (4 * (y / 400)) + y % 400;
  }

  /** The year that ends with February of `y` has 366 days exactly when `y` is a leap year. */
  lemma MarchYearLength(y: int)
    ensures MarchDays(y) - MarchDays(y - 1) == if IsLeapYear(y) then 366 else 365
  {
    FourthYear(y);
    HundredthYear(y);
    FourHundredthYear(y);
    CenturiesAreFourthYears(y);
    FourHundredthsAreCenturies(y);
  }

  /** The days of one month, from March to January. */
  lemma MonthStep(month: int, year: int)
    requires 1 <= month <= 12
    ensures month != 2 && month != 12 ==> MonthOffset(month + 1) == MonthOffset(month) + DaysInMonth(year, month)
    ensures month == 12 ==> MonthOffset(1) == MonthOffset(12) + DaysInMonth(year, 12)
  {
  }

  lemma DayCountStep(d: Date)
    requires ValidDate(d)
    ensures ValidDate(NextDay(d)) && DayCount(NextDay(d)) == DayCount(d) + 1
  {
    MarchYearLength(d.year);
    MonthStep(d.month, d.year);
  }

  // ---- main results ----

  lemma EpochIsDayZero()
    ensures DaysFromCivil(Date(1970, 1, 1)) == 0
  {
  }

  /** One calendar day is one day number, over all integer years. */
  lemma NextDayIsNextNumber(d: Date)
    requires ValidDate(d)
    ensures ValidDate(NextDay(d))
    ensures DaysFromCivil(NextDay(d)) == DaysFromCivil(d) + 1
  {
    DayCountStep(d);
    FormulaIsDayCount(d);
    FormulaIsDayCount(NextDay(d));
  }

  /** A numbering that grows by one from each valid date to the next. */
  ghost predicate CountsDays(f: Date -> int) {
    forall d :: ValidDate(d) ==> ValidDate(NextDay(d)) && f(NextDay(d)) == f(d) + 1
  }

  lemma FormulaCountsDays()
    ensures CountsDays(DaysFromCivil)
  {
    forall d | ValidDate(d)
      ensures ValidDate(NextDay(d)) && DaysFromCivil(NextDay(d)) == DaysFromCivil(d) + 1
    {
      NextDayIsNextNumber(d);
    }
  }

  /** Stepping day by day from `a` reaches every later date. */
  lemma {:induction false} CountingIncreases(f: Date -> int, a: Date, b: Date)
    requires CountsDays(f) && ValidDate(a) && ValidDate(b) && Before(a, b)
    ensures f(a) < f(b)
    decreases b.year - a.year, 12 - a.month, 31 - a.day
  {
    var n := NextDay(a);
    assert ValidDate(n) && f(n) == f(a) + 1;
    if n != b {
      assert Before(n, b);
      CountingIncreases(f, n, b);
    }
  }

  /** Later dates have larger numbers. */
  lemma StrictlyIncreasing(a: Date, b: Date)
    requires ValidDate(a) && ValidDate(b) && Before(a, b)
    ensures DaysFromCivil(a) < DaysFromCivil(b)
  {
    FormulaCountsDays();
    CountingIncreases(DaysFromCivil, a, b);
  }

  /** Different valid dates have different numbers. */
  lemma Injective(a: Date, b: Date)
    requires ValidDate(a) && ValidDate(b) && DaysFromCivil(a) == DaysFromCivil(b)
    ensures a == b
  {
    if Before(a, b) {
      StrictlyIncreasing(a, b);
    } else if Before(b, a) {
      StrictlyIncreasing(b, a);
    }
  }

  /** The date reached from the epoch by counting `n` days forward. */
  function DayAfterEpoch(n: nat): Date {
    if n == 0 then Date(1970, 1, 1) else NextDay(DayAfterEpoch(n - 1))
  }

  lemma {:induction false} CountingFromEpoch(f: Date -> int, n: nat)
    requires CountsDays(f) && f(Date(1970, 1, 1)) == 0
    ensures ValidDate(DayAfterEpoch(n)) && f(DayAfterEpoch(n)) == n
  {
    if n > 0 {
      CountingFromEpoch(f, n - 1);
    }
  }

  /** Counting `n` days from the epoch leads to the valid date whose number is `n`. */
  lemma FormulaInvertsCounting(n: nat)
    ensures ValidDate(DayAfterEpoch(n)) && DaysFromCivil(DayAfterEpoch(n)) == n
  {
    FormulaCountsDays();
    EpochIsDayZero();
    CountingFromEpoch(DaysFromCivil, n);
  }

  /** Every valid date from the epoch on is reached by counting as many days as its number says. */
  lemma CountingReachesDate(d: Date)
    requires ValidDate(d) && d.year >= 1970
    ensures DaysFromCivil(d) >= 0 && DayAfterEpoch(DaysFromCivil(d)) == d
  {
    var epoch := Date(1970, 1, 1);
    EpochIsDayZero();
    if d != epoch {
      StrictlyIncreasing(epoch, d);
    }
    FormulaInvertsCounting(DaysFromCivil(d));
    Injective(d, DayAfterEpoch(DaysFromCivil(d)));
  }
}
