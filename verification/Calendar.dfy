/** The proleptic Gregorian calendar behind JavaScript's `Date`, and calendar dates as text. */
module Calendar {
  /** Milliseconds in a day. */
  const DAY: int := 86_400_000
  /** `Date` holds no instant further than this many days from 1970-01-01. */
  const MAX_DATE_DAYS: int := 100_000_000

  // ------------------------------------------------------- day arithmetic

  datatype Civil = Civil(year: int, month: int, day: int)

  predicate Leap(y: int) { y % 4 == 0 && (y % 100 != 0 || y % 400 == 0) }

  function YearLength(y: int): int { if Leap(y) then 366 else 365 }

  /** The day number of 1 January of year `y`; day 0 is 1970-01-01. */
  function DayFromYear(y: int): int
    decreases if y < 1970 then 1970 - y else y - 1970
  {
    if y == 1970 then 0
    else if y > 1970 then DayFromYear(y - 1) + YearLength(y - 1)
    else DayFromYear(y + 1) - YearLength(y)
  }

  /** Days of a year that precede its month `m`; month 13 stands for the year's end. */
  function DaysBeforeMonth(m: int, leap: bool): int
    requires 1 <= m <= 13
  {
    if m <= 2 then 31 * (m - 1)
    else (if leap then 1 else 0) +
         [59, 90, 120, 151, 181, 212, 243, 273, 304, 334, 365][m - 3]
  }

  function MonthLength(y: int, m: int): int
    requires 1 <= m <= 12
  {
    DaysBeforeMonth(m + 1, Leap(y)) - DaysBeforeMonth(m, Leap(y))
  }

  /** A day that exists in the calendar. */
  predicate Valid(c: Civil) {
    1 <= c.month <= 12 && 1 <= c.day <= MonthLength(c.year, c.month)
  }

  function DayNumber(c: Civil): int
    requires 1 <= c.month <= 12
  {
    DayFromYear(c.year) + DaysBeforeMonth(c.month, Leap(c.year)) + c.day - 1
  }

  /** ECMAScript's MakeDay: `month` counts from 0, and it and `day` may overflow. */
  function MakeDay(year: int, month: int, day: int): int
    decreases if month < 0 then 12 - month else month
  {
    if month < 0 then MakeDay(year - 1, month + 12, day)
    else if month > 11 then MakeDay(year + 1, month - 12, day)
    else DayNumber(Civil(year, month + 1, day))
  }

  /** ECMAScript's DayFromYear, in closed form. */
  function YearFormula(y: int): int {
    365 * (y - 1970) + (y - 1) / 4 - (y - 1) / 100 + (y - 1) / 400 - 477
  }

  lemma FloorStep(a: int)
    ensures (a + 1) / 4 == a / 4 + (if (a + 1) % 4 == 0 then 1 else 0)
    ensures (a + 1) / 100 == a / 100 + (if (a + 1) % 100 == 0 then 1 else 0)
    ensures (a + 1) / 400 == a / 400 + (if (a + 1) % 400 == 0 then 1 else 0)
  {}

  lemma CenturyNests(y: int)
    ensures y % 400 == 0 ==> y % 100 == 0
    ensures y % 100 == 0 ==> y % 4 == 0
  {
    if y % 400 == 0 { MultipleOf100(4 * (y / 400)); }
    if y % 100 == 0 { MultipleOf4(25 * (y / 100)); }
  }

  lemma MultipleOf100(k: int)
    ensures (100 * k) % 100 == 0
  {}

  lemma MultipleOf4(k: int)
    ensures (4 * k) % 4 == 0
  {}

  lemma FormulaStep(y: int)
    ensures YearFormula(y + 1) == YearFormula(y) + YearLength(y)
  {
    FloorStep(y - 1);
    CenturyNests(y);
  }

  lemma {:induction false} DayFromYearFormula(y: int)
    ensures DayFromYear(y) == YearFormula(y)
    decreases if y < 1970 then 1970 - y else y - 1970
  {
    if y > 1970 { DayFromYearFormula(y - 1); FormulaStep(y - 1); }
    else if y < 1970 { DayFromYearFormula(y + 1); FormulaStep(y); }
  }

  lemma YearStep(y: int)
    ensures DayFromYear(y + 1) == DayFromYear(y) + YearLength(y)
  {}

  lemma {:induction false} YearsApart(y: int, z: int)
    requires y <= z
    ensures DayFromYear(y) + 365 * (z - y) <= DayFromYear(z)
    decreases z - y
  {
    if y < z {
      YearsApart(y, z - 1);
      YearStep(z - 1);
    }
  }

  /** ECMAScript's YearFromTime: the year that contains day `n`, searched for from `guess`. */
  function YearFromDay(n: int, guess: int): (y: int)
    ensures DayFromYear(y) <= n < DayFromYear(y + 1)
    decreases if n < DayFromYear(guess) then 1 else 0, if n < DayFromYear(guess) then DayFromYear(guess) - n else n - DayFromYear(guess)
  {
    YearStep(guess);
    YearStep(guess - 1);
    if n < DayFromYear(guess) then YearFromDay(n, guess - 1)
    else if n >= DayFromYear(guess + 1) then YearFromDay(n, guess + 1)
    else guess
  }

  /** The month that holds day-of-year `k`, searched for from month `m`. */
  function MonthFromDay(k: int, leap: bool, m: int): (r: int)
    requires 1 <= m <= 12 && DaysBeforeMonth(m, leap) <= k < DaysBeforeMonth(13, leap)
    ensures m <= r <= 12 && DaysBeforeMonth(r, leap) <= k < DaysBeforeMonth(r + 1, leap)
    decreases 12 - m
  {
    if k < DaysBeforeMonth(m + 1, leap) then m else MonthFromDay(k, leap, m + 1)
  }

  /** The calendar day with day number `n`, as the `getUTC...` methods report it. */
  function CivilFromDay(n: int): (c: Civil)
  {
    var y := YearFromDay(n, 1970);
    YearStep(y);
    var k := n - DayFromYear(y);
    var m := MonthFromDay(k, Leap(y), 1);
    Civil(y, m, k - DaysBeforeMonth(m, Leap(y)) + 1)
  }

  /** Every day number names a day of the calendar, and that day has that number. */
  lemma DayOfCivil(n: int)
    ensures Valid(CivilFromDay(n)) && DayNumber(CivilFromDay(n)) == n
  {
    YearStep(YearFromDay(n, 1970));
  }

  lemma {:induction false} MonthsInOrder(m: int, r: int, leap: bool)
    requires 1 <= m <= r <= 13
    ensures DaysBeforeMonth(m, leap) + 28 * (r - m) <= DaysBeforeMonth(r, leap)
    decreases r - m
  {
    if m < r { MonthsInOrder(m, r - 1, leap); }
  }

  /** Chronological order is the lexicographic order of year, month and day. */
  predicate Before(a: Civil, b: Civil) {
    a.year < b.year || (a.year == b.year && (a.month < b.month || (a.month == b.month && a.day < b.day)))
  }

  lemma BeforeIsDayOrder(a: Civil, b: Civil)
    requires Valid(a) && Valid(b)
    ensures Before(a, b) <==> DayNumber(a) < DayNumber(b)
  {
    BeforeImpliesEarlier(a, b);
    BeforeImpliesEarlier(b, a);
  }

  lemma BeforeImpliesEarlier(a: Civil, b: Civil)
    requires Valid(a) && Valid(b)
    ensures Before(a, b) ==> DayNumber(a) < DayNumber(b)
  {
    YearStep(a.year);
    MonthsInOrder(a.month + 1, 13, Leap(a.year));
    MonthsInOrder(1, b.month, Leap(b.year));
    if a.year < b.year { YearsApart(a.year + 1, b.year); }
    else if a.year == b.year && a.month < b.month { MonthsInOrder(a.month + 1, b.month, Leap(a.year)); }
  }

  /** A day of the calendar is recovered from its day number. */
  lemma CivilOfDay(c: Civil)
    requires Valid(c)
    ensures CivilFromDay(DayNumber(c)) == c
  {
    var d := CivilFromDay(DayNumber(c));
    DayOfCivil(DayNumber(c));
    BeforeIsDayOrder(c, d);
    BeforeIsDayOrder(d, c);
  }
}
