/** Calendar dates as `YYYY-MM-DD` text, and arithmetic on them (packages/schema/src/recurrence.ts). */
module LocalDates {
  import opened Text
  import opened Calendar

  type LocalDate = string

  /** The day number of `Date.UTC(year, month, day)`, which reads years 0..99 as 1900..1999. */
  function UtcDay(year: int, month: int, day: int): int {
    MakeDay(if 0 <= year <= 99 then 1900 + year else year, month, day)
  }

  predicate InDateRange(day: int) { -MAX_DATE_DAYS <= day <= MAX_DATE_DAYS }

  predicate DateShape(value: string) {
    |value| == 10 && AllDigits(value[..4]) && value[4] == '-' && AllDigits(value[5..7]) && value[7] == '-'
    && AllDigits(value[8..])
  }

  function DateParts(value: string): Civil
    requires DateShape(value)
  {
    Civil(ParseDecimal(value[..4]), ParseDecimal(value[5..7]), ParseDecimal(value[8..]))
  }

  predicate IsLocalDate(value: string) {
    DateShape(value)
    && var p := DateParts(value);
       CivilFromDay(UtcDayOf(p)) == p
  }

  function Pad(n: int, width: nat): string { PadStart(IntText(n), width) }

  function ToLocalDate(c: Civil): LocalDate {
    Pad(c.year, 4) + "-" + Pad(c.month, 2) + "-" + Pad(c.day, 2)
  }

  /** What `toLocalDate` writes for a `Date` that holds no instant. */
  const INVALID_DATE: LocalDate := "0NaN-NaN-NaN"

  function AddDaysLocal(date: LocalDate, days: int): LocalDate
    requires IsLocalDate(date)
  {
    DayText(UtcDayOf(DateParts(date)) + days)
  }

  function UtcDayOf(p: Civil): int { UtcDay(p.year, p.month - 1, p.day) }

  /** `toLocalDate` of the `Date` on day `n`. */
  function DayText(n: int): LocalDate {
    if InDateRange(n) then ToLocalDate(CivilFromDay(n)) else INVALID_DATE
  }

  function AddMonthsLocal(date: LocalDate, months: int): Option<LocalDate>
    requires IsLocalDate(date)
  {
    var target := MonthTarget(DateParts(date), months);
    if !InDateRange(UtcDayOf(target)) then None
    else
      var probe := CivilFromDay(UtcDayOf(target));
      if probe.month != target.month then None else Some(ToLocalDate(probe))
  }

  /** The month `months` after that of `c`, with the day of `c` whether or not it exists there. */
  function MonthTarget(c: Civil, months: int): (t: Civil)
    ensures 1 <= t.month <= 12
  {
    Civil(c.year + (c.month - 1 + months) / 12, (c.month - 1 + months) % 12 + 1, c.day)
  }

  // ------------------------------------------------------------ text of a date

  predicate FourDigitYear(c: Civil) { 100 <= c.year <= 9999 }

  lemma Pow10Values()
    ensures Pow10(2) == 100 && Pow10(4) == 10000
  {
    assert Pow10(1) == 10;
    assert Pow10(3) == 1000;
  }

  lemma MonthLengthBounds(y: int, m: int)
    requires 1 <= m <= 12
    ensures 28 <= MonthLength(y, m) <= 31
  {}

  lemma TextOfParts(c: Civil)
    requires Valid(c) && 0 <= c.year <= 9999
    ensures DateShape(ToLocalDate(c)) && DateParts(ToLocalDate(c)) == c
  {
    Pow10Values();
    MonthLengthBounds(c.year, c.month);
    PadRoundTrip(c.year, 4); PadRoundTrip(c.month, 2); PadRoundTrip(c.day, 2);
    DateFields(Pad(c.year, 4), Pad(c.month, 2), Pad(c.day, 2));
  }

  lemma PadRoundTrip(n: nat, w: nat)
    requires 0 < w && n < Pow10(w)
    ensures Pad(n, w) == Digits(n, w) && ParseDecimal(Digits(n, w)) == n
  {
    PadFits(n, w);
    ParseOfDigits(n, w);
  }

  lemma DateFields(y: string, m: string, d: string)
    requires |y| == 4 && |m| == 2 && |d| == 2 && AllDigits(y) && AllDigits(m) && AllDigits(d)
    ensures var s := y + "-" + m + "-" + d;
      DateShape(s) && DateParts(s) == Civil(ParseDecimal(y), ParseDecimal(m), ParseDecimal(d))
  {
    var s := y + "-" + m + "-" + d;
    assert s[..4] == y && s[5..7] == m && s[8..] == d;
  }

  lemma PartsOfText(value: string)
    requires DateShape(value)
    requires Valid(DateParts(value))
    ensures 0 <= DateParts(value).year <= 9999 && ToLocalDate(DateParts(value)) == value
  {
    var c := DateParts(value);
    PartsAreSmall(value);
    Pow10Values();
    PadRoundTrip(c.year, 4); PadRoundTrip(c.month, 2); PadRoundTrip(c.day, 2);
    Halves(value);
  }

  lemma PartsAreSmall(value: string)
    requires DateShape(value)
    ensures 0 <= DateParts(value).year <= 9999
    ensures 0 <= DateParts(value).month <= 99 && 0 <= DateParts(value).day <= 99
    ensures Digits(DateParts(value).year, 4) == value[..4]
    ensures Digits(DateParts(value).month, 2) == value[5..7]
    ensures Digits(DateParts(value).day, 2) == value[8..]
  {
    Pow10Values();
    DigitsOfParse(value[..4]); DigitsOfParse(value[5..7]); DigitsOfParse(value[8..]);
  }

  lemma Halves(value: string)
    requires DateShape(value)
    ensures value == value[..4] + "-" + value[5..7] + "-" + value[8..]
  {}

  /** The probe of `isLocalDate` on numeric parts: overflowing days and months and the years
      that `Date.UTC` moves to the twentieth century all fail it. */
  lemma ProbeIff(p: Civil)
    requires p.year >= 0
    ensures CivilFromDay(UtcDayOf(p)) == p <==> Valid(p) && p.year >= 100
  {
    DayOfCivil(UtcDayOf(p));
    if Valid(p) {
      UtcDayOfMonth(p);
      if p.year >= 100 { CivilOfDay(p); } else { EarlyYearMoves(p); }
    }
  }

  lemma EarlyYearMoves(p: Civil)
    requires Valid(p) && p.year <= 99
    ensures DayNumber(p) < DayNumber(p.(year := 1900 + p.year))
  {
    DayWithinYear(p);
    MonthsInOrder(1, p.month, Leap(1900 + p.year));
    YearsApart(p.year + 1, 1900 + p.year);
  }

  /** `Date.UTC` of a month that does not overflow. */
  lemma UtcDayOfMonth(p: Civil)
    requires 1 <= p.month <= 12
    ensures UtcDayOf(p) == DayNumber(if 0 <= p.year <= 99 then p.(year := 1900 + p.year) else p)
  {}

  lemma DayWithinYear(p: Civil)
    requires Valid(p)
    ensures DayFromYear(p.year) <= DayNumber(p) < DayFromYear(p.year + 1)
  {
    YearStep(p.year);
    MonthsInOrder(1, p.month, Leap(p.year));
    MonthsInOrder(p.month + 1, 13, Leap(p.year));
  }

  /** `isLocalDate` accepts exactly the days of the calendar in the years 100 to 9999. */
  lemma IsLocalDateIff(value: string)
    ensures IsLocalDate(value) <==>
      DateShape(value) && Valid(DateParts(value)) && FourDigitYear(DateParts(value))
  {
    if DateShape(value) {
      PartsAreSmall(value);
      ProbeIff(DateParts(value));
    }
  }

  /** The text of a calendar day is a local date exactly when its year is 100 to 9999. */
  lemma TextIsLocalDate(c: Civil)
    requires Valid(c)
    ensures IsLocalDate(ToLocalDate(c)) <==> FourDigitYear(c)
  {
    var s := ToLocalDate(c);
    IsLocalDateIff(s);
    if 0 <= c.year <= 9999 { TextOfParts(c); }
    else { OddYearShape(c); }
  }

  lemma ParseTwo(s: string)
    requires |s| == 2 && AllDigits(s)
    ensures ParseDecimal(s) == 10 * DigitValue(s[0]) + DigitValue(s[1])
  {
    assert s[..1][..0] == [] && s[..1][0] == s[0] && ParseDecimal(s[..1][..0]) == 0;
    assert ParseDecimal(s[..1]) == DigitValue(s[0]);
  }

  lemma ParseFour(s: string)
    requires |s| == 4 && AllDigits(s)
    ensures ParseDecimal(s) == 1000 * DigitValue(s[0]) + 100 * DigitValue(s[1]) + 10 * DigitValue(s[2]) + DigitValue(s[3])
  {
    assert s[..3][..2] == s[..2];
    ParseTwo(s[..2]);
    assert ParseDecimal(s[..3]) == 10 * ParseDecimal(s[..2]) + DigitValue(s[2]);
  }

  /** A date that is written out. */
  lemma WrittenDate(y: string, m: string, d: string, c: Civil)
    requires |y| == 4 && |m| == 2 && |d| == 2 && AllDigits(y) && AllDigits(m) && AllDigits(d)
    requires c == Civil(ParseDecimal(y), ParseDecimal(m), ParseDecimal(d)) && Valid(c) && FourDigitYear(c)
    ensures IsLocalDate(y + "-" + m + "-" + d) && DateParts(y + "-" + m + "-" + d) == c
  {
    DateFields(y, m, d);
    IsLocalDateIff(y + "-" + m + "-" + d);
  }

  lemma OddYearShape(c: Civil)
    requires Valid(c) && !(0 <= c.year <= 9999)
    ensures !DateShape(ToLocalDate(c))
  {
    Pow10Values();
    MonthLengthBounds(c.year, c.month);
    PadFits(c.month, 2); PadFits(c.day, 2);
    var s, y := ToLocalDate(c), IntText(c.year);
    PadKeeps(y, 4);
    assert |s| == |Pad(c.year, 4)| + 6;
    if c.year < 0 {
      assert y[0] == '-';
      if |s| == 10 { assert s[..4] == Pad(c.year, 4); assert s[4 - |y|] == '-'; assert !IsDigit(s[..4][4 - |y|]); }
    } else {
      DecimalIsDigits(c.year);
      if |y| <= 4 { Pow10Monotone(|y|, 4); }
    }
  }

  lemma {:induction false} PadKeeps(s: string, w: nat)
    ensures |PadStart(s, w)| == (if |s| >= w then |s| else w)
    ensures PadStart(s, w)[|PadStart(s, w)| - |s|..] == s
    decreases w - |s|
  {
    if |s| < w {
      PadKeeps("0" + s, w);
      var p := PadStart("0" + s, w);
      assert p[|p| - |s|..] == p[|p| - |s| - 1..][1..];
    }
  }

  lemma {:induction false} Pow10Monotone(a: nat, b: nat)
    requires a <= b
    ensures Pow10(a) <= Pow10(b)
    decreases b - a
  {
    if a < b { Pow10Monotone(a, b - 1); }
  }

  /** The day number a local date stands for. */
  function DayOf(date: LocalDate): int
    requires IsLocalDate(date)
  {
    IsLocalDateIff(date);
    DayNumber(DateParts(date))
  }

  /** String order on local dates is chronological order. */
  lemma DateOrder(a: LocalDate, b: LocalDate)
    requires IsLocalDate(a) && IsLocalDate(b)
    ensures Less(a, b) <==> DayOf(a) < DayOf(b)
    ensures a == b <==> DayOf(a) == DayOf(b)
  {
    IsLocalDateIff(a); IsLocalDateIff(b);
    var p, q := DateParts(a), DateParts(b);
    BeforeIsDayOrder(p, q); BeforeIsDayOrder(q, p);
    PartsOfText(a); PartsOfText(b);
    TextOrder(a, b);
  }

  lemma TextOrder(a: LocalDate, b: LocalDate)
    requires DateShape(a) && DateShape(b)
    ensures Less(a, b) <==> Before(DateParts(a), DateParts(b))
  {
    Halves(a); Halves(b);
    var ap, bp := a[5..7] + "-" + a[8..], b[5..7] + "-" + b[8..];
    assert a == a[..4] + "-" + ap && b == b[..4] + "-" + bp;
    DashOrder(a[..4], b[..4], ap, bp);
    DashOrder(a[5..7], b[5..7], a[8..], b[8..]);
    FieldOrder(a[..4], b[..4]);
    FieldOrder(a[5..7], b[5..7]);
    FieldOrder(a[8..], b[8..]);
  }

  lemma FieldOrder(a: string, b: string)
    requires AllDigits(a) && AllDigits(b) && |a| == |b|
    ensures Less(a, b) <==> ParseDecimal(a) < ParseDecimal(b)
    ensures a == b <==> ParseDecimal(a) == ParseDecimal(b)
  {
    DigitsOfParse(a); DigitsOfParse(b);
    DigitsOrder(ParseDecimal(a), ParseDecimal(b), |a|);
  }

  lemma DashOrder(a: string, b: string, c: string, d: string)
    requires |a| == |b|
    ensures Less(a + "-" + c, b + "-" + d) <==> Less(a, b) || (a == b && Less(c, d))
  {
    assert a + "-" + c == a + ("-" + c) && b + "-" + d == b + ("-" + d);
    LessByPrefix(a, b, "-" + c, "-" + d);
    LessByPrefix("-", "-", c, d);
  }

  // ------------------------------------------------------------- day arithmetic

  /** The day numbers of 0100-01-01 and 9999-12-31. */
  const MIN_DAY: int := -683_003
  const MAX_DAY: int := 2_932_896

  lemma WindowEdges()
    ensures DayFromYear(100) == MIN_DAY && DayFromYear(10_000) == MAX_DAY + 1
  {
    DayFromYearFormula(100);
    DayFromYearFormula(10_000);
  }

  lemma YearWindow(c: Civil)
    requires Valid(c)
    ensures FourDigitYear(c) <==> MIN_DAY <= DayNumber(c) <= MAX_DAY
  {
    DayWithinYear(c);
    WindowEdges();
    if c.year < 100 { YearsApart(c.year + 1, 100); } else { YearsApart(100, c.year); }
    if c.year < 10_000 { YearsApart(c.year + 1, 10_000); } else { YearsApart(10_000, c.year); }
  }

  lemma DateBounds(date: LocalDate)
    requires IsLocalDate(date)
    ensures Valid(DateParts(date)) && FourDigitYear(DateParts(date))
    ensures MIN_DAY <= DayOf(date) <= MAX_DAY
    ensures UtcDayOf(DateParts(date)) == DayOf(date)
  {
    IsLocalDateIff(date);
    YearWindow(DateParts(date));
    UtcDayOfMonth(DateParts(date));
  }

  lemma AddDaysText(date: LocalDate, days: int)
    requires IsLocalDate(date)
    ensures AddDaysLocal(date, days) == DayText(DayOf(date) + days)
  {
    DateBounds(date);
  }

  /** The text of a day is a local date exactly in the years 100 to 9999. */
  lemma DayTextIsLocalDate(n: int)
    ensures IsLocalDate(DayText(n)) <==> MIN_DAY <= n <= MAX_DAY
    ensures IsLocalDate(DayText(n)) ==> DateParts(DayText(n)) == CivilFromDay(n) && DayOf(DayText(n)) == n
  {
    var c := CivilFromDay(n);
    DayOfCivil(n);
    YearWindow(c);
    TextIsLocalDate(c);
    if FourDigitYear(c) { TextOfParts(c); }
    assert !DateShape(INVALID_DATE);
  }

  /** Adding days adds to the day number, and leaves the years 100 to 9999 exactly when the text
      is no longer a local date. */
  lemma AddDaysIsDayArithmetic(date: LocalDate, days: int)
    requires IsLocalDate(date)
    ensures IsLocalDate(AddDaysLocal(date, days)) <==> MIN_DAY <= DayOf(date) + days <= MAX_DAY
    ensures IsLocalDate(AddDaysLocal(date, days)) ==> DayOf(AddDaysLocal(date, days)) == DayOf(date) + days
  {
    AddDaysText(date, days);
    TextOfDay(AddDaysLocal(date, days), DayOf(date) + days);
  }

  lemma TextOfDay(r: string, n: int)
    requires r == DayText(n)
    ensures IsLocalDate(r) <==> MIN_DAY <= n <= MAX_DAY
    ensures IsLocalDate(r) ==> DayOf(r) == n
  {
    DayTextIsLocalDate(n);
  }

  /** Adding days twice is adding their sum. */
  lemma AddDaysAdditive(date: LocalDate, a: int, b: int)
    requires IsLocalDate(date) && IsLocalDate(AddDaysLocal(date, a))
    ensures AddDaysLocal(AddDaysLocal(date, a), b) == AddDaysLocal(date, a + b)
  {
    AddDaysIsDayArithmetic(date, a);
    AddDaysText(date, a + b);
    AddDaysText(AddDaysLocal(date, a), b);
  }

  // ----------------------------------------------------------- month arithmetic

  function MonthIndex(c: Civil): int { 12 * c.year + c.month - 1 }

  lemma TargetMonthIndex(c: Civil, months: int)
    ensures MonthIndex(MonthTarget(c, months)) == MonthIndex(c) + months
  {}

  lemma OverflowingDay(c: Civil)
    requires 1 <= c.month <= 12 && 1 <= c.day <= 31 && !Valid(c)
    ensures CivilFromDay(DayNumber(c)).month == c.month + 1
  {
    var next := Civil(c.year, c.month + 1, c.day - MonthLength(c.year, c.month));
    MonthLengthBounds(c.year, c.month);
    MonthLengthBounds(c.year, c.month + 1);
    assert DayNumber(c) == DayNumber(next);
    CivilOfDay(next);
  }

  /** A month step keeps the day of the month, or skips a month without it (RFC 5545, section 3.3.10) or past what a `Date` holds. */
  lemma AddMonthsIff(date: LocalDate, months: int)
    requires IsLocalDate(date) && MonthTarget(DateParts(date), months).year >= 100
    ensures var t := MonthTarget(DateParts(date), months);
      AddMonthsLocal(date, months) == if Valid(t) && InDateRange(DayNumber(t)) then Some(ToLocalDate(t)) else None
  {
    DateBounds(date);
    MonthLengthBounds(DateParts(date).year, DateParts(date).month);
    ProbeTarget(MonthTarget(DateParts(date), months));
  }

  /** Up to the year 270000 every month is within what a `Date` holds. */
  lemma AddMonthsKeepsDay(date: LocalDate, months: int)
    requires IsLocalDate(date)
    requires 100 <= MonthTarget(DateParts(date), months).year <= 270_000
    ensures var t := MonthTarget(DateParts(date), months);
      AddMonthsLocal(date, months) == if Valid(t) then Some(ToLocalDate(t)) else None
  {
    DateBounds(date);
    AddMonthsIff(date, months);
    MonthLengthBounds(DateParts(date).year, DateParts(date).month);
    YearInRange(MonthTarget(DateParts(date), months));
  }

  lemma ProbeTarget(t: Civil)
    requires t.year >= 100 && 1 <= t.month <= 12 && 1 <= t.day <= 31
    ensures UtcDayOf(t) == DayNumber(t)
    ensures if Valid(t) then CivilFromDay(UtcDayOf(t)) == t else CivilFromDay(UtcDayOf(t)).month != t.month
  {
    UtcDayOfMonth(t);
    if Valid(t) { CivilOfDay(t); } else { OverflowingDay(t); }
  }

  lemma YearInRange(t: Civil)
    requires 100 <= t.year <= 270_000 && 1 <= t.month <= 12 && 1 <= t.day <= 31
    ensures InDateRange(DayNumber(t))
  {
    DayFromYearFormula(t.year);
  }
}
