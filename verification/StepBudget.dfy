/** How many occurrences the step budget of `expandRecurrence` finds (packages/schema/src/recurrence.ts). */
module StepBudget {
  import opened Text
  import opened Calendar
  import opened LocalDates
  import opened Recurrence
  import opened RecurrenceTheorems

  // -------------------------------------------------- months that have the start day

  /** 29 February of a year divisible by 400, every 300, 900, 1500, ... months. */
  predicate Rare(c: Civil, interval: int) {
    c.month == 2 && c.day == 29 && c.year % 400 == 0 && interval % 600 == 300
  }

  predicate HasDay(c: Civil, months: int) { Calendar.Valid(MonthTarget(c, months)) }

  lemma WholeYears(c: Civil, years: int)
    requires 1 <= c.month <= 12
    ensures MonthTarget(c, 12 * years) == c.(year := c.year + years)
  {}

  lemma NotFebruary(y: int, z: int, m: int)
    requires 1 <= m <= 12 && m != 2
    ensures MonthLength(y, m) == MonthLength(z, m) >= 30
  {}

  /** Every twelfth step is back in the month of the start. */
  lemma YearlyHit(c: Civil, k: nat, m: nat)
    requires Calendar.Valid(c) && c.month != 2
    ensures HasDay(c, (12 * m) * k)
  {
    assert (12 * m) * k == 12 * (m * k);
    WholeYears(c, m * k);
    NotFebruary(c.year, c.year + m * k, c.month);
  }

  lemma NextMonth(a: int, k: int)
    requires k % 12 != 0
    ensures (1 + a) % 12 != 1 || (1 + a + k) % 12 != 1
  {}

  /** Unless the interval is a whole number of years, one of two steps is not in February. */
  lemma OutsideFebruary(c: Civil, k: nat, s: nat)
    requires c.month == 2 && c.day == 29 && k % 12 != 0
    ensures HasDay(c, s * k) || HasDay(c, (s + 1) * k)
  {
    assert (s + 1) * k == s * k + k;
    NextMonth(s * k, k);
    NotFebruaryTarget(c, s * k);
    NotFebruaryTarget(c, s * k + k);
  }

  lemma NotFebruaryTarget(c: Civil, months: int)
    requires c.month == 2 && c.day == 29
    ensures (1 + months) % 12 != 1 ==> HasDay(c, months)
  {
    var t := MonthTarget(c, months);
    if t.month != 2 { NotFebruary(t.year, t.year, t.month); }
  }

  lemma LeapDayTarget(c: Civil, years: int)
    requires c.month == 2 && c.day == 29
    ensures HasDay(c, 12 * years) <==> Leap(c.year + years)
  {
    WholeYears(c, years);
  }

  /** Of two years that are `4 * j` years apart, one is a leap year. */
  lemma LeapEveryEight(y: int, j: int)
    requires y % 4 == 0 && j % 25 != 0
    ensures Leap(y) || Leap(y + 4 * j)
  {
    Mod4(y / 4 + j, 0);
    if y % 100 == 0 && (y + 4 * j) % 100 == 0 {
      assert j == 25 * ((y + 4 * j) / 100 - y / 100);
      Mod25((y + 4 * j) / 100 - y / 100);
    }
  }

  lemma Mod25(q: int)
    ensures (25 * q) % 25 == 0
  {}

  lemma Mod4(q: int, r: int)
    requires 0 <= r < 4
    ensures (4 * q + r) % 4 == r
  {}

  lemma Mod100(q: int, r: int)
    requires 0 <= r < 100
    ensures (100 * q + r) % 100 == r
  {}

  lemma Mod400(q: int, r: int)
    requires 0 <= r < 400
    ensures (400 * q + r) % 400 == r
  {}

  /** Steps of whole centuries from a year that is not one never meet one. */
  lemma CenturySteps(y: int, n: int)
    ensures (y + 100 * n) % 100 == y % 100 && (y + 100 * n) % 4 == y % 4
  {
    Mod100(y / 100 + n, y % 100);
    Mod4(y / 4 + 25 * n, y % 4);
    assert y + 100 * n == 100 * (y / 100 + n) + y % 100;
    assert y + 100 * n == 4 * (y / 4 + 25 * n) + y % 4;
  }

  lemma FourCenturySteps(y: int, n: int)
    ensures (y + 400 * n) % 400 == y % 400
  {
    Mod400(y / 400 + n, y % 400);
    assert y + 400 * n == 400 * (y / 400 + n) + y % 400;
  }

  /** The first multiple of `d` from `s` on, divided by `d`. */
  function Above(s: nat, d: nat): nat
    requires d > 0
  {
    (s + d - 1) / d
  }

  lemma AboveBounds(s: nat)
    ensures s <= 4 * Above(s, 4) < s + 4 && s <= 8 * Above(s, 8) < s + 8 && s <= 12 * Above(s, 12) < s + 12
  {}

  lemma FourTimes(m: int, j: int)
    ensures (4 * m) * j == 4 * (m * j) && (4 * m + 4) * j == 4 * (m * j) + 4 * j
  {}

  lemma LeapOfTwo(y: int, k: int, j: int)
    requires Leap(y) && j % 25 != 0
    ensures Leap(y + 4 * k) || Leap(y + 4 * k + 4 * j)
  {
    Mod4(y / 4 + k, y % 4);
    LeapEveryEight(y + 4 * k, j);
  }

  /** A leap day every `j` years, `j` no multiple of 25. */
  lemma LeapDayHit(c: Civil, j: nat, s: nat) returns (t: nat)
    requires Calendar.Valid(c) && c.month == 2 && c.day == 29 && j % 25 != 0
    ensures s <= t < s + 12 && Leap(c.year + t * j)
  {
    var m := Above(s, 4);
    AboveBounds(s);
    FourTimes(m, j);
    LeapOfTwo(c.year, m * j, j);
    t := if Leap(c.year + (4 * m) * j) then 4 * m else 4 * m + 4;
  }

  /** A leap day every `25 * i` years: the year is no century, or `i` is even. */
  lemma CenturyHit(c: Civil, i: nat, s: nat) returns (t: nat)
    requires Calendar.Valid(c) && c.month == 2 && c.day == 29
    requires c.year % 100 != 0 || i % 2 == 0
    ensures s <= t < s + 12 && Leap(c.year + t * (25 * i))
  {
    AboveBounds(s);
    if c.year % 100 != 0 {
      var m := Above(s, 4);
      t := 4 * m;
      assert (4 * m) * (25 * i) == 100 * (m * i);
      CenturySteps(c.year, m * i);
    } else {
      var m := Above(s, 8);
      t := 8 * m;
      assert i == 2 * (i / 2);
      assert (8 * m) * (25 * i) == 400 * (m * (i / 2));
      FourCenturySteps(c.year, m * (i / 2));
      CenturyNests(c.year + 400 * (m * (i / 2)));
    }
  }

  lemma RareInterval(k: int)
    requires k % 300 == 0
    ensures k % 600 == 300 <==> (k / 300) % 2 != 0
  {}

  lemma YearsOfInterval(k: nat)
    requires k % 12 == 0
    ensures k == 12 * (k / 12)
    ensures (k / 12) % 25 == 0 ==> k % 300 == 0 && k / 12 == 25 * (k / 300)
  {
    if (k / 12) % 25 == 0 {
      var q := k / 12 / 25;
      assert k == 300 * q;
    }
  }

  lemma OrdinaryHit(c: Civil, k: nat, s: nat) returns (t: nat)
    requires Calendar.Valid(c) && (c.month != 2 || c.day <= 28)
    ensures s <= t < s + 12 && HasDay(c, t * k)
  {
    if c.month != 2 {
      AboveBounds(s);
      t := 12 * Above(s, 12);
      YearlyHit(c, k, Above(s, 12));
    } else {
      t := s;
      MonthLengthBounds(MonthTarget(c, s * k).year, MonthTarget(c, s * k).month);
    }
  }

  lemma YearlyLeapDay(c: Civil, k: nat, t: nat)
    requires c.month == 2 && c.day == 29 && k % 12 == 0 && Leap(c.year + t * (k / 12))
    ensures HasDay(c, t * k)
  {
    YearsOfInterval(k);
    assert t * (12 * (k / 12)) == 12 * (t * (k / 12));
    LeapDayTarget(c, t * (k / 12));
  }

  /** Outside the rare family, any twelve consecutive steps contain a month that has the start day. */
  lemma HitInTwelve(c: Civil, k: nat, s: nat) returns (t: nat)
    requires Calendar.Valid(c) && k >= 1 && !Rare(c, k)
    ensures s <= t < s + 12 && HasDay(c, t * k)
  {
    if c.month != 2 || c.day <= 28 {
      t := OrdinaryHit(c, k, s);
    } else if k % 12 != 0 {
      OutsideFebruary(c, k, s);
      t := if HasDay(c, s * k) then s else s + 1;
    } else {
      t := LeapYearHit(c, k, s);
      YearlyLeapDay(c, k, t);
    }
  }

  lemma LeapYearHit(c: Civil, k: nat, s: nat) returns (t: nat)
    requires Calendar.Valid(c) && c.month == 2 && c.day == 29 && k % 12 == 0 && !Rare(c, k)
    ensures s <= t < s + 12 && Leap(c.year + t * (k / 12))
  {
    YearsOfInterval(k);
    if (k / 12) % 25 != 0 {
      t := LeapDayHit(c, k / 12, s);
    } else {
      RareInterval(k);
      CenturyNests(c.year);
      t := CenturyHit(c, k / 300, s);
    }
  }

  // -------------------------------------------------------------- the rare family

  lemma SixteenthsOdd(r: nat, e: nat)
    requires 0 < r < 16 && e % 2 == 1
    ensures (r * e) % 16 != 0
  {
    var f := e % 16;
    assert e == 16 * (e / 16) + f;
    assert r * e == 16 * (r * (e / 16)) + r * f;
    Mod16(r * (e / 16), r * f);
    assert f == 1 || f == 3 || f == 5 || f == 7 || f == 9 || f == 11 || f == 13 || f == 15;
  }

  lemma Mod16(q: int, n: int)
    ensures (16 * q + n) % 16 == n % 16
  {}

  lemma RareYear(y: int, w: int)
    requires y % 400 == 0
    ensures Leap(y + 25 * w) <==> w % 16 == 0
  {
    var u := w % 16;
    assert y + 25 * w == 400 * (y / 400 + w / 16) + 25 * u;
    Mod400(y / 400 + w / 16, 25 * u);
    CenturyNests(y + 25 * w);
    Mod100(4 * (y / 400 + w / 16) + 25 * u / 100, 25 * u % 100);
    Mod4(100 * (y / 400 + w / 16) + 25 * u / 4, 25 * u % 4);
  }

  lemma RareProduct(i: nat, t: nat)
    requires i % 2 == 1
    ensures (t * i) % 16 == 0 <==> t % 16 == 0
  {
    var q, r := t / 16, t % 16;
    assert t * i == 16 * (q * i) + r * i;
    Mod16(q * i, r * i);
    if r > 0 { SixteenthsOdd(r, i); }
  }

  /** In the rare family exactly every sixteenth step has the start day. */
  lemma RareHits(c: Civil, k: nat, t: nat)
    requires Rare(c, k)
    ensures HasDay(c, t * k) <==> t % 16 == 0
  {
    var i := k / 300;
    assert k == 300 * i && i % 2 == 1;
    assert t * k == 12 * (25 * (t * i)) by { assert t * (300 * i) == 300 * (t * i); }
    LeapDayTarget(c, 25 * (t * i));
    RareYear(c.year, t * i);
    RareProduct(i, t);
  }

  // -------------------------------------------------------------------- counting

  /** No month that the budget reaches is beyond what a `Date` can hold. */
  predicate WithinDate(rule: Rule)
    requires rule.Valid()
  {
    rule.freq == Monthly ==> MonthTarget(DateParts(rule.start), rule.MaxSteps() * rule.interval).year <= 270_000
  }

  lemma EarlierTarget(c: Civil, m: nat, n: nat)
    requires m <= n && 1 <= c.month <= 12
    ensures c.year <= MonthTarget(c, m).year <= MonthTarget(c, n).year
  {}

  /** The steps of the budget that have a date. */
  lemma DatedIff(rule: Rule, step: nat)
    requires rule.Valid() && WithinDate(rule) && step < rule.MaxSteps()
    ensures WalkOf(rule).dateOf(step).Some? <==>
      (rule.freq == Monthly ==> HasDay(DateParts(rule.start), step * rule.interval))
  {
    if rule.freq == Monthly {
      DateBounds(rule.start);
      Products(step, rule.MaxSteps(), rule.interval);
      EarlierTarget(DateParts(rule.start), step * rule.interval, rule.MaxSteps() * rule.interval);
      assert rule.Shift(step) == step * rule.interval;
      AddMonthsKeepsDay(rule.start, step * rule.interval);
    }
  }

  /** The family whose dates come only every sixteenth step. */
  predicate RareRule(rule: Rule)
    requires rule.Valid()
  {
    rule.freq == Monthly && Rare(DateParts(rule.start), rule.interval)
  }

  lemma DateInTwelve(rule: Rule, s: nat) returns (t: nat)
    requires rule.Valid() && WithinDate(rule) && !RareRule(rule) && s + 12 <= rule.MaxSteps()
    ensures s <= t < s + 12 && WalkOf(rule).dateOf(t).Some?
  {
    DateBounds(rule.start);
    t := s;
    if rule.freq == Monthly { t := HitInTwelve(DateParts(rule.start), rule.interval, s); }
    DatedIff(rule, t);
  }

  lemma BlockHit(rule: Rule, s: nat)
    requires rule.Valid() && WithinDate(rule) && !RareRule(rule) && s + 12 <= rule.MaxSteps()
    ensures WalkOf(rule).Hits(s, s + 12) >= 1
  {
    var t := DateInTwelve(rule, s);
    WalkOf(rule).HitCounts(s, s + 12, t);
  }

  lemma {:induction false} HitsPerTwelve(rule: Rule, k: nat)
    requires rule.Valid() && WithinDate(rule) && !RareRule(rule) && k * 12 <= rule.MaxSteps()
    ensures WalkOf(rule).Hits(0, k * 12) >= k
  {
    if k > 0 {
      HitsPerTwelve(rule, k - 1);
      BlockHit(rule, k * 12 - 12);
      WalkOf(rule).HitsSplit(0, k * 12 - 12, k * 12);
    }
  }

  lemma {:induction false} HitsPerSixteen(rule: Rule, a: nat)
    requires rule.Valid() && WithinDate(rule) && RareRule(rule) && a <= rule.MaxSteps()
    ensures WalkOf(rule).Hits(a, rule.MaxSteps()) == (rule.MaxSteps() + 15) / 16 - (a + 15) / 16
    decreases rule.MaxSteps() - a
  {
    if a < rule.MaxSteps() {
      HitsPerSixteen(rule, a + 1);
      DatedIff(rule, a);
      RareHits(DateParts(rule.start), rule.interval, a);
      Sixteenth(a);
    }
  }

  lemma Sixteenth(a: int)
    ensures (a + 16) / 16 - (a + 15) / 16 == if a % 16 == 0 then 1 else 0
  {}

  lemma BudgetOfCount(rule: Rule)
    requires rule.Valid() && rule.until == None && WithinDate(rule)
    ensures |WalkOf(rule).Chosen(0, 0)| ==
      if RareRule(rule) && rule.count >= 10 then (12 * rule.count + 39) / 16 else rule.count
  {
    WalkOf(rule).ChosenCount(0, 0);
    BudgetHits(rule);
  }

  lemma BudgetHits(rule: Rule)
    requires rule.Valid() && WithinDate(rule)
    ensures RareRule(rule) ==> WalkOf(rule).Hits(0, rule.MaxSteps()) == (12 * rule.count + 39) / 16
    ensures !RareRule(rule) ==> WalkOf(rule).Hits(0, rule.MaxSteps()) >= rule.count
  {
    if RareRule(rule) {
      HitsPerSixteen(rule, 0);
    } else {
      HitsPerTwelve(rule, rule.count);
      WalkOf(rule).HitsSplit(0, rule.count * 12, rule.MaxSteps());
    }
  }

  /** An open-ended series whose months a `Date` can hold has exactly `count` occurrences, except in the rare family from
      ten on, where the budget ends at every sixteenth step. */
  lemma BudgetWithinDate(spec: RecurrenceSpec, rule: Rule, out: seq<Occurrence>)
    requires ExpandsTo(spec, rule, out) && rule.until == None && WithinDate(rule)
    ensures |out| == rule.count <==> !(RareRule(rule) && rule.count >= 10)
    ensures RareRule(rule) && rule.count >= 10 ==> |out| == (12 * rule.count + 39) / 16
  {
    BudgetOfCount(rule);
    WalkOf(rule).ChosenAreDated(0, 0);
  }

  // ------------------------------------------------------------------ success

  /** Every date that the rule can name before it ends is in the years 100 to 9999. */
  predicate WithinYears(rule: Rule)
    requires rule.Valid()
  {
    if rule.freq == Monthly then MonthTarget(DateParts(rule.start), rule.MaxSteps() * rule.interval).year <= 9999
    else DayOf(rule.start) + rule.Shift(rule.count) <= MAX_DAY
  }

  lemma MonthlyDateIsLocal(rule: Rule, step: nat)
    requires rule.Valid() && WithinYears(rule) && rule.freq == Monthly && step < rule.MaxSteps()
    ensures rule.StepDate(step).Some? ==> IsLocalDate(rule.StepDate(step).value)
  {
    var c := DateParts(rule.start);
    DateBounds(rule.start);
    Products(step, rule.MaxSteps(), rule.interval);
    EarlierTarget(c, step * rule.interval, rule.MaxSteps() * rule.interval);
    assert rule.Shift(step) == step * rule.interval;
    AddMonthsKeepsDay(rule.start, step * rule.interval);
    if HasDay(c, step * rule.interval) { TextIsLocalDate(MonthTarget(c, step * rule.interval)); }
  }

  lemma DailyDateIsLocal(rule: Rule, step: nat)
    requires rule.Valid() && WithinYears(rule) && rule.freq != Monthly && step < rule.count
    ensures rule.StepDate(step).Some? && IsLocalDate(rule.StepDate(step).value)
  {
    DateBounds(rule.start);
    ShiftFacts(rule, step, rule.count);
    AddDaysIsDayArithmetic(rule.start, rule.Shift(step));
  }

  /** A rule within the years 100 to 9999 expands without an error. */
  lemma ExpansionSucceeds(rule: Rule)
    requires rule.Valid() && WithinYears(rule)
    ensures WalkOf(rule).Expansion().Ok?
  {
    var w := WalkOf(rule);
    var steps := w.Chosen(0, 0);
    w.ChosenAreDated(0, 0);
    w.ChosenInOrder(0, 0);
    if rule.freq != Monthly { w.ChosenDense(0, 0); }
    forall i | 0 <= i < |steps| ensures w.make(w.dateOf(steps[i]).value, 0 + i).Ok? {
      if rule.freq == Monthly { MonthlyDateIsLocal(rule, steps[i]); } else { DailyDateIsLocal(rule, steps[i]); }
      OccurrenceFacts(rule, w.dateOf(steps[i]).value, i);
    }
    w.AllMade(steps, 0);
  }

  /** Within those years the budget never runs out, outside the rare family. */
  lemma CountIsReached(spec: RecurrenceSpec, rule: Rule)
    requires RuleOf(spec) == Ok(rule) && rule.until == None && WithinYears(rule)
    ensures Expand(spec).Ok?
    ensures |Expand(spec).value| == rule.count <==> !(RareRule(rule) && rule.count >= 10)
  {
    ExpansionSucceeds(rule);
    BudgetWithinDate(spec, rule, Expand(spec).value);
  }

  lemma TenOfTheRareFamily(spec: RecurrenceSpec, rule: Rule)
    requires RuleOf(spec) == Ok(rule) && rule.until == None && WithinYears(rule) && WithinDate(rule)
    requires RareRule(rule) && rule.count == 10
    ensures Expand(spec).Ok? && |Expand(spec).value| == 9
  {
    ExpansionSucceeds(rule);
    BudgetWithinDate(spec, rule, Expand(spec).value);
  }

  /** Ten leap days, 25 years apart from 2000-02-29. */
  predicate LeapDayExample(rule: Rule)
    requires rule.Valid()
  {
    && DateParts(rule.start) == Civil(2000, 2, 29) && rule.freq == Monthly
    && rule.interval == 300 && rule.count == 10 && rule.until == None
  }

  /** The budget of that series ends after nine. */
  lemma BudgetRunsOut(spec: RecurrenceSpec, rule: Rule)
    requires RuleOf(spec) == Ok(rule) && LeapDayExample(rule)
    ensures Expand(spec).Ok? && |Expand(spec).value| == 9
  {
    ExampleFacts(rule);
    TenOfTheRareFamily(spec, rule);
  }

  lemma ExampleFacts(rule: Rule)
    requires rule.Valid() && LeapDayExample(rule)
    ensures WithinYears(rule) && WithinDate(rule) && RareRule(rule)
  {
    ExampleNumbers();
    assert rule.MaxSteps() * rule.interval == 43_200;
  }

  lemma ExampleNumbers()
    ensures MonthTarget(Civil(2000, 2, 29), 43_200).year == 5600 && Rare(Civil(2000, 2, 29), 300)
  {}
}
