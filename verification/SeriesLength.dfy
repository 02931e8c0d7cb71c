/** How long a series without last date is, for every rule (packages/schema/src/recurrence.ts). */
module SeriesLength {
  import opened Text
  import opened Calendar
  import opened LocalDates
  import opened WallClock
  import opened ClockResolution
  import opened Recurrence
  import opened RecurrenceTheorems
  import opened StepBudget

  // ------------------------------------------------------------------ steps that have a date

  function Target(rule: Rule, step: nat): Civil
    requires rule.Valid()
  {
    MonthTarget(DateParts(rule.start), step * rule.interval)
  }

  /** The month of a step has the start day, and a `Date` can hold it. */
  predicate HasDate(rule: Rule, step: nat)
    requires rule.Valid()
  {
    Calendar.Valid(Target(rule, step)) && InDateRange(DayNumber(Target(rule, step)))
  }

  /** Every later month of the budget lacks the start day or lies past what a `Date` holds. */
  ghost predicate LeapsOut(rule: Rule)
    requires rule.Valid()
  {
    rule.freq == Monthly && rule.count >= 2 && forall s: nat :: 1 <= s < rule.MaxSteps() ==> !HasDate(rule, s)
  }

  lemma MonthlyDate(rule: Rule, step: nat)
    requires rule.Valid() && rule.freq == Monthly
    ensures WalkOf(rule).dateOf(step) == if HasDate(rule, step) then Some(ToLocalDate(Target(rule, step))) else None
  {
    DateBounds(rule.start);
    Products(step, step + 1, rule.interval);
    EarlierTarget(DateParts(rule.start), 0, step * rule.interval);
    assert rule.Shift(step) == step * rule.interval;
    AddMonthsIff(rule.start, step * rule.interval);
  }

  // ------------------------------------------------------------------ a rule that leaps out

  lemma AloneChosen(rule: Rule)
    requires rule.Valid() && rule.until == None && LeapsOut(rule)
    ensures |WalkOf(rule).Chosen(0, 0)| == 1
  {
    var w := WalkOf(rule);
    StepZero(rule);
    forall s: nat | 1 <= s < w.maxSteps ensures w.dateOf(s).None? { MonthlyDate(rule, s); }
    w.NoHits(1, w.maxSteps);
    w.ChosenCount(0, 0);
  }

  lemma FirstChosen(rule: Rule)
    requires rule.Valid() && rule.until == None
    ensures WalkOf(rule).Chosen(0, 0) != [] && WalkOf(rule).Chosen(0, 0)[0] == 0
  {
    StepZero(rule);
    assert WalkOf(rule).dateOf(0) == Some(rule.start) && !WalkOf(rule).past(rule.start);
  }

  lemma StartMakes(rule: Rule)
    requires rule.Valid()
    ensures WalkOf(rule).Dated([0]) && WalkOf(rule).make(rule.start, 0).Ok?
  {
    StepZero(rule);
    OccurrenceFacts(rule, rule.start, 0);
  }

  lemma StartMade(rule: Rule)
    requires rule.Valid() && WalkOf(rule).Dated([0])
    ensures WalkOf(rule).Made([0], 0).Ok?
  {
    StartMakes(rule);
    StepZero(rule);
    WalkOf(rule).AllMade([0], 0);
  }

  /** Such a rule expands without an error, to its start alone. */
  lemma LeapsOutAlone(rule: Rule)
    requires rule.Valid() && rule.until == None && LeapsOut(rule)
    ensures WalkOf(rule).Expansion().Ok? && |WalkOf(rule).Expansion().value| == 1
  {
    AloneChosen(rule);
    FirstChosen(rule);
    assert WalkOf(rule).Chosen(0, 0) == [0];
    StartMakes(rule);
    StartMade(rule);
  }

  // ------------------------------------------------------------------ a rule that is cut short

  /** Too few occurrences and no error: every step of the budget that has a date has a local date. */
  lemma DatedIsLocal(rule: Rule, step: nat)
    requires rule.Valid() && rule.until == None && WalkOf(rule).Expansion().Ok?
    requires |WalkOf(rule).Expansion().value| < rule.count && step < rule.MaxSteps() && rule.StepDate(step).Some?
    ensures IsLocalDate(rule.StepDate(step).value)
  {
    var w := WalkOf(rule);
    w.ChosenAreDated(0, 0);
    assert |w.Chosen(0, 0)| == |w.Expansion().value|;
    w.ChosenAll(0, 0, step);
    var i := w.ChosenIndex(step);
    var again := OccurrenceAt(rule, i);
  }

  /** The index of December of the year 9999. */
  const LAST_MONTH := 119_999

  lemma TargetIndex(rule: Rule, step: nat)
    requires rule.Valid()
    ensures MonthIndex(Target(rule, step)) == MonthIndex(DateParts(rule.start)) + step * rule.interval
    ensures 1 <= Target(rule, step).month <= 12 && 1 <= Target(rule, step).day <= 31
    ensures 100 <= DateParts(rule.start).year <= Target(rule, step).year
  {
    DateBounds(rule.start);
    MonthLengthBounds(DateParts(rule.start).year, DateParts(rule.start).month);
    TargetMonthIndex(DateParts(rule.start), step * rule.interval);
    Products(step, step + 1, rule.interval);
    EarlierTarget(DateParts(rule.start), 0, step * rule.interval);
  }

  lemma LocalIndex(rule: Rule, step: nat)
    requires rule.Valid() && rule.freq == Monthly && HasDate(rule, step)
    requires rule.StepDate(step).Some? ==> IsLocalDate(rule.StepDate(step).value)
    ensures MonthIndex(DateParts(rule.start)) + step * rule.interval <= LAST_MONTH
  {
    MonthlyDate(rule, step);
    TargetIndex(rule, step);
    TextIsLocalDate(Target(rule, step));
  }

  /** The first step past `limit`, counted from `start` in intervals of `k`. */
  lemma FirstPast(start: int, k: nat, limit: int) returns (a: nat)
    requires start <= limit && k >= 1
    ensures a >= 1 && limit < start + a * k <= limit + k
  {
    a := (limit - start) / k + 1;
    assert (limit - start) / k * k == limit - start - (limit - start) % k;
    assert a * k == (limit - start) / k * k + k;
  }

  lemma Between(start: int, k: nat, a: nat, t: nat)
    requires a <= t < a + 16 && k <= LAST_MONTH && start + a * k <= LAST_MONTH + k
    ensures start + a * k <= start + t * k <= 17 * LAST_MONTH
  {
    assert t * k == a * k + (t - a) * k;
    assert (t - a) * k <= 15 * k by { Monotone(t - a, 15, k); }
    Monotone(0, t - a, k);
  }

  lemma Monotone(a: int, b: int, k: nat)
    requires a <= b
    ensures a * k <= b * k
  {
    assert b * k == a * k + (b - a) * k;
  }

  lemma NextSixteenth(a: nat) returns (t: nat)
    ensures a <= t < a + 16 && t % 16 == 0
  {
    t := 16 * ((a + 15) / 16);
  }

  /** Any sixteen consecutive steps contain a month that has the start day. */
  lemma HitInSixteen(rule: Rule, a: nat) returns (t: nat)
    requires rule.Valid()
    ensures a <= t < a + 16 && Calendar.Valid(Target(rule, t))
  {
    DateBounds(rule.start);
    if Rare(DateParts(rule.start), rule.interval) {
      t := NextSixteenth(a);
      RareHits(DateParts(rule.start), rule.interval, t);
    } else {
      t := HitInTwelve(DateParts(rule.start), rule.interval, a);
    }
  }

  /** A month that has the start day, after the year 9999 but well within what a `Date` holds, and in the budget. */
  lemma LateDate(rule: Rule, s: nat) returns (t: nat)
    requires rule.Valid() && rule.freq == Monthly && !WithinDate(rule)
    requires s >= 1 && MonthIndex(DateParts(rule.start)) + s * rule.interval <= LAST_MONTH
    ensures t < rule.MaxSteps() && HasDate(rule, t)
    ensures MonthIndex(DateParts(rule.start)) + t * rule.interval > LAST_MONTH
  {
    var start, k := MonthIndex(DateParts(rule.start)), rule.interval;
    TargetIndex(rule, s);
    Monotone(1, s, k);
    var a := FirstPast(start, k, LAST_MONTH);
    t := HitInSixteen(rule, a);
    Between(start, k, a, t);
    TargetIndex(rule, t);
    YearInRange(Target(rule, t));
    InBudget(rule, t);
  }

  /** A step by the year 170000 is in a budget that passes the year 270000. */
  lemma InBudget(rule: Rule, t: nat)
    requires rule.Valid() && rule.freq == Monthly && !WithinDate(rule)
    requires MonthIndex(DateParts(rule.start)) + t * rule.interval <= 17 * LAST_MONTH
    ensures t < rule.MaxSteps()
  {
    TargetIndex(rule, rule.MaxSteps());
    if rule.MaxSteps() <= t { Monotone(rule.MaxSteps(), t, rule.interval); }
  }

  /** Past the year 270000, a series cut short without an error is one that leaps out. */
  lemma CutShortLeapsOut(rule: Rule)
    requires rule.Valid() && rule.until == None && WalkOf(rule).Expansion().Ok?
    requires |WalkOf(rule).Expansion().value| < rule.count && !WithinDate(rule)
    ensures LeapsOut(rule)
  {
    FirstChosen(rule);
    WalkOf(rule).ChosenAreDated(0, 0);
    assert rule.count >= 2;
    forall s: nat | 1 <= s < rule.MaxSteps() ensures !HasDate(rule, s) {
      if HasDate(rule, s) {
        MonthlyDate(rule, s);
        DatedIsLocal(rule, s);
        LocalIndex(rule, s);
        LateDateFails(rule, s);
      }
    }
  }

  lemma LateDateFails(rule: Rule, s: nat)
    requires rule.Valid() && rule.until == None && rule.freq == Monthly && WalkOf(rule).Expansion().Ok?
    requires |WalkOf(rule).Expansion().value| < rule.count && !WithinDate(rule) && s >= 1
    ensures MonthIndex(DateParts(rule.start)) + s * rule.interval > LAST_MONTH
  {
    if MonthIndex(DateParts(rule.start)) + s * rule.interval <= LAST_MONTH {
      var t := LateDate(rule, s);
      MonthlyDate(rule, t);
      DatedIsLocal(rule, t);
      LocalIndex(rule, t);
    }
  }

  // ------------------------------------------------------------------ the rare family

  /** At most every sixteenth step of a rare rule has a date. */
  lemma {:induction false} RareHitsBound(rule: Rule, a: nat)
    requires rule.Valid() && RareRule(rule) && a <= rule.MaxSteps()
    ensures WalkOf(rule).Hits(a, rule.MaxSteps()) <= (rule.MaxSteps() + 15) / 16 - (a + 15) / 16
    decreases rule.MaxSteps() - a
  {
    if a < rule.MaxSteps() {
      RareHitsBound(rule, a + 1);
      RareDate(rule, a);
      Sixteenth(a);
    }
  }

  lemma RareDate(rule: Rule, step: nat)
    requires rule.Valid() && RareRule(rule)
    ensures WalkOf(rule).dateOf(step).Some? ==> step % 16 == 0
  {
    MonthlyDate(rule, step);
    RareHits(DateParts(rule.start), rule.interval, step);
  }

  lemma RareIsShort(rule: Rule)
    requires rule.Valid() && rule.until == None && RareRule(rule) && rule.count >= 10
    ensures |WalkOf(rule).Chosen(0, 0)| < rule.count
  {
    RareHitsBound(rule, 0);
    WalkOf(rule).ChosenCount(0, 0);
  }

  // ------------------------------------------------------------------ all rules

  lemma LaterYear(rule: Rule, s: nat, t: nat)
    requires rule.Valid() && s <= t
    ensures Target(rule, s).year <= Target(rule, t).year
  {
    var k := rule.interval;
    DateBounds(rule.start);
    Monotone(0, s, k);
    Monotone(s, t, k);
    EarlierTarget(DateParts(rule.start), s * k, t * k);
  }

  lemma LastYear(rule: Rule)
    requires rule.Valid() && rule.freq == Monthly && WithinDate(rule)
    ensures Target(rule, rule.MaxSteps()).year <= 270_000
  {}

  lemma EarlyHasDate(rule: Rule, t: nat)
    requires rule.Valid() && rule.freq == Monthly && WithinDate(rule)
    requires t <= rule.MaxSteps() && Calendar.Valid(Target(rule, t))
    ensures HasDate(rule, t)
  {
    TargetIndex(rule, t);
    LastYear(rule);
    LaterYear(rule, t, rule.MaxSteps());
    YearInRange(Target(rule, t));
  }

  /** Up to the year 270000 some later month of the budget has a date. */
  lemma WithinDateStays(rule: Rule)
    requires rule.Valid() && WithinDate(rule)
    ensures !LeapsOut(rule)
  {
    if rule.freq == Monthly && rule.count >= 2 {
      var t := HitInSixteen(rule, 1);
      EarlyHasDate(rule, t);
    }
  }

  /**
   * A series without last date has exactly `count` occurrences unless its rule is of the rare family and counts ten or
   * more, where the budget ends at every sixteenth step, or leaps out, where the start is left alone.
   */
  lemma BudgetIff(spec: RecurrenceSpec, rule: Rule, out: seq<Occurrence>)
    requires ExpandsTo(spec, rule, out) && rule.until == None
    ensures |out| == rule.count <==> !(RareRule(rule) && rule.count >= 10) && !LeapsOut(rule)
    ensures LeapsOut(rule) ==> |out| == 1
    ensures RareRule(rule) && rule.count >= 10 && !LeapsOut(rule) ==> |out| == (12 * rule.count + 39) / 16
  {
    if WithinDate(rule) {
      BudgetWithinDate(spec, rule, out);
      WithinDateStays(rule);
    } else {
      if RareRule(rule) && rule.count >= 10 {
        RareIsShort(rule);
        WalkOf(rule).ChosenAreDated(0, 0);
      }
      if LeapsOut(rule) { LeapsOutAlone(rule); }
      SeriesFollowsRule(spec, rule, out);
      if |out| < rule.count { CutShortLeapsOut(rule); }
    }
  }

  // ------------------------------------------------------------------ two series that fall short

  /** A monthly series at midnight in some zone. */
  function MonthlySpec(zone: Zone, start: LocalDate, interval: nat, count: nat): RecurrenceSpec {
    RecurrenceSpec(Some(zone), start, "00:00", 60, "monthly", Finite(interval as real), Finite(count as real), None)
  }

  function MonthlyRule(zone: Zone, start: LocalDate, interval: nat, count: nat): Rule {
    Rule(zone, start, "00:00", 60, Monthly, interval, count, None)
  }

  lemma MonthlyAccepted(zone: Zone, start: LocalDate, interval: nat, count: nat)
    requires IsLocalDate(start) && interval >= 1 && 1 <= count <= MAX_SERIES_OCCURRENCES
    ensures RuleOf(MonthlySpec(zone, start, interval, count)) == Ok(MonthlyRule(zone, start, interval, count))
    ensures MonthlyRule(zone, start, interval, count).Valid()
  {
    Midnight();
    assert (interval as real).Floor == interval && (count as real).Floor == count;
  }

  lemma LeapDay(date: LocalDate)
    requires date == "2000-02-29"
    ensures IsLocalDate(date) && DateParts(date) == Civil(2000, 2, 29)
  {
    ParseFour(date[..4]);
    ParseTwo(date[5..7]);
    ParseTwo(date[8..]);
    WrittenDate(date[..4], date[5..7], date[8..], Civil(2000, 2, 29));
    Halves(date);
  }

  /** Ten leap days, 25 years apart from 2000-02-29: the series is accepted and has nine. */
  lemma LeapDayGap(zone: Zone, date: LocalDate)
    requires date == "2000-02-29"
    ensures var r := Expand(MonthlySpec(zone, date, 300, 10)); r.Ok? && |r.value| == 9
  {
    LeapDay(date);
    MonthlyAccepted(zone, date, 300, 10);
    BudgetRunsOut(MonthlySpec(zone, date, 300, 10), MonthlyRule(zone, date, 300, 10));
  }

  lemma FarFromDate(t: Civil)
    requires t.year >= 280_000 && 1 <= t.month <= 12 && t.day >= 1
    ensures !InDateRange(DayNumber(t))
  {
    YearsApart(280_000, t.year);
    DayFromYearFormula(280_000);
    MonthsInOrder(1, t.month, Leap(t.year));
  }

  /** An interval of more than 280000 years carries every later step past what a `Date` holds. */
  lemma LongIntervalLeaps(rule: Rule)
    requires rule.Valid() && rule.freq == Monthly && rule.count >= 2 && rule.interval >= 12 * 280_000
    ensures LeapsOut(rule)
  {
    forall s: nat | 1 <= s < rule.MaxSteps() ensures !HasDate(rule, s) {
      TargetIndex(rule, s);
      Monotone(1, s, rule.interval);
      FarFromDate(Target(rule, s));
    }
  }

  /** Two occurrences, ten million months apart from 2000-02-29: the series is accepted and has one. */
  lemma LongIntervalGap(zone: Zone, date: LocalDate)
    requires date == "2000-02-29"
    ensures var r := Expand(MonthlySpec(zone, date, 10_000_000, 2)); r.Ok? && |r.value| == 1
  {
    LeapDay(date);
    MonthlyAccepted(zone, date, 10_000_000, 2);
    LongIntervalLeaps(MonthlyRule(zone, date, 10_000_000, 2));
    LeapsOutAlone(MonthlyRule(zone, date, 10_000_000, 2));
  }
}
