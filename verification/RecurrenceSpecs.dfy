/** What an expansion is in terms of the specification's own fields (packages/schema/src/recurrence.ts). */
module RecurrenceSpecs {
  import opened Text
  import opened Calendar
  import opened LocalDates
  import opened WallClock
  import opened Recurrence
  import opened RecurrenceTheorems
  import opened RecurrenceDates
  import opened SeriesLength

  // ------------------------------------------------------------------ accepted and refused

  predicate KnownFreq(freq: string) { freq == "daily" || freq == "weekly" || freq == "monthly" }

  predicate AtLeastOne(n: Number) { n.Finite? && n.value >= 1.0 }

  predicate NoLastDate(untilDate: Option<string>) { untilDate == None || untilDate == Some("") }

  predicate Accepted(spec: RecurrenceSpec) {
    && IsLocalDate(spec.startDate) && IsLocalTime(spec.startTime) && spec.timezone.Some? && KnownFreq(spec.freq)
    && AtLeastOne(spec.interval) && AtLeastOne(spec.count) && spec.count.value < 105.0
    && (NoLastDate(spec.untilDate) || IsLocalDate(spec.untilDate.value))
  }

  lemma FieldsPass(spec: RecurrenceSpec)
    ensures CheckFields(spec.startDate, spec.startTime, spec.timezone, spec.freq, spec.interval).None? <==>
      && IsLocalDate(spec.startDate) && IsLocalTime(spec.startTime) && spec.timezone.Some? && KnownFreq(spec.freq)
      && AtLeastOne(spec.interval)
  {}

  lemma CountPasses(count: Number)
    ensures CheckCount(count).None? <==> AtLeastOne(count) && count.value < 105.0
  {}

  lemma UntilPasses(untilDate: Option<string>)
    ensures CheckUntil(UntilOf(untilDate)).None? <==> NoLastDate(untilDate) || IsLocalDate(untilDate.value)
  {}

  /** The checks accept exactly these specifications. */
  lemma AcceptedIff(spec: RecurrenceSpec)
    ensures RuleOf(spec).Ok? <==> Accepted(spec)
  {
    FieldsPass(spec);
    CountPasses(spec.count);
    UntilPasses(spec.untilDate);
  }

  /** Which check refuses a specification: the first that fails. */
  lemma RefusedFor(spec: RecurrenceSpec)
    ensures var start := IsLocalDate(spec.startDate);
      var time := start && IsLocalTime(spec.startTime);
      var zone := time && spec.timezone.Some?;
      var freq := zone && KnownFreq(spec.freq);
      var interval := freq && AtLeastOne(spec.interval);
      var some := interval && AtLeastOne(spec.count);
      var count := some && spec.count.value < 105.0;
      && (RuleOf(spec) == Err(InvalidStartDate) <==> !start)
      && (RuleOf(spec) == Err(InvalidStartTime) <==> start && !time)
      && (RuleOf(spec) == Err(UnknownTimeZone) <==> time && !zone)
      && (RuleOf(spec) == Err(UnknownFreq) <==> zone && !freq)
      && (RuleOf(spec) == Err(BadInterval) <==> freq && !interval)
      && (RuleOf(spec) == Err(BadCount) <==> interval && !some)
      && (RuleOf(spec) == Err(CountTooLarge) <==> some && !count)
      && (RuleOf(spec) == Err(InvalidUntilDate) <==> count && !NoLastDate(spec.untilDate) && !IsLocalDate(spec.untilDate.value))
  {}

  /** The rule of an accepted specification has its fields, with whole numbers. */
  lemma RuleIs(spec: RecurrenceSpec, rule: Rule)
    requires RuleOf(spec) == Ok(rule)
    ensures rule.Valid() && Accepted(spec) && Some(rule.zone) == spec.timezone
    ensures rule.start == spec.startDate && rule.time == spec.startTime && rule.minutes == spec.durationMinutes
    ensures rule.freq == Daily <==> spec.freq == "daily"
    ensures rule.freq == Weekly <==> spec.freq == "weekly"
    ensures rule.freq == Monthly <==> spec.freq == "monthly"
    ensures rule.interval == spec.interval.value.Floor && rule.count == spec.count.value.Floor
    ensures rule.until == None <==> NoLastDate(spec.untilDate)
    ensures rule.until.Some? ==> rule.until == spec.untilDate
  {
    AcceptedIff(spec);
  }

  // ------------------------------------------------------------------ the dates

  lemma ExpandedRule(spec: RecurrenceSpec, out: seq<Occurrence>) returns (rule: Rule)
    requires Expand(spec) == Ok(out)
    ensures ExpandsTo(spec, rule, out)
  {
    rule := RuleOf(spec).value;
  }

  lemma AlwaysDated(rule: Rule, step: nat)
    requires rule.Valid() && rule.freq != Monthly
    ensures WalkOf(rule).dateOf(step).Some?
  {}

  lemma DenseStep(rule: Rule, i: nat)
    requires rule.Valid() && rule.freq != Monthly && i < |WalkOf(rule).Chosen(0, 0)|
    ensures WalkOf(rule).Chosen(0, 0)[i] == i
  {
    forall s: nat ensures WalkOf(rule).dateOf(s).Some? { AlwaysDated(rule, s); }
    WalkOf(rule).ChosenDense(0, 0);
  }

  lemma DenseDay(spec: RecurrenceSpec, rule: Rule, out: seq<Occurrence>, i: nat)
    requires ExpandsTo(spec, rule, out) && rule.freq != Monthly && i < |out|
    ensures IsLocalDate(out[i].localDate) && DayOf(out[i].localDate) == DayOf(rule.start) + rule.Shift(i)
  {
    var step := OccurrenceAt(rule, i);
    DenseStep(rule, i);
    DayStep(rule, step, out[i].localDate);
  }

  /** A daily series: every `interval` days from the start date. */
  lemma DailyDates(spec: RecurrenceSpec, out: seq<Occurrence>, i: nat)
    requires Expand(spec) == Ok(out) && spec.freq == "daily" && i < |out|
    ensures Accepted(spec) && IsLocalDate(out[i].localDate)
    ensures DayOf(out[i].localDate) == DayOf(spec.startDate) + i * spec.interval.value.Floor
  {
    var rule := ExpandedRule(spec, out);
    RuleIs(spec, rule);
    DenseDay(spec, rule, out, i);
    ShiftIs(rule, i);
  }

  /** A weekly series: every `interval` weeks from the start date. */
  lemma WeeklyDates(spec: RecurrenceSpec, out: seq<Occurrence>, i: nat)
    requires Expand(spec) == Ok(out) && spec.freq == "weekly" && i < |out|
    ensures Accepted(spec) && IsLocalDate(out[i].localDate)
    ensures DayOf(out[i].localDate) == DayOf(spec.startDate) + 7 * (i * spec.interval.value.Floor)
  {
    var rule := ExpandedRule(spec, out);
    RuleIs(spec, rule);
    DenseDay(spec, rule, out, i);
    ShiftIs(rule, i);
  }

  lemma SameDayLater(c: Civil, months: int)
    requires 1 <= c.month <= 12
    ensures MonthTarget(c, months).day == c.day && MonthIndex(MonthTarget(c, months)) == MonthIndex(c) + months
  {}

  /** A monthly series: the start's day of the month, whole intervals of months later. */
  lemma MonthlyDates(spec: RecurrenceSpec, out: seq<Occurrence>, i: nat) returns (step: nat)
    requires Expand(spec) == Ok(out) && spec.freq == "monthly" && i < |out|
    ensures Accepted(spec) && IsLocalDate(out[i].localDate)
    ensures DateParts(out[i].localDate).day == DateParts(spec.startDate).day
    ensures MonthIndex(DateParts(out[i].localDate)) == MonthIndex(DateParts(spec.startDate)) + step * spec.interval.value.Floor
  {
    var rule := ExpandedRule(spec, out);
    RuleIs(spec, rule);
    step := OccurrenceAt(rule, i);
    MonthStep(rule, step, out[i].localDate);
    ShiftIs(rule, step);
    DateBounds(spec.startDate);
    SameDayLater(DateParts(spec.startDate), rule.Shift(step));
  }

  /** The date is `step` intervals of days, of weeks, or of months with that day, after the start. */
  predicate NamedAt(spec: RecurrenceSpec, date: LocalDate, step: nat)
    requires Accepted(spec) && IsLocalDate(date)
  {
    var n := step * spec.interval.value.Floor;
    if spec.freq == "daily" then DayOf(date) == DayOf(spec.startDate) + n
    else if spec.freq == "weekly" then DayOf(date) == DayOf(spec.startDate) + 7 * n
    else DateParts(date).day == DateParts(spec.startDate).day
         && MonthIndex(DateParts(date)) == MonthIndex(DateParts(spec.startDate)) + n
  }

  ghost predicate SpecNames(spec: RecurrenceSpec, date: LocalDate)
    requires Accepted(spec)
  {
    IsLocalDate(date) && exists step: nat :: NamedAt(spec, date, step)
  }

  lemma SameMonth(a: Civil, b: Civil)
    requires 1 <= a.month <= 12 && 1 <= b.month <= 12 && a.day == b.day && MonthIndex(a) == MonthIndex(b)
    ensures a == b
  {}

  lemma StepNamed(spec: RecurrenceSpec, rule: Rule, date: LocalDate, step: nat)
    requires RuleOf(spec) == Ok(rule) && IsLocalDate(date) && Accepted(spec)
    ensures rule.Valid() && (NamedBy(rule, date, step) <==> NamedAt(spec, date, step))
  {
    RuleIs(spec, rule);
    if rule.freq == Monthly {
      var t := MonthTarget(DateParts(rule.start), Intervals(rule, step));
      DateBounds(rule.start);
      DateBounds(date);
      SameDayLater(DateParts(rule.start), Intervals(rule, step));
      if t.day == DateParts(date).day && MonthIndex(t) == MonthIndex(DateParts(date)) { SameMonth(DateParts(date), t); }
    }
  }

  lemma NamedIff(spec: RecurrenceSpec, rule: Rule, date: LocalDate)
    requires RuleOf(spec) == Ok(rule) && Accepted(spec) && rule.Valid()
    ensures Named(rule, date) <==> SpecNames(spec, date)
  {
    if IsLocalDate(date) {
      forall step: nat ensures NamedBy(rule, date, step) <==> NamedAt(spec, date, step) { StepNamed(spec, rule, date, step); }
    }
  }

  /** The dates of a series are the dates its specification names, up to the last one. */
  lemma SpecOccursIff(spec: RecurrenceSpec, out: seq<Occurrence>, date: LocalDate)
    requires Expand(spec) == Ok(out) && out != []
    ensures Accepted(spec)
    ensures Occurs(out, date) <==> SpecNames(spec, date) && !Less(out[|out| - 1].localDate, date)
  {
    var rule := ExpandedRule(spec, out);
    RuleIs(spec, rule);
    NamedIff(spec, rule, date);
    OccursIff(spec, rule, out, date);
  }

  // ------------------------------------------------------------------ the occurrences

  /** What an occurrence holds beside its date. */
  predicate HoldsFields(spec: RecurrenceSpec, o: Occurrence, i: nat)
    requires spec.timezone.Some?
  {
    && o.index == i && o.durationMinutes == spec.durationMinutes
    && WallClockToUtc(o.localDate + "T" + spec.startTime, spec.timezone) == Ok(ResolvedWallClock(o.scheduledAt, o.resolution))
    && o.localStart == UtcToLocalDateTime(o.scheduledAt, spec.timezone.value)
    && (o.resolution != Gap ==> o.localStart == o.localDate + "T" + spec.startTime)
  }

  /** Every occurrence has its index, the duration, and the instant of the start time on its date, kept as local start unless in a gap. */
  lemma OccurrenceFields(spec: RecurrenceSpec, out: seq<Occurrence>, i: nat)
    requires Expand(spec) == Ok(out) && i < |out|
    ensures Accepted(spec) && HoldsFields(spec, out[i], i)
  {
    var rule := ExpandedRule(spec, out);
    RuleIs(spec, rule);
    var step := OccurrenceAt(rule, i);
    OccurrenceFacts(rule, out[i].localDate, i);
  }

  /** No more than `count` occurrences, none after the last date; the first on the start date, unless the last date is earlier. */
  lemma SeriesLimits(spec: RecurrenceSpec, out: seq<Occurrence>)
    requires Expand(spec) == Ok(out)
    ensures Accepted(spec) && |out| <= spec.count.value.Floor
    ensures forall i :: 0 <= i < |out| && !NoLastDate(spec.untilDate) ==> !Less(spec.untilDate.value, out[i].localDate)
    ensures out == [] <==> !NoLastDate(spec.untilDate) && Less(spec.untilDate.value, spec.startDate)
    ensures out != [] ==> out[0].localDate == spec.startDate
  {
    var rule := ExpandedRule(spec, out);
    RuleIs(spec, rule);
    SeriesFollowsRule(spec, rule, out);
    SeriesStartsAtStart(spec, rule, out);
    forall i | 0 <= i < |out| && !NoLastDate(spec.untilDate) ensures !Less(spec.untilDate.value, out[i].localDate) {
      assert OnRule(rule, out[i], i);
    }
  }

  /** A daily or weekly series without last date has exactly `count` occurrences. */
  lemma FullLength(spec: RecurrenceSpec, out: seq<Occurrence>)
    requires Expand(spec) == Ok(out) && spec.freq != "monthly" && NoLastDate(spec.untilDate)
    ensures Accepted(spec) && |out| == spec.count.value.Floor
  {
    var rule := ExpandedRule(spec, out);
    RuleIs(spec, rule);
    BudgetIff(spec, rule, out);
  }
}
