/** Expansion of a recurrence rule into occurrences (packages/schema/src/recurrence.ts). */
module Recurrence {
  import opened Text
  import opened Calendar
  import opened LocalDates
  import opened WallClock
  import opened ClockResolution
  import opened Series

  const MAX_SERIES_OCCURRENCES: int := 104

  /** A JavaScript number. */
  datatype Number = Finite(value: real) | NotFinite

  datatype RecurrenceSpec = RecurrenceSpec(
    timezone: Option<Zone>, startDate: string, startTime: string, durationMinutes: int,
    freq: string, interval: Number, count: Number, untilDate: Option<string>)

  datatype Occurrence = Occurrence(
    index: nat, localDate: LocalDate, localStart: LocalDateTime, scheduledAt: int,
    durationMinutes: int, resolution: Resolution)

  datatype RecurrenceError =
    | InvalidStartDate | InvalidStartTime | UnknownTimeZone | UnknownFreq
    | BadInterval | BadCount | CountTooLarge | InvalidUntilDate
    | NoSuchWallClock(cause: ClockError)

  datatype Freq = Daily | Weekly | Monthly

  /** A specification that passed every check. */
  datatype Rule = Rule(
    zone: Zone, start: LocalDate, time: string, minutes: int, freq: Freq,
    interval: nat, count: nat, until: Option<LocalDate>)
  {
    predicate Valid() {
      IsLocalDate(start) && IsLocalTime(time) && interval >= 1 && 1 <= count <= MAX_SERIES_OCCURRENCES
      && (until.Some? ==> IsLocalDate(until.value))
    }

    /** Monthly rules skip months, so the steps are budgeted rather than counted. */
    function MaxSteps(): nat { count * 12 + 24 }

    /** Months or days from the start to a step. */
    function Shift(step: nat): int {
      step * interval * (if freq == Weekly then 7 else 1)
    }

    /** The date of one step, or `None` when the rule skips it. */
    function StepDate(step: nat): Option<LocalDate> {
      if !IsLocalDate(start) then None
      else if freq == Monthly then AddMonthsLocal(start, Shift(step)) else Some(AddDaysLocal(start, Shift(step)))
    }

    predicate PastUntil(date: LocalDate) { until.Some? && Less(until.value, date) }
  }

  function FreqOf(freq: string): Option<Freq> {
    if freq == "daily" then Some(Daily)
    else if freq == "weekly" then Some(Weekly)
    else if freq == "monthly" then Some(Monthly)
    else None
  }

  /** The empty string and `null` both mean that there is no last date. */
  function UntilOf(untilDate: Option<string>): Option<string> {
    if untilDate == Some("") then None else untilDate
  }

  /** The checks, in the order in which they are made: what starts and repeats the series, its count, its last date. */
  function CheckFields(startDate: string, startTime: string, timezone: Option<Zone>, freq: string, interval: Number): Option<RecurrenceError> {
    if !IsLocalDate(startDate) then Some(InvalidStartDate)
    else if !IsLocalTime(startTime) then Some(InvalidStartTime)
    else if timezone.None? then Some(UnknownTimeZone)
    else if FreqOf(freq).None? then Some(UnknownFreq)
    else if interval.NotFinite? || interval.value.Floor < 1 then Some(BadInterval)
    else None
  }

  function CheckCount(count: Number): Option<RecurrenceError> {
    if count.NotFinite? || count.value.Floor < 1 then Some(BadCount)
    else if count.value.Floor > MAX_SERIES_OCCURRENCES then Some(CountTooLarge)
    else None
  }

  function CheckUntil(until: Option<string>): Option<RecurrenceError> {
    if until.Some? && !IsLocalDate(until.value) then Some(InvalidUntilDate) else None
  }

  function RuleOf(spec: RecurrenceSpec): (r: Result<Rule, RecurrenceError>)
    ensures r.Ok? ==> r.value.Valid()
  {
    var fields := CheckFields(spec.startDate, spec.startTime, spec.timezone, spec.freq, spec.interval);
    if fields.Some? then Err(fields.value)
    else if CheckCount(spec.count).Some? then Err(CheckCount(spec.count).value)
    else if CheckUntil(UntilOf(spec.untilDate)).Some? then Err(CheckUntil(UntilOf(spec.untilDate)).value)
    else Ok(Rule(spec.timezone.value, spec.startDate, spec.startTime, spec.durationMinutes, FreqOf(spec.freq).value,
                 spec.interval.value.Floor, spec.count.value.Floor, UntilOf(spec.untilDate)))
  }

  // ------------------------------------------------------------------ expansion

  /** The occurrence on one date of the rule. */
  function OccurrenceOn(rule: Rule, date: LocalDate, index: nat): Result<Occurrence, RecurrenceError> {
    match MaterializeWallClock(date + "T" + rule.time, Some(rule.zone))
    case Err(e) => Err(NoSuchWallClock(e))
    case Ok(m) => Ok(Occurrence(index, date, m.localStart, m.utcMs, rule.minutes, m.resolution))
  }

  /** The walk over the steps of a rule. */
  function WalkOf(rule: Rule): Walk<Occurrence, RecurrenceError> {
    Walk((step: nat) => rule.StepDate(step), (date: string) => rule.PastUntil(date),
         (date: string, index: nat) => OccurrenceOn(rule, date, index),
         rule.count, rule.MaxSteps())
  }

  function Expand(spec: RecurrenceSpec): Result<seq<Occurrence>, RecurrenceError> {
    match RuleOf(spec)
    case Err(e) => Err(e)
    case Ok(rule) => WalkOf(rule).Expansion()
  }

  /** Materialize a recurrence into concrete occurrences. */
  method ExpandRecurrence(spec: RecurrenceSpec) returns (r: Result<seq<Occurrence>, RecurrenceError>)
    ensures r == Expand(spec)
  {
    var checked := RuleOf(spec);
    if checked.Err? { return Err(checked.error); }
    r := RunWalk(WalkOf(checked.value));
  }

  // -------------------------------------------------------------- dates of steps

  lemma ShiftFacts(rule: Rule, s: nat, t: nat)
    requires rule.Valid()
    ensures rule.Shift(0) == 0 && rule.Shift(s) >= 0
    ensures s < t ==> rule.Shift(s) < rule.Shift(t)
    ensures rule.freq == Weekly ==> rule.Shift(s) % 7 == 0
  {
    Products(s, t, rule.interval);
    WholeWeeks(s * rule.interval);
  }

  lemma Products(s: nat, t: nat, k: nat)
    requires k >= 1
    ensures 0 * k == 0 && s * k >= 0
    ensures s < t ==> s * k < t * k
  {
    if s < t { assert (t - s) * k >= 1; assert (t - s) * k == t * k - s * k; }
  }

  lemma WholeWeeks(n: int)
    ensures (n * 7) % 7 == 0
  {}

  lemma DayStep(rule: Rule, step: nat, date: LocalDate)
    requires rule.Valid() && rule.freq != Monthly && rule.StepDate(step) == Some(date) && IsLocalDate(date)
    ensures DayOf(date) == DayOf(rule.start) + rule.Shift(step)
  {
    AddDaysIsDayArithmetic(rule.start, rule.Shift(step));
  }

  /** A local date that a monthly step names is the start's day in the step's month. */
  lemma MonthStep(rule: Rule, step: nat, date: LocalDate)
    requires rule.Valid() && rule.freq == Monthly && rule.StepDate(step) == Some(date) && IsLocalDate(date)
    ensures DateParts(date) == MonthTarget(DateParts(rule.start), rule.Shift(step))
  {
    ShiftFacts(rule, step, step);
    NamedMonth(rule.start, rule.Shift(step), date);
  }

  lemma NamedMonth(start: LocalDate, months: nat, date: LocalDate)
    requires IsLocalDate(start) && IsLocalDate(date) && AddMonthsLocal(start, months) == Some(date)
    ensures DateParts(date) == MonthTarget(DateParts(start), months)
  {
    var t := MonthTarget(DateParts(start), months);
    DateBounds(start);
    LaterMonth(DateParts(start), months);
    if t.year > 9999 {
      FarMonth(start, months);
    } else {
      AddMonthsKeepsDay(start, months);
      TextOfParts(t);
    }
  }

  lemma LaterMonth(c: Civil, months: nat)
    requires 1 <= c.month <= 12
    ensures MonthTarget(c, months).year >= c.year
    ensures MonthTarget(c, 0) == c
  {}

  /** Past the year 9999 a month step names no local date. */
  lemma FarMonth(date: LocalDate, months: nat)
    requires IsLocalDate(date) && MonthTarget(DateParts(date), months).year > 9999
    ensures AddMonthsLocal(date, months).Some? ==> !IsLocalDate(AddMonthsLocal(date, months).value)
  {
    DateBounds(date);
    var t := MonthTarget(DateParts(date), months);
    FarProbe(t);
    TextIsLocalDate(CivilFromDay(UtcDayOf(t)));
  }

  lemma FarProbe(t: Civil)
    requires t.year > 9999 && 1 <= t.month <= 12 && t.day >= 1
    ensures Calendar.Valid(CivilFromDay(UtcDayOf(t))) && CivilFromDay(UtcDayOf(t)).year > 9999
  {
    UtcDayOfMonth(t);
    DayOfCivil(DayNumber(t));
    YearWindow(CivilFromDay(DayNumber(t)));
    MonthsInOrder(1, t.month, Leap(t.year));
    YearsApart(10_000, t.year);
    WindowEdges();
    CommonEraYear(DayNumber(t));
  }

  /** Later steps name later dates. */
  lemma StepsInOrder(rule: Rule, s: nat, t: nat, a: LocalDate, b: LocalDate)
    requires rule.Valid() && s < t
    requires rule.StepDate(s) == Some(a) && rule.StepDate(t) == Some(b) && IsLocalDate(a) && IsLocalDate(b)
    ensures DayOf(a) < DayOf(b) && Less(a, b)
  {
    ShiftFacts(rule, s, t);
    if rule.freq == Monthly {
      MonthStep(rule, s, a); MonthStep(rule, t, b);
      DateBounds(a); DateBounds(b);
      LaterTarget(DateParts(rule.start), rule.Shift(s), rule.Shift(t));
      BeforeIsDayOrder(DateParts(a), DateParts(b));
    } else {
      DayStep(rule, s, a); DayStep(rule, t, b);
    }
    DateOrder(a, b);
  }

  lemma LaterTarget(c: Civil, m: nat, n: nat)
    requires m < n
    ensures Before(MonthTarget(c, m), MonthTarget(c, n))
  {
    TargetMonthIndex(c, m);
    TargetMonthIndex(c, n);
  }

  // -------------------------------------------------------------- occurrences

  lemma WallClockText(date: string, time: string)
    requires IsLocalTime(time)
    ensures IsLocalDateTime(date + "T" + time) <==> IsLocalDate(date)
    ensures IsLocalDate(date) ==> (date + "T" + time)[..10] == date && (date + "T" + time)[11..] == time
  {
    var s := date + "T" + time;
    if |date| == 10 { assert s[..10] == date && s[11..] == time; }
    assert IsLocalDate(date) ==> |date| == 10;
  }

  /** A date becomes an occurrence exactly when it is a local date. */
  lemma OccurrenceFacts(rule: Rule, date: string, index: nat)
    requires rule.Valid()
    ensures OccurrenceOn(rule, date, index).Ok? <==> IsLocalDate(date)
    ensures OccurrenceOn(rule, date, index).Ok? ==>
      var o := OccurrenceOn(rule, date, index).value;
      && o.index == index && o.localDate == date && o.durationMinutes == rule.minutes
      && UtcToLocalDateTime(o.scheduledAt, rule.zone) == o.localStart
      && (o.localStart == date + "T" + rule.time <==> o.resolution != Gap)
  {
    WallClockText(date, rule.time);
    MaterializedPairReadsBack(date + "T" + rule.time, Some(rule.zone));
  }

  /** The `i`-th occurrence and the step it comes from. */
  lemma OccurrenceAt(rule: Rule, i: nat) returns (step: nat)
    requires rule.Valid() && WalkOf(rule).Expansion().Ok? && i < |WalkOf(rule).Expansion().value|
    ensures |WalkOf(rule).Expansion().value| == |WalkOf(rule).Chosen(0, 0)|
    ensures step == WalkOf(rule).Chosen(0, 0)[i] && step < rule.MaxSteps()
    ensures var o := WalkOf(rule).Expansion().value[i];
      && OccurrenceOn(rule, o.localDate, i) == Ok(o)
      && rule.StepDate(step) == Some(o.localDate) && IsLocalDate(o.localDate) && !rule.PastUntil(o.localDate)
  {
    var w := WalkOf(rule);
    w.ChosenAreDated(0, 0);
    w.ChosenInOrder(0, 0);
    w.MadeAt(w.Chosen(0, 0), 0, i);
    step := w.Chosen(0, 0)[i];
    OccurrenceFacts(rule, w.dateOf(step).value, i);
  }
}
