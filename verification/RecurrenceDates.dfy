/** The dates of an expanded series are exactly those its rule names (packages/schema/src/recurrence.ts). */
module RecurrenceDates {
  import opened Text
  import opened LocalDates
  import opened Recurrence
  import opened RecurrenceTheorems

  function Intervals(rule: Rule, step: nat): int { step * rule.interval }

  lemma ShiftIs(rule: Rule, step: nat)
    ensures rule.Shift(step) == if rule.freq == Weekly then Intervals(rule, step) * 7 else Intervals(rule, step)
  {}

  /** The date is so many intervals after the start: of days, of weeks, or of months with that day. */
  predicate NamedBy(rule: Rule, date: LocalDate, step: nat)
    requires rule.Valid() && IsLocalDate(date)
  {
    match rule.freq
    case Daily => DayOf(date) == DayOf(rule.start) + Intervals(rule, step)
    case Weekly => DayOf(date) == DayOf(rule.start) + Intervals(rule, step) * 7
    case Monthly => DateParts(date) == MonthTarget(DateParts(rule.start), Intervals(rule, step))
  }

  ghost predicate Named(rule: Rule, date: LocalDate)
    requires rule.Valid()
  {
    IsLocalDate(date) && exists step: nat :: NamedBy(rule, date, step)
  }

  ghost predicate Occurs(out: seq<Occurrence>, date: LocalDate) {
    exists i :: 0 <= i < |out| && out[i].localDate == date
  }

  lemma NamedShift(rule: Rule, date: LocalDate, step: nat)
    requires rule.Valid() && IsLocalDate(date)
    ensures NamedBy(rule, date, step) <==>
      if rule.freq == Monthly then DateParts(date) == MonthTarget(DateParts(rule.start), rule.Shift(step))
      else DayOf(date) == DayOf(rule.start) + rule.Shift(step)
  {
    ShiftIs(rule, step);
  }

  lemma DayShifted(start: LocalDate, date: LocalDate, days: int)
    requires IsLocalDate(start) && IsLocalDate(date)
    ensures AddDaysLocal(start, days) == date <==> DayOf(date) == DayOf(start) + days
  {
    AddDaysIsDayArithmetic(start, days);
    DateBounds(date);
    if IsLocalDate(AddDaysLocal(start, days)) { DateOrder(AddDaysLocal(start, days), date); }
  }

  lemma MonthShifted(start: LocalDate, date: LocalDate, months: nat)
    requires IsLocalDate(start) && IsLocalDate(date)
    ensures AddMonthsLocal(start, months) == Some(date) <==> DateParts(date) == MonthTarget(DateParts(start), months)
  {
    DateBounds(start);
    DateBounds(date);
    if AddMonthsLocal(start, months) == Some(date) { NamedMonth(start, months, date); }
    if DateParts(date) == MonthTarget(DateParts(start), months) {
      AddMonthsKeepsDay(start, months);
      PartsOfText(date);
    }
  }

  /** A step has a local date exactly when the rule names it. */
  lemma StepIsNamed(rule: Rule, step: nat, date: LocalDate)
    requires rule.Valid() && IsLocalDate(date)
    ensures rule.StepDate(step) == Some(date) <==> NamedBy(rule, date, step)
  {
    NamedShift(rule, date, step);
    ShiftFacts(rule, step, step);
    if rule.freq == Monthly { MonthShifted(rule.start, date, rule.Shift(step)); }
    else { DayShifted(rule.start, date, rule.Shift(step)); }
  }

  lemma NotBefore(a: LocalDate, b: LocalDate)
    requires IsLocalDate(a) && IsLocalDate(b) && (a == b || Less(a, b))
    ensures !Less(b, a)
  {
    DateOrder(a, b);
    DateOrder(b, a);
  }

  /** Local dates, each before the next. */
  ghost predicate Increasing(out: seq<Occurrence>) {
    && (forall i :: 0 <= i < |out| ==> IsLocalDate(out[i].localDate))
    && (forall i, j :: 0 <= i < j < |out| ==> Less(out[i].localDate, out[j].localDate))
  }

  lemma SeriesIncreases(spec: RecurrenceSpec, rule: Rule, out: seq<Occurrence>)
    requires ExpandsTo(spec, rule, out)
    ensures Increasing(out)
  {
    SeriesFollowsRule(spec, rule, out);
    forall i | 0 <= i < |out| ensures IsLocalDate(out[i].localDate) { assert OnRule(rule, out[i], i); }
  }

  lemma NotAfterLast(out: seq<Occurrence>, i: nat)
    requires Increasing(out) && i < |out|
    ensures !Less(out[|out| - 1].localDate, out[i].localDate)
  {
    NotBefore(out[i].localDate, out[|out| - 1].localDate);
  }

  /** A step no later than the last one chosen that has a date is chosen. */
  lemma StepIsChosen(rule: Rule, last: nat, step: nat) returns (i: nat)
    requires WalkOf(rule).Chosen(0, 0) != [] && last == WalkOf(rule).Chosen(0, 0)[|WalkOf(rule).Chosen(0, 0)| - 1]
    requires step <= last && rule.StepDate(step).Some?
    ensures i < |WalkOf(rule).Chosen(0, 0)| && WalkOf(rule).Chosen(0, 0)[i] == step
  {
    WalkOf(rule).ChosenComplete(0, 0, step);
    i := WalkOf(rule).ChosenIndex(step);
  }

  lemma NamedOccurs(rule: Rule, date: LocalDate, step: nat)
    requires rule.Valid() && WalkOf(rule).Expansion().Ok? && WalkOf(rule).Expansion().value != []
    requires IsLocalDate(date) && NamedBy(rule, date, step)
    requires var out := WalkOf(rule).Expansion().value; !Less(out[|out| - 1].localDate, date)
    ensures Occurs(WalkOf(rule).Expansion().value, date)
  {
    var out := WalkOf(rule).Expansion().value;
    StepIsNamed(rule, step, date);
    var last := OccurrenceAt(rule, |out| - 1);
    if step > last { StepsInOrder(rule, last, step, out[|out| - 1].localDate, date); }
    var i := StepIsChosen(rule, last, step);
    var again := OccurrenceAt(rule, i);
  }

  /** The dates of a series are the dates its rule names, from the start to the last one: none missing, none besides. */
  lemma OccursIff(spec: RecurrenceSpec, rule: Rule, out: seq<Occurrence>, date: LocalDate)
    requires ExpandsTo(spec, rule, out) && out != []
    ensures Occurs(out, date) <==> Named(rule, date) && !Less(out[|out| - 1].localDate, date)
  {
    if Occurs(out, date) {
      var i :| 0 <= i < |out| && out[i].localDate == date;
      var step := OccurrenceAt(rule, i);
      StepIsNamed(rule, step, date);
      SeriesIncreases(spec, rule, out);
      NotAfterLast(out, i);
    }
    if Named(rule, date) && !Less(out[|out| - 1].localDate, date) {
      var step: nat :| NamedBy(rule, date, step);
      NamedOccurs(rule, date, step);
    }
  }
}
