/** What the expansion of a recurrence promises (packages/schema/src/recurrence.ts). */
module RecurrenceTheorems {
  import opened Text
  import opened Calendar
  import opened LocalDates
  import opened WallClock
  import opened ClockResolution
  import opened Recurrence

  /** The specification is valid, as `rule`, and expands to `out`. */
  ghost predicate ExpandsTo(spec: RecurrenceSpec, rule: Rule, out: seq<Occurrence>) {
    RuleOf(spec) == Ok(rule) && WalkOf(rule).Expansion() == Ok(out)
  }

  /** The day of the week, Sunday being 0. */
  function Weekday(date: LocalDate): int
    requires IsLocalDate(date)
  {
    (DayOf(date) + 4) % 7
  }

  // ------------------------------------------------------ each occurrence is on the rule

  predicate OnRule(rule: Rule, o: Occurrence, index: nat)
    requires rule.Valid()
  {
    && o.index == index
    && IsLocalDate(o.localDate)
    && !rule.PastUntil(o.localDate)
    && UtcToLocalDateTime(o.scheduledAt, rule.zone) == o.localStart
    && (o.resolution != Gap ==> o.localStart == o.localDate + "T" + rule.time)
    && SameDay(rule, o.localDate)
  }

  lemma SameWeekday(a: int, b: int)
    requires b % 7 == 0
    ensures (a + b + 4) % 7 == (a + 4) % 7
  {
    assert a + b + 4 == 7 * (b / 7) + (a + 4);
    SevenShift(b / 7, a + 4);
  }

  lemma SevenShift(q: int, r: int)
    ensures (7 * q + r) % 7 == r % 7
  {}

  /** The day that the rule repeats: a weekday or a day of the month. */
  predicate SameDay(rule: Rule, date: LocalDate)
    requires rule.Valid() && IsLocalDate(date)
  {
    && (rule.freq == Weekly ==> Weekday(date) == Weekday(rule.start))
    && (rule.freq == Monthly ==> DateParts(date).day == DateParts(rule.start).day)
  }

  lemma WeekdayKept(start: LocalDate, date: LocalDate, days: int)
    requires IsLocalDate(start) && IsLocalDate(date) && DayOf(date) == DayOf(start) + days && days % 7 == 0
    ensures Weekday(date) == Weekday(start)
  {
    SameWeekday(DayOf(start), days);
  }

  lemma MonthDayKept(c: Civil, months: int)
    requires 1 <= c.month <= 12
    ensures MonthTarget(c, months).day == c.day
  {}

  lemma StepKeepsDay(rule: Rule, step: nat, date: LocalDate)
    requires rule.Valid() && rule.StepDate(step) == Some(date) && IsLocalDate(date)
    ensures SameDay(rule, date)
  {
    if rule.freq == Monthly {
      MonthlyKeepsDay(rule, step, date);
    } else if rule.freq == Weekly {
      ShiftFacts(rule, step, step);
      DayStep(rule, step, date);
      WeekdayKept(rule.start, date, rule.Shift(step));
    }
  }

  lemma MonthlyKeepsDay(rule: Rule, step: nat, date: LocalDate)
    requires rule.Valid() && rule.freq == Monthly && rule.StepDate(step) == Some(date) && IsLocalDate(date)
    ensures DateParts(date).day == DateParts(rule.start).day
  {
    MonthStep(rule, step, date);
    DateBounds(rule.start);
    MonthDayKept(DateParts(rule.start), rule.Shift(step));
  }

  lemma OccurrenceOnRule(rule: Rule, i: nat)
    requires rule.Valid() && WalkOf(rule).Expansion().Ok? && i < |WalkOf(rule).Expansion().value|
    ensures OnRule(rule, WalkOf(rule).Expansion().value[i], i)
  {
    var step := OccurrenceAt(rule, i);
    var date := WalkOf(rule).Expansion().value[i].localDate;
    OccurrenceFacts(rule, date, i);
    StepKeepsDay(rule, step, date);
  }

  lemma OccurrencesOrdered(rule: Rule, i: nat, j: nat)
    requires rule.Valid() && WalkOf(rule).Expansion().Ok? && i < j < |WalkOf(rule).Expansion().value|
    ensures var out := WalkOf(rule).Expansion().value;
      && IsLocalDate(out[i].localDate) && IsLocalDate(out[j].localDate)
      && DayOf(out[i].localDate) < DayOf(out[j].localDate) && Less(out[i].localDate, out[j].localDate)
  {
    var s := OccurrenceAt(rule, i);
    var t := OccurrenceAt(rule, j);
    WalkOf(rule).ChosenInOrder(0, 0);
    var out := WalkOf(rule).Expansion().value;
    StepsInOrder(rule, s, t, out[i].localDate, out[j].localDate);
  }

  /** Occurrences are numbered from 0, keep the weekday or the day of the month, store a pair that
      reads back, never pass the last date, and have strictly increasing dates. */
  lemma SeriesFollowsRule(spec: RecurrenceSpec, rule: Rule, out: seq<Occurrence>)
    requires ExpandsTo(spec, rule, out)
    ensures |out| <= rule.count
    ensures forall i :: 0 <= i < |out| ==> OnRule(rule, out[i], i)
    ensures forall i, j :: 0 <= i < j < |out| ==> Less(out[i].localDate, out[j].localDate)
  {
    forall i | 0 <= i < |out| ensures OnRule(rule, out[i], i) { OccurrenceOnRule(rule, i); }
    forall i, j | 0 <= i < j < |out| ensures Less(out[i].localDate, out[j].localDate) {
      OccurrencesOrdered(rule, i, j);
    }
    var w := WalkOf(rule);
    w.ChosenInOrder(0, 0);
    if out != [] { var step := OccurrenceAt(rule, 0); }
  }

  lemma StepZero(rule: Rule)
    requires rule.Valid()
    ensures rule.StepDate(0) == Some(rule.start)
  {
    ShiftFacts(rule, 0, 0);
    DateBounds(rule.start);
    PartsOfText(rule.start);
    if rule.freq == Monthly {
      LaterMonth(DateParts(rule.start), 0);
      AddMonthsKeepsDay(rule.start, 0);
    } else {
      AddDaysIsDayArithmetic(rule.start, 0);
      DateOrder(AddDaysLocal(rule.start, 0), rule.start);
    }
  }

  /** The series starts on its start date, unless the last date is earlier. */
  lemma SeriesStartsAtStart(spec: RecurrenceSpec, rule: Rule, out: seq<Occurrence>)
    requires ExpandsTo(spec, rule, out)
    ensures out == [] <==> rule.PastUntil(rule.start)
    ensures out != [] ==> out[0].localDate == rule.start
  {
    StepZero(rule);
    var w := WalkOf(rule);
    w.ChosenAreDated(0, 0);
    assert w.dateOf(0) == Some(rule.start) && w.past(rule.start) == rule.PastUntil(rule.start);
    if out != [] { var step := OccurrenceAt(rule, 0); }
  }

  // ---------------------------------------------------------------- instants

  ghost predicate CloseOffsets(z: Zone) { forall s, t :: z(s) - z(t) < DAY }

  lemma LaterInstant(m: int, n: int, z: Zone, a: int, b: int)
    requires CloseOffsets(z) && n - m >= DAY
    requires TakesBracketOffset(a, m, z) && TakesBracketOffset(b, n, z)
    ensures a < b
  {}

  lemma NaiveOfDate(date: LocalDate, time: string)
    requires IsLocalDate(date) && IsLocalTime(time)
    ensures IsLocalDateTime(date + "T" + time) && NaiveUtcMs(date + "T" + time) == Moment(DayOf(date), TimeMs(time))
  {
    WallClockText(date, time);
  }

  lemma DaysApart(d: int, e: int, time: int)
    requires d < e
    ensures Moment(e, time) - Moment(d, time) >= DAY
  {}

  lemma ScheduledOffset(rule: Rule, o: Occurrence)
    requires rule.Valid() && WholeSecondOffsets(rule.zone) && WithinADay(rule.zone)
    requires OccurrenceOn(rule, o.localDate, o.index) == Ok(o) && IsLocalDate(o.localDate)
    ensures TakesBracketOffset(o.scheduledAt, Moment(DayOf(o.localDate), TimeMs(rule.time)), rule.zone)
  {
    NaiveOfDate(o.localDate, rule.time);
    ResolvedOffset(o.localDate + "T" + rule.time, rule.zone);
  }

  /** Where a zone's offsets differ by less than a day, later occurrences start later. */
  lemma InstantsIncrease(spec: RecurrenceSpec, rule: Rule, out: seq<Occurrence>, i: nat, j: nat)
    requires ExpandsTo(spec, rule, out) && i < j < |out|
    requires WholeSecondOffsets(rule.zone) && WithinADay(rule.zone) && CloseOffsets(rule.zone)
    ensures out[i].scheduledAt < out[j].scheduledAt
  {
    var s := OccurrenceAt(rule, i);
    var t := OccurrenceAt(rule, j);
    OccurrencesOrdered(rule, i, j);
    OccurrenceFacts(rule, out[i].localDate, i);
    OccurrenceFacts(rule, out[j].localDate, j);
    ScheduledOffset(rule, out[i]);
    ScheduledOffset(rule, out[j]);
    DaysApart(DayOf(out[i].localDate), DayOf(out[j].localDate), TimeMs(rule.time));
    LaterInstant(Moment(DayOf(out[i].localDate), TimeMs(rule.time)), Moment(DayOf(out[j].localDate), TimeMs(rule.time)),
                 rule.zone, out[i].scheduledAt, out[j].scheduledAt);
  }

  // ------------------------------------------------------- count and last date

  lemma WalksAgree(r: Rule, s: Rule)
    requires r.Valid() && s == r.(count := s.count, until := s.until)
    ensures WalkOf(r).Agrees(WalkOf(s))
  {}

  lemma RuleOfCount(spec: RecurrenceSpec, rule: Rule, count: Number)
    requires RuleOf(spec) == Ok(rule) && count.Finite? && 1 <= count.value.Floor <= rule.count
    ensures RuleOf(spec.(count := count)) == Ok(rule.(count := count.value.Floor))
  {}

  lemma NotEmpty(date: LocalDate)
    requires IsLocalDate(date)
    ensures date != ""
  {}

  lemma RuleOfUntil(spec: RecurrenceSpec, rule: Rule, until: LocalDate)
    requires RuleOf(spec) == Ok(rule) && IsLocalDate(until)
    ensures RuleOf(spec.(untilDate := Some(until))) == Ok(rule.(until := Some(until)))
  {
    NotEmpty(until);
  }

  /** A smaller count gives a prefix of the larger series. */
  lemma SmallerCountIsPrefix(spec: RecurrenceSpec, rule: Rule, out: seq<Occurrence>, count: Number)
    requires ExpandsTo(spec, rule, out)
    requires count.Finite? && 1 <= count.value.Floor <= rule.count
    ensures Expand(spec.(count := count)).Ok? && Expand(spec.(count := count)).value <= out
  {
    var small := rule.(count := count.value.Floor);
    RuleOfCount(spec, rule, count);
    var w, v := WalkOf(rule), WalkOf(small);
    WalksAgree(rule, small);
    w.ChosenPrefix(v, 0, 0);
    w.ChosenAreDated(0, 0);
    w.MadePrefix(v.Chosen(0, 0), w.Chosen(0, 0));
    w.MadeAgrees(v, v.Chosen(0, 0), 0);
  }

  /** A last date keeps exactly the occurrences that are not after it. */
  lemma UntilTruncates(spec: RecurrenceSpec, rule: Rule, out: seq<Occurrence>, until: LocalDate)
    requires ExpandsTo(spec, rule, out) && rule.until == None && IsLocalDate(until)
    ensures var r := Expand(spec.(untilDate := Some(until)));
      && r.Ok? && r.value <= out
      && (forall i :: 0 <= i < |out| ==> (i < |r.value| <==> !Less(until, out[i].localDate)))
  {
    var cut := rule.(until := Some(until));
    RuleOfUntil(spec, rule, until);
    var w, v := WalkOf(rule), WalkOf(cut);
    WalksAgree(cut, rule);
    v.UntilCuts(w, 0, 0);
    w.ChosenAreDated(0, 0);
    v.ChosenAreDated(0, 0);
    w.MadePrefix(v.Chosen(0, 0), w.Chosen(0, 0));
    v.MadeAgrees(w, v.Chosen(0, 0), 0);
    forall i | 0 <= i < |out|
      ensures i < |v.Expansion().value| <==> !Less(until, out[i].localDate)
    {
      CutKeeps(rule, cut, until, i);
    }
  }

  ghost predicate CutOf(rule: Rule, cut: Rule, until: LocalDate) {
    && rule.Valid() && rule.until == None && IsLocalDate(until) && cut == rule.(until := Some(until))
    && WalkOf(rule).Expansion().Ok? && WalkOf(cut).Expansion().Ok?
  }

  lemma FirstCut(rule: Rule, cut: Rule, until: LocalDate)
    requires CutOf(rule, cut, until) && |WalkOf(cut).Expansion().value| < |WalkOf(rule).Expansion().value|
    ensures Less(until, WalkOf(rule).Expansion().value[|WalkOf(cut).Expansion().value|].localDate)
  {
    var step := OccurrenceAt(rule, |WalkOf(cut).Expansion().value|);
    WalkOf(cut).ChosenAreDated(0, 0);
    WalksAgree(cut, rule);
    WalkOf(cut).UntilCuts(WalkOf(rule), 0, 0);
  }

  lemma CutKeeps(rule: Rule, cut: Rule, until: LocalDate, i: nat)
    requires CutOf(rule, cut, until) && WalkOf(cut).Expansion().value <= WalkOf(rule).Expansion().value
    requires i < |WalkOf(rule).Expansion().value|
    ensures i < |WalkOf(cut).Expansion().value| <==> !Less(until, WalkOf(rule).Expansion().value[i].localDate)
  {
    var out, k := WalkOf(rule).Expansion().value, |WalkOf(cut).Expansion().value|;
    if i < k {
      var step := OccurrenceAt(cut, i);
    } else {
      FirstCut(rule, cut, until);
      if k < i {
        OccurrencesOrdered(rule, k, i);
        LessTransitive(until, out[k].localDate, out[i].localDate);
      }
    }
  }
}
