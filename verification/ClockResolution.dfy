/** What `wallClockToUtc` and `materializeWallClock` promise (packages/schema/src/recurrence.ts). */
module ClockResolution {
  import opened Integers
  import opened Text
  import opened Calendar
  import opened LocalDates
  import opened WallClock

  ghost predicate WholeMinutes(z: Zone) { forall t :: z(t) % MINUTE == 0 }

  ghost predicate WithinADay(z: Zone) { forall t :: -DAY < z(t) < DAY }

  /** Between `lo` and `hi` the offset changes at most once, at `change`. */
  ghost predicate ChangesAt(z: Zone, lo: int, hi: int, change: int) {
    forall t :: lo <= t <= hi ==> z(t) == if t < change then z(lo) else z(hi)
  }

  ghost predicate ChangesOnce(z: Zone, lo: int, hi: int) {
    exists change :: ChangesAt(z, lo, hi, change)
  }

  /** Whole-minute offsets below a day, with at most one change within a day of the wall clock. */
  ghost predicate Regular(z: Zone, naive: int) {
    WholeMinutes(z) && WithinADay(z) && ChangesOnce(z, naive - DAY, naive + DAY)
  }

  /** The instants, on a whole minute of the common era, that read `local` in the zone. */
  function Reads(z: Zone, local: LocalDateTime): int -> bool {
    t => t % MINUTE == 0 && WallMs(z, t) / DAY >= DayFromYear(1) && UtcToLocalDateTime(t, z) == local
  }

  /** The answer names the only instant that reads the wall clock, the earlier of the two, or,
      when none does, the one that the offset in force before the gap gives. */
  ghost predicate FaithfulAnswer(r: ResolvedWallClock, naive: int, z: Zone, reading: int -> bool) {
    match r.resolution
    case Exact => reading(r.utcMs) && forall t :: reading(t) ==> t == r.utcMs
    case Ambiguous =>
      && reading(r.utcMs)
      && exists later | r.utcMs < later :: reading(later) && forall t :: reading(t) ==> t == r.utcMs || t == later
    case Gap => (forall t :: !reading(t)) && r.utcMs == Candidate(naive, z(naive - DAY)) && r.utcMs + z(r.utcMs) > naive
  }

  ghost predicate Faithful(local: LocalDateTime, z: Zone)
    requires IsLocalDateTime(local)
  {
    FaithfulAnswer(Resolve(local, z), NaiveUtcMs(local), z, Reads(z, local))
  }

  // ----------------------------------------------------- the choice, on numbers alone

  lemma ChooseCases(first: int, second: int, keep: int -> bool)
    ensures Choose(first, second, keep) ==
      if !keep(first) && !keep(second) then ResolvedWallClock(Max(first, second), Gap)
      else if keep(first) && keep(second) && first != second then ResolvedWallClock(Min(first, second), Ambiguous)
      else ResolvedWallClock(if keep(first) then first else second, Exact)
  {
    FilterOne(first, keep);
    FilterOne(second, keep);
    assert [first, second][1..] == [second];
  }

  lemma FilterOne(c: int, keep: int -> bool)
    ensures Filter([c], keep) == if keep(c) then [c] else []
  {
    assert [c][1..] == [];
  }

  /** A reading of the wall clock lies within a day of it, so its offset is one of the bracket's. */
  lemma ReadingIsCandidate(n: int, z: Zone, change: int, t: int)
    requires WithinADay(z) && ChangesAt(z, n - DAY, n + DAY, change)
    ensures t + z(t) == n ==> t == n - z(n - DAY) || t == n - z(n + DAY)
  {}

  lemma ChoiceIsFaithful(n: int, z: Zone, keep: int -> bool, reading: int -> bool, first: int, second: int)
    requires WithinADay(z) && ChangesOnce(z, n - DAY, n + DAY)
    requires forall t :: reading(t) <==> t + z(t) == n
    requires first == Candidate(n, z(n - DAY)) && second == Candidate(n, z(n + DAY))
    requires keep(first) <==> reading(first)
    requires keep(second) <==> reading(second)
    ensures FaithfulAnswer(Choose(first, second, keep), n, z, reading)
  {
    var change :| ChangesAt(z, n - DAY, n + DAY, change);
    ChooseCases(first, second, keep);
    forall t
      ensures reading(t) ==> t == first || t == second
    {
      ReadingIsCandidate(n, z, change, t);
    }
    if !keep(first) && !keep(second) { GapAnswer(n, z, change); }
  }

  lemma GapAnswer(n: int, z: Zone, change: int)
    requires WithinADay(z) && ChangesAt(z, n - DAY, n + DAY, change)
    requires z(n - z(n - DAY)) != z(n - DAY) && z(n - z(n + DAY)) != z(n + DAY)
    ensures var a, b := z(n - DAY), z(n + DAY);
      a < b && z(n - a) == b && Max(n - a, n - b) == n - a
  {
    var a, b := z(n - DAY), z(n + DAY);
    assert -DAY < a < DAY && -DAY < b < DAY;
    assert z(n - a) == if n - a < change then a else b;
    assert z(n - b) == if n - b < change then a else b;
  }

  // ------------------------------------------------------------ from text to numbers

  lemma MinuteSum(t: int, u: int)
    requires u % MINUTE == 0
    ensures (t + u) % MINUTE == 0 <==> t % MINUTE == 0
  {
    MinuteRemainder(t / MINUTE + u / MINUTE, t % MINUTE);
    assert t + u == MINUTE * (t / MINUTE + u / MINUTE) + t % MINUTE;
  }

  lemma MinuteIsSeconds(t: int)
    requires t % MINUTE == 0
    ensures t % SECOND == 0
  {
    SecondRemainder(60 * (t / MINUTE), 0);
  }

  lemma MomentBounds(day: int, time: int)
    requires MIN_DAY <= day <= MAX_DAY && 0 <= time < DAY && time % MINUTE == 0
    ensures MIN_DAY * DAY <= Moment(day, time) < (MAX_DAY + 1) * DAY
    ensures Moment(day, time) % MINUTE == 0
  {
    MinuteRemainder(1440 * day, 0);
    MinuteSum(day * DAY, time);
  }

  lemma NaiveBounds(local: LocalDateTime)
    requires IsLocalDateTime(local)
    ensures MIN_DAY * DAY <= NaiveUtcMs(local) < (MAX_DAY + 1) * DAY
    ensures NaiveUtcMs(local) % MINUTE == 0
  {
    DateBounds(local[..10]);
    TimeInDay(local[11..]);
    MomentBounds(DayOf(local[..10]), TimeMs(local[11..]));
  }

  /** The first midnight of the common era. */
  const YEAR_ONE: int := -719_162 * DAY

  lemma CommonEraDay(w: int)
    ensures w / DAY >= DayFromYear(1) <==> w >= YEAR_ONE
  {
    DayFromYearFormula(1);
    DayAndTime(w, w / DAY, w % DAY);
  }

  lemma WallOfMinute(z: Zone, t: int)
    requires t % MINUTE == 0
    ensures WallMs(z, t) == t + z(t)
  {
    MinuteIsSeconds(t);
  }

  lemma ShownAtMinute(z: Zone, t: int, local: LocalDateTime, w: int)
    requires IsLocalDateTime(local) && WallMs(z, t) == w && w % MINUTE == 0 && w >= YEAR_ONE
    ensures UtcToLocalDateTime(t, z) == local <==> w == NaiveUtcMs(local)
  {
    CommonEraDay(w);
    ShowsLocal(z, t, local);
  }

  /** On whole minutes, showing a wall clock is an equation between instant and offset. */
  lemma ShownIsEquation(z: Zone, t: int, local: LocalDateTime)
    requires IsLocalDateTime(local)
    requires t % MINUTE == 0 && z(t) % MINUTE == 0 && t + z(t) >= YEAR_ONE
    ensures UtcToLocalDateTime(t, z) == local <==> t + z(t) == NaiveUtcMs(local)
  {
    WallOfMinute(z, t);
    MinuteSum(t, z(t));
    ShownAtMinute(z, t, local, t + z(t));
  }

  /** The naive reading as a plain number, with all that the numbers need to know of the text. */
  ghost predicate NaiveIs(n: int, z: Zone, keep: int -> bool, reading: int -> bool) {
    && n % MINUTE == 0 && MIN_DAY * DAY <= n
    && (forall t :: reading(t) <==> t + z(t) == n)
    && (forall t | t % MINUTE == 0 && t + z(t) >= YEAR_ONE :: keep(t) <==> t + z(t) == n)
  }

  lemma ReadsIsEquation(z: Zone, t: int, local: LocalDateTime, n: int)
    requires IsLocalDateTime(local) && z(t) % MINUTE == 0 && n == NaiveUtcMs(local)
    requires n >= MIN_DAY * DAY && n % MINUTE == 0
    ensures Reads(z, local)(t) <==> t + z(t) == n
    ensures t % MINUTE == 0 && t + z(t) >= YEAR_ONE ==> (RoundTrips(local, z)(t) <==> t + z(t) == n)
  {
    MinuteSum(t, z(t));
    if t % MINUTE == 0 {
      WallOfMinute(z, t);
      CommonEraDay(t + z(t));
      if t + z(t) >= YEAR_ONE { ShownIsEquation(z, t, local); }
    }
  }

  lemma NaiveIsNumber(local: LocalDateTime, z: Zone)
    requires IsLocalDateTime(local) && WholeMinutes(z)
    ensures NaiveIs(NaiveUtcMs(local), z, RoundTrips(local, z), Reads(z, local))
  {
    NaiveBounds(local);
    forall t
      ensures Reads(z, local)(t) <==> t + z(t) == NaiveUtcMs(local)
      ensures t % MINUTE == 0 && t + z(t) >= YEAR_ONE ==> (RoundTrips(local, z)(t) <==> t + z(t) == NaiveUtcMs(local))
    {
      ReadsIsEquation(z, t, local, NaiveUtcMs(local));
    }
  }

  /** A candidate is kept exactly when it reads the wall clock. */
  lemma KeptIsReading(n: int, z: Zone, keep: int -> bool, reading: int -> bool, offset: int)
    requires WithinADay(z) && NaiveIs(n, z, keep, reading)
    requires -DAY < offset < DAY && offset % MINUTE == 0
    ensures keep(Candidate(n, offset)) <==> reading(Candidate(n, offset))
  {
    MinuteSum(n - offset, offset);
    assert n - offset + z(n - offset) >= YEAR_ONE;
  }

  // ---------------------------------------------------------------------- the bracket

  /** 0100-01-02T23:59: from here on, a day earlier is in the year 100 or later in every zone. */
  const EARLIEST: int := (MIN_DAY + 2) * DAY - MINUTE

  lemma BracketOffset(z: Zone, t: int)
    requires WholeMinutes(z) && WithinADay(z)
    requires t % MINUTE == 0 && t >= (MIN_DAY + 1) * DAY - MINUTE
    ensures ZoneOffsetMsAt(z, t) == z(t)
  {
    MinuteIsSeconds(z(t));
    WallOfMinute(z, t);
    AboveMinusADay(z(t));
    DayAndTime(t + z(t), (t + z(t)) / DAY, (t + z(t)) % DAY);
    OffsetRecovered(z, t);
  }

  lemma AboveMinusADay(offset: int)
    requires -DAY < offset && offset % MINUTE == 0
    ensures -DAY + MINUTE <= offset
  {}

  lemma ShiftByADay(n: int)
    requires n % MINUTE == 0
    ensures (n - DAY) % MINUTE == 0 && (n + DAY) % MINUTE == 0
  {
    MinuteSum(n, DAY);
    MinuteSum(n - DAY, DAY);
  }

  lemma BracketOffsets(z: Zone, n: int)
    requires WholeMinutes(z) && WithinADay(z) && n % MINUTE == 0 && n >= EARLIEST
    ensures ZoneOffsetMsAt(z, n - DAY) == z(n - DAY) && ZoneOffsetMsAt(z, n + DAY) == z(n + DAY)
  {
    ShiftByADay(n);
    BracketOffset(z, n - DAY);
    BracketOffset(z, n + DAY);
  }

  lemma ResolveAtIsChoice(n: int, z: Zone, keep: int -> bool)
    requires ZoneOffsetMsAt(z, n - DAY) == z(n - DAY) && ZoneOffsetMsAt(z, n + DAY) == z(n + DAY)
    ensures ResolveAt(n, z, keep) == Choose(Candidate(n, z(n - DAY)), Candidate(n, z(n + DAY)), keep)
  {}

  lemma FaithfulNumbers(n: int, z: Zone, keep: int -> bool, reading: int -> bool, r: ResolvedWallClock)
    requires Regular(z, n) && NaiveIs(n, z, keep, reading)
    requires r == Choose(Candidate(n, z(n - DAY)), Candidate(n, z(n + DAY)), keep)
    ensures FaithfulAnswer(r, n, z, reading)
  {
    KeptIsReading(n, z, keep, reading, z(n - DAY));
    KeptIsReading(n, z, keep, reading, z(n + DAY));
    ChoiceIsFaithful(n, z, keep, reading, Candidate(n, z(n - DAY)), Candidate(n, z(n + DAY)));
  }

  lemma ResolveAtIsFaithful(n: int, z: Zone, keep: int -> bool, reading: int -> bool)
    requires Regular(z, n) && NaiveIs(n, z, keep, reading) && n >= EARLIEST
    ensures FaithfulAnswer(ResolveAt(n, z, keep), n, z, reading)
  {
    BracketOffsets(z, n);
    ResolveAtIsChoice(n, z, keep);
    FaithfulNumbers(n, z, keep, reading, ResolveAt(n, z, keep));
  }

  /** Every regular zone is resolved faithfully from 0100-01-02T23:59 on. */
  lemma FaithfulFromEarliest(local: LocalDateTime, z: Zone)
    requires IsLocalDateTime(local) && NaiveUtcMs(local) >= EARLIEST
    requires Regular(z, NaiveUtcMs(local))
    ensures Faithful(local, z)
  {
    var n := NaiveUtcMs(local);
    NaiveIsNumber(local, z);
    ResolveAtIsFaithful(n, z, RoundTrips(local, z), Reads(z, local));
  }

  // -------------------------------------------------------- the first days of year 100

  /** How far `Date.UTC` moves a date of the year 99: to 1999. */
  const MOVED: int := 693_960

  lemma YearNinetyNine()
    ensures DayFromYear(99) == MIN_DAY - 365 && DayFromYear(1999) == MIN_DAY - 365 + MOVED
    ensures DayFromYear(100) == MIN_DAY && DayFromYear(101) == MIN_DAY + 365
  {
    DayFromYearFormula(99); DayFromYearFormula(100); DayFromYearFormula(101); DayFromYearFormula(1999);
  }

  lemma YearOfDay(day: int, low: int, high: int)
    requires low < high && DayFromYear(low) <= day < DayFromYear(high)
    ensures low <= CivilFromDay(day).year < high
  {
    var c := CivilFromDay(day);
    DayOfCivil(day);
    DayWithinYear(c);
    if c.year < low { YearsApart(c.year + 1, low); }
    if c.year >= high { YearsApart(high, c.year); }
  }

  lemma MovedDay(day: int)
    requires MIN_DAY - 365 <= day < MIN_DAY
    ensures UtcDayOf(ShownDate(day)) == day + MOVED
  {
    YearNinetyNine();
    YearOfDay(day, 99, 100);
    DayOfCivil(day);
    UtcDayOfMonth(CivilFromDay(day));
  }

  /** Below the year 100 the offset read back is off by nineteen centuries. */
  lemma MovedOffset(z: Zone, t: int)
    requires z(t) % SECOND == 0 && MIN_DAY - 365 <= WallMs(z, t) / DAY < MIN_DAY
    ensures ZoneOffsetMsAt(z, t) == z(t) + MOVED * DAY
  {
    var w := WallMs(z, t);
    MovedDay(w / DAY);
    ClockParts(w % DAY);
    MinuteOfDay(w);
    WholeSeconds(t, z(t));
    DayAndTime(w, w / DAY, w % DAY);
  }

  lemma AncientYear(day: int)
    requires MIN_DAY - MOVED - 4 <= day <= MIN_DAY - MOVED + 4
    ensures -1803 <= CivilFromDay(day).year < -1797
  {
    DayFromYearFormula(-1803);
    DayFromYearFormula(-1797);
    YearOfDay(day, -1803, -1797);
  }

  lemma EarlyLocalYear(date: LocalDate)
    requires IsLocalDate(date) && DayOf(date) < MIN_DAY + 365
    ensures DateParts(date).year == 100
  {
    DateBounds(date);
    DayWithinYear(DateParts(date));
    YearNinetyNine();
    if DateParts(date).year > 100 { YearsApart(101, DateParts(date).year); }
  }

  /** A candidate nineteen centuries early never shows a wall clock of the year 100. */
  lemma AncientNeverShows(z: Zone, t: int, local: LocalDateTime)
    requires IsLocalDateTime(local) && DayOf(local[..10]) < MIN_DAY + 365
    requires MIN_DAY - MOVED - 4 <= WallMs(z, t) / DAY <= MIN_DAY - MOVED + 4
    ensures !RoundTrips(local, z)(t)
  {
    var p := WallPartsAt(z, t);
    AncientYear(WallMs(z, t) / DAY);
    EarlyLocalYear(local[..10]);
    YearDiffers(p.date, "T" + ClockText(p.hour, p.minute), local);
    assert ToLocalDate(p.date) + "T" + ClockText(p.hour, p.minute)
        == ToLocalDate(p.date) + ("T" + ClockText(p.hour, p.minute));
  }

  lemma YearDiffers(c: Civil, tail: string, local: string)
    requires 0 <= c.year <= 9999 && |local| >= 10 && DateShape(local[..10]) && DateParts(local[..10]).year != c.year
    ensures ToLocalDate(c) + tail != local
  {
    Pow10Values();
    FieldIs(c.year, 4, local[..10][..4]);
    assert (ToLocalDate(c) + tail)[..4] == Pad(c.year, 4);
    assert local[..4] == local[..10][..4];
  }

  ghost predicate WholeSecondOffsets(z: Zone) { forall t :: z(t) % SECOND == 0 }

  lemma DayBounds(w: int, low: int, high: int)
    requires low * DAY <= w < high * DAY
    ensures low <= w / DAY < high
  {
    DayAndTime(w, w / DAY, w % DAY);
  }

  lemma WallOfSecond(z: Zone, t: int)
    requires t % SECOND == 0
    ensures WallMs(z, t) == t + z(t)
  {}

  /** A bracket in the year 99 gives a candidate that is never kept and lies before the other. */
  lemma LostCandidate(z: Zone, local: LocalDateTime, n: int)
    requires IsLocalDateTime(local) && n == NaiveUtcMs(local)
    requires WholeSecondOffsets(z) && WithinADay(z)
    requires n - DAY + z(n - DAY) < MIN_DAY * DAY
    ensures ZoneOffsetMsAt(z, n - DAY) >= (MOVED - 1) * DAY
    ensures !RoundTrips(local, z)(Candidate(n, ZoneOffsetMsAt(z, n - DAY)))
  {
    NaiveBounds(local);
    NaiveDay(local);
    LostOffset(z, n);
    AncientCandidate(z, n, Candidate(n, ZoneOffsetMsAt(z, n - DAY)), ZoneOffsetMsAt(z, n - DAY));
    AncientNeverShows(z, Candidate(n, ZoneOffsetMsAt(z, n - DAY)), local);
  }

  lemma LostOffset(z: Zone, n: int)
    requires WholeSecondOffsets(z) && WithinADay(z) && n % MINUTE == 0 && n >= MIN_DAY * DAY
    requires n - DAY + z(n - DAY) < MIN_DAY * DAY
    ensures ZoneOffsetMsAt(z, n - DAY) == z(n - DAY) + MOVED * DAY
  {
    SecondsBefore(n);
    WallOfSecond(z, n - DAY);
    DayBounds(n - DAY + z(n - DAY), MIN_DAY - 2, MIN_DAY);
    MovedOffset(z, n - DAY);
  }

  /** Any other bracket reads the zone's own offset. */
  lemma KnownOffset(z: Zone, t: int)
    requires z(t) % SECOND == 0 && t % SECOND == 0 && t + z(t) >= MIN_DAY * DAY
    ensures ZoneOffsetMsAt(z, t) == z(t)
  {
    WallOfSecond(z, t);
    DayBounds(t + z(t), MIN_DAY, (t + z(t)) / DAY + 1);
    OffsetRecovered(z, t);
  }

  lemma NaiveDay(local: LocalDateTime)
    requires IsLocalDateTime(local)
    ensures DayOf(local[..10]) * DAY <= NaiveUtcMs(local)
  {
    TimeInDay(local[11..]);
  }

  lemma SecondsBefore(n: int)
    requires n % MINUTE == 0
    ensures (n - DAY) % SECOND == 0 && (n + DAY) % SECOND == 0
  {
    ShiftByADay(n);
    MinuteIsSeconds(n - DAY);
    MinuteIsSeconds(n + DAY);
  }

  lemma AncientCandidate(z: Zone, n: int, t: int, offset: int)
    requires WithinADay(z) && MIN_DAY * DAY <= n < (MIN_DAY + 2) * DAY
    requires (MOVED - 1) * DAY < offset < (MOVED + 1) * DAY && t == Candidate(n, offset)
    ensures MIN_DAY - MOVED - 4 <= WallMs(z, t) / DAY <= MIN_DAY - MOVED + 4
  {
    DayBounds(WallMs(z, t), MIN_DAY - MOVED - 3, MIN_DAY - MOVED + 5);
  }

  /** A zone 23:59 behind until a day after the naive instant, and on UTC from then on. */
  function LateZone(n: int): Zone { t => if t < n + DAY then -1439 * MINUTE else 0 }

  lemma LateZoneIsRegular(n: int)
    ensures Regular(LateZone(n), n) && WholeSecondOffsets(LateZone(n))
  {
    assert ChangesAt(LateZone(n), n - DAY, n + DAY, n + DAY);
  }

  /** On the first days of the year 100 that zone has one reading and is answered `gap`. */
  lemma UnfaithfulBefore(local: LocalDateTime)
    requires IsLocalDateTime(local) && NaiveUtcMs(local) < EARLIEST
    ensures !Faithful(local, LateZone(NaiveUtcMs(local)))
  {
    var n := NaiveUtcMs(local);
    var z := LateZone(n);
    LateZoneIsRegular(n);
    NaiveIsNumber(local, z);
    LostCandidate(z, local, n);
    LateGap(n, RoundTrips(local, z), Reads(z, local));
  }

  lemma LateGap(n: int, keep: int -> bool, reading: int -> bool)
    requires NaiveIs(n, LateZone(n), keep, reading)
    requires !keep(Candidate(n, ZoneOffsetMsAt(LateZone(n), n - DAY)))
    ensures !FaithfulAnswer(ResolveAt(n, LateZone(n), keep), n, LateZone(n), reading)
  {
    var z := LateZone(n);
    SecondsBefore(n);
    KnownOffset(z, n + DAY);
    NeitherKept(n, z, keep);
    assert reading(n + 1439 * MINUTE);
  }

  lemma NeitherKept(n: int, z: Zone, keep: int -> bool)
    requires !keep(Candidate(n, ZoneOffsetMsAt(z, n - DAY))) && !keep(Candidate(n, ZoneOffsetMsAt(z, n + DAY)))
    ensures ResolveAt(n, z, keep).resolution == Gap
  {
    ChooseCases(Candidate(n, ZoneOffsetMsAt(z, n - DAY)), Candidate(n, ZoneOffsetMsAt(z, n + DAY)), keep);
  }

  lemma FirstOfYear(c: Civil)
    requires c.month == 1 && c.day == 1
    ensures Calendar.Valid(c) && DayNumber(c) == DayFromYear(c.year)
  {}

  lemma YearStart(date: LocalDate, y: string, one: string, c: Civil)
    requires date == y + "-" + one + "-" + one && |y| == 4 && AllDigits(y) && one == "01"
    requires c == Civil(ParseDecimal(y), 1, 1) && FourDigitYear(c)
    ensures IsLocalDate(date) && DayOf(date) == DayFromYear(c.year)
  {
    ParseTwo(one);
    FirstOfYear(c);
    WrittenDate(y, one, one, c);
    DateBounds(date);
  }

  lemma FirstDay(date: LocalDate)
    requires date == "0100-01-01"
    ensures IsLocalDate(date) && DayOf(date) == MIN_DAY
  {
    var y := date[..4];
    ParseFour(y);
    YearStart(date, y, "01", Civil(ParseDecimal(y), 1, 1));
    WindowEdges();
  }

  lemma Midnight()
    ensures IsLocalTime("00:00") && TimeMs("00:00") == 0
  {
    ParseTwo("00");
    assert "00:00"[..2] == "00" && "00:00"[3..] == "00";
  }

  lemma MidnightOf(date: LocalDate)
    requires IsLocalDate(date)
    ensures IsLocalDateTime(date + "T00:00") && NaiveUtcMs(date + "T00:00") == DayOf(date) * DAY
  {
    var s := date + "T00:00";
    Midnight();
    assert s[..10] == date && s[11..] == "00:00";
  }

  lemma UnfaithfulSomewhere(local: LocalDateTime)
    requires IsLocalDateTime(local) && NaiveUtcMs(local) < EARLIEST
    ensures exists z :: Regular(z, NaiveUtcMs(local)) && !Faithful(local, z)
  {
    LateZoneIsRegular(NaiveUtcMs(local));
    UnfaithfulBefore(local);
  }

  lemma EarlyMidnight(date: LocalDate, local: LocalDateTime)
    requires IsLocalDate(date) && DayOf(date) == MIN_DAY && local == date + "T00:00"
    ensures IsLocalDateTime(local) && NaiveUtcMs(local) < EARLIEST
  {
    MidnightOf(date);
  }

  /** Midnight of the first day of the year 100: a regular zone in which it is answered wrongly. */
  lemma FirstMidnightGap(date: LocalDate, local: LocalDateTime)
    requires date == "0100-01-01" && local == date + "T00:00"
    ensures IsLocalDateTime(local)
    ensures exists z :: Regular(z, NaiveUtcMs(local)) && !Faithful(local, z)
  {
    FirstDay(date);
    EarlyMidnight(date, local);
    UnfaithfulSomewhere(local);
  }

  /** The wall clocks that every regular zone resolves faithfully are those from
      0100-01-02T23:59 on. */
  lemma FaithfulIff(local: LocalDateTime)
    requires IsLocalDateTime(local)
    ensures (forall z | Regular(z, NaiveUtcMs(local)) :: Faithful(local, z)) <==> NaiveUtcMs(local) >= EARLIEST
  {
    if NaiveUtcMs(local) >= EARLIEST {
      forall z | Regular(z, NaiveUtcMs(local)) ensures Faithful(local, z) { FaithfulFromEarliest(local, z); }
    } else {
      UnfaithfulSomewhere(local);
    }
  }

  // ------------------------------------------------------------ in every zone

  lemma ChosenIsKept(n: int, z: Zone, keep: int -> bool)
    ensures keep(ResolveAt(n, z, keep).utcMs) <==> ResolveAt(n, z, keep).resolution != Gap
  {
    ChooseCases(Candidate(n, ZoneOffsetMsAt(z, n - DAY)), Candidate(n, ZoneOffsetMsAt(z, n + DAY)), keep);
  }

  /** The pair that is stored reads back in every zone, and it is the requested wall clock
      exactly when the answer is not a gap. */
  lemma MaterializedPairReadsBack(local: LocalDateTime, zone: Option<Zone>)
    ensures MaterializeWallClock(local, zone).Ok? <==> IsLocalDateTime(local) && zone.Some?
    ensures MaterializeWallClock(local, zone).Ok? ==>
      var m := MaterializeWallClock(local, zone).value;
      && UtcToLocalDateTime(m.utcMs, zone.value) == m.localStart
      && (m.localStart == local <==> m.resolution != Gap)
  {
    if IsLocalDateTime(local) && zone.Some? {
      ChosenIsKept(NaiveUtcMs(local), zone.value, RoundTrips(local, zone.value));
    }
  }

  /** `r` is the wall clock less one of the offsets a day either side of it. */
  predicate TakesBracketOffset(r: int, n: int, z: Zone) {
    r == Candidate(n, z(n - DAY)) || r == Candidate(n, z(n + DAY))
  }

  /** The later bracket reads the zone; the earlier one does too, or gives a candidate that loses. */
  predicate Bracketed(n: int, z: Zone, keep: int -> bool) {
    && ZoneOffsetMsAt(z, n + DAY) == z(n + DAY)
    && (ZoneOffsetMsAt(z, n - DAY) == z(n - DAY)
        || (!keep(Candidate(n, ZoneOffsetMsAt(z, n - DAY))) && ZoneOffsetMsAt(z, n - DAY) >= z(n + DAY)))
  }

  lemma OffsetChosen(n: int, z: Zone, keep: int -> bool)
    requires Bracketed(n, z, keep)
    ensures TakesBracketOffset(ResolveAt(n, z, keep).utcMs, n, z)
  {
    ChooseCases(Candidate(n, ZoneOffsetMsAt(z, n - DAY)), Candidate(n, ZoneOffsetMsAt(z, n + DAY)), keep);
  }

  lemma BracketReadings(local: LocalDateTime, z: Zone, n: int)
    requires IsLocalDateTime(local) && n == NaiveUtcMs(local)
    requires WholeSecondOffsets(z) && WithinADay(z)
    ensures Bracketed(n, z, RoundTrips(local, z))
  {
    NaiveBounds(local);
    SecondsBefore(n);
    KnownOffset(z, n + DAY);
    if n - DAY + z(n - DAY) < MIN_DAY * DAY { LostCandidate(z, local, n); } else { KnownOffset(z, n - DAY); }
  }

  /** In every zone the chosen instant takes an offset in force within a day of the wall clock. */
  lemma ResolvedOffset(local: LocalDateTime, z: Zone)
    requires IsLocalDateTime(local) && WholeSecondOffsets(z) && WithinADay(z)
    ensures TakesBracketOffset(Resolve(local, z).utcMs, NaiveUtcMs(local), z)
  {
    BracketReadings(local, z, NaiveUtcMs(local));
    OffsetChosen(NaiveUtcMs(local), z, RoundTrips(local, z));
  }

  /** What cannot be resolved: a text that is no wall clock, and then an unknown zone. */
  lemma RefusedClock(local: LocalDateTime, zone: Option<Zone>)
    ensures MaterializeWallClock(local, zone) == Err(InvalidLocal(local)) <==> !IsLocalDateTime(local)
    ensures MaterializeWallClock(local, zone) == Err(UnknownZone) <==> IsLocalDateTime(local) && zone == None
  {}

  /** Local times are the minutes of a day, hours and minutes in two digits each. */
  lemma LocalTimeIff(hour: nat, minute: nat)
    requires hour < 100 && minute < 100
    ensures IsLocalTime(ClockText(hour, minute)) <==> hour <= 23 && minute <= 59
    ensures IsLocalTime(ClockText(hour, minute)) ==> TimeMs(ClockText(hour, minute)) == (60 * hour + minute) * 60_000
  {
    Pow10Values();
    PadRoundTrip(hour, 2);
    PadRoundTrip(minute, 2);
    assert ClockText(hour, minute)[..2] == Pad(hour, 2) && ClockText(hour, minute)[3..] == Pad(minute, 2);
  }
}
