/** Wall clocks in a zone whose UTC offset changes (packages/schema/src/recurrence.ts). */
module WallClock {
  import opened Integers
  import opened Text
  import opened Calendar
  import opened LocalDates

  const HOUR: int := 3_600_000
  const MINUTE: int := 60_000
  const SECOND: int := 1000

  /** A zone: its UTC offset in milliseconds at each instant, east positive. */
  type Zone = int -> int

  type LocalDateTime = string

  // ------------------------------------------------------------ reading a zone

  datatype WallParts = WallParts(date: Civil, hour: nat, minute: nat, second: nat)

  /** The wall clock's own milliseconds at instant `t`; the formatter has no field below seconds. */
  function WallMs(z: Zone, t: int): int { t - t % SECOND + z(t) }

  /** The formatter numbers the years before year 1 without an era: 1, 2, 3, ... backwards. */
  function ShownDate(day: int): Civil {
    var c := CivilFromDay(day);
    if c.year >= 1 then c else c.(year := 1 - c.year)
  }

  function WallPartsAt(z: Zone, t: int): WallParts {
    var w := WallMs(z, t);
    var rest := w % DAY;
    WallParts(ShownDate(w / DAY), rest / HOUR, rest % HOUR / MINUTE, rest % MINUTE / SECOND)
  }

  function ClockMs(hour: int, minute: int, second: int): int {
    HOUR * hour + MINUTE * minute + SECOND * second
  }

  function ZoneOffsetMsAt(z: Zone, t: int): int {
    var p := WallPartsAt(z, t);
    UtcDayOf(p.date) * DAY + ClockMs(p.hour, p.minute, p.second) - (t - t % SECOND)
  }

  function ClockText(hour: nat, minute: nat): string { Pad(hour, 2) + ":" + Pad(minute, 2) }

  function UtcToLocalDateTime(t: int, z: Zone): LocalDateTime {
    var p := WallPartsAt(z, t);
    ToLocalDate(p.date) + "T" + ClockText(p.hour, p.minute)
  }

  // ------------------------------------------------------- resolving a wall clock

  predicate IsLocalTime(value: string) {
    |value| == 5 && value[2] == ':' && AllDigits(value[..2]) && AllDigits(value[3..])
    && ParseDecimal(value[..2]) <= 23 && ParseDecimal(value[3..]) <= 59
  }

  predicate IsLocalDateTime(value: string) {
    |value| == 16 && value[10] == 'T' && IsLocalTime(value[11..]) && IsLocalDate(value[..10])
  }

  function TimeMs(time: string): int
    requires IsLocalTime(time)
  {
    ClockMs(ParseDecimal(time[..2]), ParseDecimal(time[3..]), 0)
  }

  /** The wall clock read as if it were UTC. */
  function NaiveUtcMs(local: LocalDateTime): int
    requires IsLocalDateTime(local)
  {
    Moment(DayOf(local[..10]), TimeMs(local[11..]))
  }

  function Moment(day: int, time: int): int { day * DAY + time }

  datatype Resolution = Exact | Gap | Ambiguous

  datatype ResolvedWallClock = ResolvedWallClock(utcMs: int, resolution: Resolution)

  datatype ClockError = InvalidLocal(local: string) | UnknownZone

  /** `zone` is `None` for a name the runtime does not know. */
  function WallClockToUtc(local: LocalDateTime, zone: Option<Zone>): Result<ResolvedWallClock, ClockError> {
    if !IsLocalDateTime(local) then Err(InvalidLocal(local))
    else if zone.None? then Err(UnknownZone)
    else Ok(Resolve(local, zone.value))
  }

  function Resolve(local: LocalDateTime, z: Zone): ResolvedWallClock
    requires IsLocalDateTime(local)
  {
    ResolveAt(NaiveUtcMs(local), z, RoundTrips(local, z))
  }

  /** Bracket the wall clock with the offsets a day either side of it. */
  function ResolveAt(naive: int, z: Zone, roundTrips: int -> bool): ResolvedWallClock {
    var offsetBefore, offsetAfter := ZoneOffsetMsAt(z, naive - DAY), ZoneOffsetMsAt(z, naive + DAY);
    Choose(Candidate(naive, offsetBefore), Candidate(naive, offsetAfter), roundTrips)
  }

  /** The instant at which a zone with this offset reads the wall clock. */
  function Candidate(naive: int, offset: int): int { naive - offset }

  function RoundTrips(local: LocalDateTime, z: Zone): int -> bool {
    candidate => UtcToLocalDateTime(candidate, z) == local
  }

  /** Choose between the candidates of the offsets a day before and a day after the wall clock. */
  function Choose(first: int, second: int, roundTrips: int -> bool): ResolvedWallClock {
    var candidates := if first == second then [first] else [first, second];
    var valid := Filter(candidates, roundTrips);
    if |valid| == 1 then ResolvedWallClock(valid[0], Exact)
    else if |valid| == 0 then ResolvedWallClock(Max(first, second), Gap)
    else ResolvedWallClock(Min(valid[0], valid[1]), Ambiguous)
  }

  function Filter(candidates: seq<int>, keep: int -> bool): seq<int> {
    if candidates == [] then []
    else (if keep(candidates[0]) then [candidates[0]] else []) + Filter(candidates[1..], keep)
  }

  datatype MaterializedWallClock =
    MaterializedWallClock(utcMs: int, localStart: LocalDateTime, resolution: Resolution)

  function MaterializeWallClock(local: LocalDateTime, zone: Option<Zone>): Result<MaterializedWallClock, ClockError> {
    match WallClockToUtc(local, zone)
    case Err(e) => Err(e)
    case Ok(r) => Ok(MaterializedWallClock(r.utcMs, UtcToLocalDateTime(r.utcMs, zone.value), r.resolution))
  }

  // ------------------------------------------------------------ clock arithmetic

  /** Hours, minutes and seconds add up to the whole seconds of the day. */
  lemma ClockParts(rest: int)
    requires 0 <= rest < DAY
    ensures 0 <= rest / HOUR <= 23 && 0 <= rest % HOUR / MINUTE <= 59 && 0 <= rest % MINUTE / SECOND <= 59
    ensures ClockMs(rest / HOUR, rest % HOUR / MINUTE, 0) == rest - rest % MINUTE
    ensures ClockMs(rest / HOUR, rest % HOUR / MINUTE, rest % MINUTE / SECOND) == rest - rest % SECOND
  {
    var h, m, s := rest / HOUR, rest % HOUR / MINUTE, rest % MINUTE / SECOND;
    var inHour, inMinute := rest % HOUR, rest % HOUR % MINUTE;
    assert rest == HOUR * h + inHour && inHour == MINUTE * m + inMinute;
    MinuteRemainder(60 * h + m, inMinute);
    assert rest == MINUTE * (60 * h + m) + inMinute;
    assert inMinute == SECOND * s + inMinute % SECOND;
    SecondRemainder(60 * (60 * h + m) + s, inMinute % SECOND);
  }

  lemma DayRemainder(q: int, r: int)
    requires 0 <= r < DAY
    ensures (DAY * q + r) % DAY == r && (DAY * q + r) / DAY == q
  {}

  lemma MinuteRemainder(q: int, r: int)
    requires 0 <= r < MINUTE
    ensures (MINUTE * q + r) % MINUTE == r && (MINUTE * q + r) / MINUTE == q
  {}

  lemma SecondRemainder(q: int, r: int)
    requires 0 <= r < SECOND
    ensures (SECOND * q + r) % SECOND == r && (SECOND * q + r) / SECOND == q
  {}

  /** A day and a time of day determine the moment, and the other way around. */
  lemma DayAndTime(w: int, day: int, rest: int)
    requires 0 <= rest < DAY
    ensures w == day * DAY + rest <==> w / DAY == day && w % DAY == rest
  {
    DayRemainder(day, rest);
  }

  lemma MinuteOfDay(w: int)
    ensures (w % DAY) % MINUTE == w % MINUTE && (w % DAY) % SECOND == w % SECOND
  {
    var q, r := w / DAY, w % DAY;
    var k, j := r / MINUTE, r / SECOND;
    MinuteRemainder(1440 * q + k, r % MINUTE);
    SecondRemainder(86_400 * q + j, r % SECOND);
    assert w == MINUTE * (1440 * q + k) + r % MINUTE;
    assert w == SECOND * (86_400 * q + j) + r % SECOND;
  }

  // ------------------------------------------------------- what the text says

  lemma ClockTextIs(hour: nat, minute: nat, time: string)
    requires hour <= 23 && minute <= 59 && IsLocalTime(time)
    ensures |ClockText(hour, minute)| == 5
    ensures ClockText(hour, minute) == time <==> TimeMs(time) == ClockMs(hour, minute, 0)
  {
    Pow10Values();
    FieldIs(hour, 2, time[..2]);
    FieldIs(minute, 2, time[3..]);
    ColonJoined(Pad(hour, 2), Pad(minute, 2), time);
    SameClock(hour, minute, ParseDecimal(time[..2]), ParseDecimal(time[3..]));
  }

  lemma FieldIs(n: nat, w: nat, s: string)
    requires 0 < w && n < Pow10(w) && |s| == w && AllDigits(s)
    ensures |Pad(n, w)| == w
    ensures Pad(n, w) == s <==> ParseDecimal(s) == n
  {
    PadRoundTrip(n, w);
    DigitsOfParse(s);
  }

  lemma ColonJoined(h: string, m: string, time: string)
    requires |h| == 2 && |m| == 2 && |time| == 5 && time[2] == ':'
    ensures h + ":" + m == time <==> h == time[..2] && m == time[3..]
  {
    assert time == time[..2] + ":" + time[3..];
    assert (h + ":" + m)[..2] == h && (h + ":" + m)[3..] == m;
  }

  lemma SameClock(h: int, m: int, h': int, m': int)
    requires 0 <= m <= 59 && 0 <= m' <= 59
    ensures ClockMs(h, m, 0) == ClockMs(h', m', 0) <==> h == h' && m == m'
  {}

  lemma DateTextIs(day: int, date: LocalDate)
    requires IsLocalDate(date)
    ensures ToLocalDate(CivilFromDay(day)) == date <==> DayOf(date) == day
  {
    var c := CivilFromDay(day);
    DayOfCivil(day);
    TextIsLocalDate(c);
    IsLocalDateIff(date);
    if ToLocalDate(c) == date { TextOfParts(c); }
    if DayOf(date) == day { CivilOfDay(DateParts(date)); PartsOfText(date); }
  }

  lemma Joined(date: string, clock: string, local: string)
    requires |clock| == 5 && |local| == 16 && local[10] == 'T'
    ensures date + "T" + clock == local <==> date == local[..10] && clock == local[11..]
  {
    assert local == local[..10] + "T" + local[11..];
    if date + "T" + clock == local {
      assert |date| == 10;
      assert (date + "T" + clock)[..10] == date && (date + "T" + clock)[11..] == clock;
    }
  }

  lemma TimeInDay(time: string)
    requires IsLocalTime(time)
    ensures 0 <= TimeMs(time) < DAY && TimeMs(time) % MINUTE == 0
  {
    MinuteRemainder(60 * ParseDecimal(time[..2]) + ParseDecimal(time[3..]), 0);
  }

  /** In the common era, an instant shows a wall clock exactly when its own milliseconds,
      cut to the minute, are those of that wall clock. */
  lemma ShowsLocal(z: Zone, t: int, local: LocalDateTime)
    requires IsLocalDateTime(local)
    requires WallMs(z, t) / DAY >= DayFromYear(1)
    ensures UtcToLocalDateTime(t, z) == local
      <==> WallMs(z, t) - WallMs(z, t) % MINUTE == NaiveUtcMs(local)
  {
    var w := WallMs(z, t);
    var rest := w % DAY;
    var p := WallPartsAt(z, t);
    CommonEraYear(w / DAY);
    ClockParts(rest);
    MinuteOfDay(w);
    ClockTextIs(p.hour, p.minute, local[11..]);
    Joined(ToLocalDate(p.date), ClockText(p.hour, p.minute), local);
    DateTextIs(w / DAY, local[..10]);
    TimeInDay(local[11..]);
    assert WallMs(z, t) - WallMs(z, t) % MINUTE == Moment(w / DAY, ClockMs(p.hour, p.minute, 0));
    SameMoment(w / DAY, ClockMs(p.hour, p.minute, 0), DayOf(local[..10]), TimeMs(local[11..]));
  }

  lemma SameMoment(d: int, r: int, e: int, s: int)
    requires 0 <= r < DAY && 0 <= s < DAY
    ensures Moment(d, r) == Moment(e, s) <==> d == e && r == s
  {}

  lemma CommonEraYear(day: int)
    ensures CivilFromDay(day).year >= 1 <==> day >= DayFromYear(1)
    ensures CivilFromDay(day).year >= 100 <==> day >= MIN_DAY
  {
    var c := CivilFromDay(day);
    DayOfCivil(day);
    DayWithinYear(c);
    WindowEdges();
    if c.year < 1 { YearsApart(c.year + 1, 1); } else { YearsApart(1, c.year); }
    if c.year < 100 { YearsApart(c.year + 1, 100); } else { YearsApart(100, c.year); }
  }

  /** The offset read back from the formatter is the zone's, from the year 100 on. */
  lemma OffsetRecovered(z: Zone, t: int)
    requires z(t) % SECOND == 0
    requires WallMs(z, t) / DAY >= MIN_DAY
    ensures ZoneOffsetMsAt(z, t) == z(t)
  {
    var w := WallMs(z, t);
    ShownDayNumber(w / DAY);
    ClockParts(w % DAY);
    MinuteOfDay(w);
    WholeSeconds(t, z(t));
    DayAndTime(w, w / DAY, w % DAY);
  }

  lemma ShownDayNumber(day: int)
    requires day >= MIN_DAY
    ensures UtcDayOf(ShownDate(day)) == day
  {
    CommonEraYear(day);
    DayOfCivil(day);
    UtcDayOfMonth(CivilFromDay(day));
  }

  lemma WholeSeconds(t: int, offset: int)
    requires offset % SECOND == 0
    ensures (t - t % SECOND + offset) % SECOND == 0
  {
    SecondRemainder(t / SECOND + offset / SECOND, 0);
    assert t - t % SECOND + offset == SECOND * (t / SECOND + offset / SECOND);
  }
}
