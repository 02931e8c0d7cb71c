/** Versions: parsing, printing and comparing (packages/schema/src/semver.ts). */
module Semver {
  import opened Text
  import opened Splitting

  datatype Id = Num(n: nat) | Alpha(s: string)

  datatype Version = Version(major: nat, minor: nat, patch: nat, prerelease: seq<Id>, build: seq<string>)

  predicate IdChar(c: char) { IsDigit(c) || 'A' <= c <= 'Z' || 'a' <= c <= 'z' || c == '-' }

  /** One or more identifier characters and dots. */
  predicate IdText(s: string) { s != "" && AllOf(s, OrSeparator('.', IdChar)) }

  // --------------------------------------------------------------------- pattern

  datatype Taken = Taken(number: string, rest: string)

  /** One or more digits, as many as there are. */
  function TakeNumber(s: string): Option<Taken> {
    var n := DigitRun(s);
    if n == 0 then None else Some(Taken(s[..n], s[n..]))
  }

  /** Digits and the dot after them. */
  function TakeDotted(s: string): Option<Taken> {
    match TakeNumber(s)
    case None => None
    case Some(t) => if t.rest != "" && t.rest[0] == '.' then Some(Taken(t.number, t.rest[1..])) else None
  }

  /** The first `+` at or after `i`, or the end. */
  function PlusAt(s: string): (n: nat)
    ensures n <= |s| && (n < |s| ==> s[n] == '+')
  {
    if s == "" || s[0] == '+' then 0 else 1 + PlusAt(s[1..])
  }

  /** What may follow the patch number: a prerelease after `-`, build metadata after `+`. */
  datatype Suffix = Suffix(pre: Option<string>, build: Option<string>)

  function MatchSuffix(rest: string): Option<Suffix> {
    var n := PlusAt(rest);
    var before := rest[..n];
    if before != "" && (before[0] != '-' || !IdText(before[1..])) then None
    else if n < |rest| && !IdText(rest[n + 1..]) then None
    else Some(Suffix(if before == "" then None else Some(before[1..]), if n < |rest| then Some(rest[n + 1..]) else None))
  }

  datatype VersionMatch = VersionMatch(major: string, minor: string, patch: string, suffix: Suffix)

  /** `VERSION_RE` and its groups. */
  function MatchVersion(s: string): Option<VersionMatch> {
    match TakeDotted(s)
    case None => None
    case Some(major) =>
      match TakeDotted(major.rest)
      case None => None
      case Some(minor) =>
        match TakeNumber(minor.rest)
        case None => None
        case Some(patch) =>
          match MatchSuffix(patch.rest)
          case None => None
          case Some(suffix) => Some(VersionMatch(major.number, minor.number, patch.number, suffix))
  }

  lemma NumbersMatched(s: string)
    requires MatchVersion(s).Some?
    ensures var m := MatchVersion(s).value;
      AllDigits(m.major) && AllDigits(m.minor) && AllDigits(m.patch) && m.major != "" && m.minor != "" && m.patch != ""
  {}

  // --------------------------------------------------------------------- parsing

  predicate LeadingZero(s: string) { |s| > 1 && s[0] == '0' }

  /** A prerelease identifier: a number without leading zero, or text. */
  function ReadId(id: string): Option<Id> {
    if id == "" then None
    else if AllDigits(id) then if LeadingZero(id) then None else Some(Num(ParseDecimal(id)))
    else Some(Alpha(id))
  }

  function ReadIds(ids: seq<string>): Option<seq<Id>> {
    if ids == [] then Some([])
    else
      match ReadId(ids[0])
      case None => None
      case Some(id) =>
        match ReadIds(ids[1..])
        case None => None
        case Some(rest) => Some([id] + rest)
  }

  predicate NoEmpty(ids: seq<string>) { forall i :: 0 <= i < |ids| ==> ids[i] != "" }

  function PartsIn(s: Option<string>): seq<string> {
    if s.Some? then Split(s.value, '.') else []
  }

  function ReadMatch(m: VersionMatch): Option<Version>
    requires AllDigits(m.major) && AllDigits(m.minor) && AllDigits(m.patch)
  {
    if LeadingZero(m.major) || LeadingZero(m.minor) || LeadingZero(m.patch) then None
    else
      match ReadIds(PartsIn(m.suffix.pre))
      case None => None
      case Some(ids) =>
        if NoEmpty(PartsIn(m.suffix.build))
        then Some(Version(ParseDecimal(m.major), ParseDecimal(m.minor), ParseDecimal(m.patch), ids, PartsIn(m.suffix.build)))
        else None
  }

  function ParseSemver(input: string): Option<Version> {
    match MatchVersion(Trim(input))
    case None => None
    case Some(m) =>
      NumbersMatched(Trim(input));
      ReadMatch(m)
  }

  lemma ReadPrefix(ids: seq<string>, done: seq<Id>, i: nat)
    requires i < |ids| && ReadIds(ids[..i]) == Some(done)
    ensures ReadIds(ids[..i + 1]) == if ReadId(ids[i]).Some? then Some(done + [ReadId(ids[i]).value]) else None
  {
    ReadAppend(ids[..i], done, ids[i]);
    assert ids[..i + 1] == ids[..i] + [ids[i]];
  }

  lemma {:induction false} ReadAppend(ids: seq<string>, done: seq<Id>, id: string)
    requires ReadIds(ids) == Some(done)
    ensures ReadIds(ids + [id]) == if ReadId(id).Some? then Some(done + [ReadId(id).value]) else None
  {
    if ids == [] {
      assert ids + [id] == [id] && [id][1..] == [] && ReadIds([]) == Some([]);
      if ReadId(id).Some? { assert [ReadId(id).value] + [] == done + [ReadId(id).value]; }
    } else {
      var rest := ReadIds(ids[1..]).value;
      ReadAppend(ids[1..], rest, id);
      assert (ids + [id])[1..] == ids[1..] + [id];
      if ReadId(id).Some? { assert [done[0]] + (rest + [ReadId(id).value]) == done + [ReadId(id).value]; }
    }
  }

  lemma {:induction false} ReadFails(ids: seq<string>, i: nat)
    requires i < |ids| && ReadId(ids[i]) == None
    ensures ReadIds(ids) == None
  {
    if i > 0 { ReadFails(ids[1..], i - 1); }
  }

  /** The loop over the identifiers, leaving at the first bad one. */
  method ReadPrerelease(ids: seq<string>) returns (r: Option<seq<Id>>)
    ensures r == ReadIds(ids)
  {
    var prerelease: seq<Id> := [];
    var i := 0;
    while i < |ids|
      invariant 0 <= i <= |ids| && ReadIds(ids[..i]) == Some(prerelease)
    {
      ReadPrefix(ids, prerelease, i);
      var id := ids[i];
      if id == "" {
        ReadFails(ids, i);
        return None;
      }
      if AllDigits(id) {
        if LeadingZero(id) {
          ReadFails(ids, i);
          return None;
        }
        prerelease := prerelease + [Num(ParseDecimal(id))];
      } else {
        prerelease := prerelease + [Alpha(id)];
      }
      i := i + 1;
    }
    assert ids[..i] == ids;
    r := Some(prerelease);
  }

  method ParseVersion(input: string) returns (r: Option<Version>)
    ensures r == ParseSemver(input)
  {
    var matched := MatchVersion(Trim(input));
    if matched.None? { return None; }
    var m := matched.value;
    NumbersMatched(Trim(input));
    if LeadingZero(m.major) || LeadingZero(m.minor) || LeadingZero(m.patch) { return None; }
    var prerelease := ReadPrerelease(PartsIn(m.suffix.pre));
    if prerelease.None? { return None; }
    var build := PartsIn(m.suffix.build);
    if !NoEmpty(build) { return None; }
    r := Some(Version(ParseDecimal(m.major), ParseDecimal(m.minor), ParseDecimal(m.patch), prerelease.value, build));
  }

  // -------------------------------------------------------------------- printing

  function TextOfId(id: Id): string { if id.Num? then Decimal(id.n) else id.s }

  function IdTexts(ids: seq<Id>): (r: seq<string>)
    ensures |r| == |ids|
  {
    if ids == [] then [] else [TextOfId(ids[0])] + IdTexts(ids[1..])
  }

  function Core(v: Version): string { Decimal(v.major) + "." + Decimal(v.minor) + "." + Decimal(v.patch) }

  function SuffixText(s: Suffix): string {
    (if s.pre.Some? then "-" + s.pre.value else "") + (if s.build.Some? then "+" + s.build.value else "")
  }

  function SuffixOf(v: Version): Suffix {
    Suffix(if v.prerelease == [] then None else Some(Join(IdTexts(v.prerelease), '.')),
      if v.build == [] then None else Some(Join(v.build, '.')))
  }

  function FormatSemver(v: Version): string { Core(v) + SuffixText(SuffixOf(v)) }

  // ------------------------------------------------------------------- comparing

  function CompareNat(x: nat, y: nat): int { if x == y then 0 else if x < y then -1 else 1 }

  function CompareText(x: string, y: string): int { if x == y then 0 else if Less(x, y) then -1 else 1 }

  /** Numbers by value and before texts, texts by code units. */
  function CompareId(x: Id, y: Id): int {
    if x.Num? && y.Num? then CompareNat(x.n, y.n)
    else if x.Num? then -1
    else if y.Num? then 1
    else CompareText(x.s, y.s)
  }

  /** By the first identifier that differs; a prefix sorts first. */
  function CompareIds(a: seq<Id>, b: seq<Id>): int {
    if a == [] && b == [] then 0
    else if a == [] then -1
    else if b == [] then 1
    else if CompareId(a[0], b[0]) != 0 then CompareId(a[0], b[0])
    else CompareIds(a[1..], b[1..])
  }

  /** A release, which has no identifiers, sorts last. */
  function ComparePre(a: seq<Id>, b: seq<Id>): int {
    if a == [] && b == [] then 0 else if a == [] then 1 else if b == [] then -1 else CompareIds(a, b)
  }

  function CompareSemver(a: Version, b: Version): int {
    if a.major != b.major then CompareNat(a.major, b.major)
    else if a.minor != b.minor then CompareNat(a.minor, b.minor)
    else if a.patch != b.patch then CompareNat(a.patch, b.patch)
    else ComparePre(a.prerelease, b.prerelease)
  }

  /** Texts that are no version sort last. */
  function CompareParsed(a: Option<Version>, b: Option<Version>): int {
    if a.Some? && b.Some? then CompareSemver(a.value, b.value) else if a.Some? then -1 else if b.Some? then 1 else 0
  }

  function CompareVersionStrings(a: string, b: string): int { CompareParsed(ParseSemver(a), ParseSemver(b)) }

  lemma CompareStep(a: seq<Id>, b: seq<Id>, i: nat)
    requires i < |a| && i < |b| && CompareId(a[i], b[i]) == 0
    ensures CompareIds(a[i..], b[i..]) == CompareIds(a[i + 1..], b[i + 1..])
  {
    assert a[i..][1..] == a[i + 1..] && b[i..][1..] == b[i + 1..];
  }

  method ComparePrerelease(a: seq<Id>, b: seq<Id>) returns (c: int)
    ensures c == ComparePre(a, b)
  {
    if |a| == 0 && |b| == 0 { return 0; }
    if |a| == 0 { return 1; }
    if |b| == 0 { return -1; }
    var len := if |a| >= |b| then |a| else |b|;
    var i := 0;
    while i < len
      invariant i <= |a| && i <= |b|
      invariant CompareIds(a[i..], b[i..]) == CompareIds(a, b)
      decreases len - i
    {
      if i == |a| { return -1; }
      if i == |b| { return 1; }
      var x, y := a[i], b[i];
      if x.Num? && y.Num? {
        if x.n != y.n { return if x.n < y.n then -1 else 1; }
      } else if x.Num? != y.Num? {
        return if x.Num? then -1 else 1;
      } else if x.s != y.s {
        return if Less(x.s, y.s) then -1 else 1;
      }
      CompareStep(a, b, i);
      i := i + 1;
    }
    c := 0;
  }
}
