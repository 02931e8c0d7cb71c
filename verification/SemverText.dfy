/** `parseSemver` and `formatSemver` undo each other. */
module SemverText {
  import opened Text
  import opened Splitting
  import opened Semver

  /** A prerelease identifier that parsing can return. */
  predicate GoodId(id: Id) { id.Alpha? ==> id.s != "" && !AllDigits(id.s) && AllOf(id.s, IdChar) }

  predicate GoodBuild(s: string) { s != "" && AllOf(s, IdChar) }

  predicate WellFormed(v: Version) {
    (forall i :: 0 <= i < |v.prerelease| ==> GoodId(v.prerelease[i]))
    && (forall i :: 0 <= i < |v.build| ==> GoodBuild(v.build[i]))
  }

  // ----------------------------------------------------------------- identifiers

  lemma {:induction false} DigitsAreIdText(s: string)
    requires AllDigits(s)
    ensures AllOf(s, IdChar)
  {
    if s != "" { DigitsAreIdText(s[1..]); }
  }

  lemma ReadOfText(id: Id)
    requires GoodId(id)
    ensures ReadId(TextOfId(id)) == Some(id) && GoodBuild(TextOfId(id))
  {
    if id.Num? {
      ParseOfDecimal(id.n);
      DecimalIsCanonical(id.n);
      DigitsAreIdText(Decimal(id.n));
    }
  }

  lemma TextOfRead(s: string)
    requires ReadId(s).Some? && AllOf(s, IdChar)
    ensures TextOfId(ReadId(s).value) == s && GoodId(ReadId(s).value)
  {
    if AllDigits(s) { DecimalOfParse(s); }
  }

  /** Identifiers as texts: each good as a part of a joined text. */
  predicate GoodParts(parts: seq<string>) { forall i :: 0 <= i < |parts| ==> GoodBuild(parts[i]) }

  lemma {:induction false} ReadOfTexts(ids: seq<Id>)
    requires forall i :: 0 <= i < |ids| ==> GoodId(ids[i])
    ensures ReadIds(IdTexts(ids)) == Some(ids) && GoodParts(IdTexts(ids))
  {
    if ids != [] {
      ReadOfText(ids[0]);
      ReadOfTexts(ids[1..]);
      assert IdTexts(ids)[1..] == IdTexts(ids[1..]) && ids == [ids[0]] + ids[1..];
    }
  }

  lemma {:induction false} TextsOfRead(parts: seq<string>)
    requires ReadIds(parts).Some? && PartsOf(parts, IdChar)
    ensures IdTexts(ReadIds(parts).value) == parts
    ensures forall i :: 0 <= i < |ReadIds(parts).value| ==> GoodId(ReadIds(parts).value[i])
  {
    if parts != [] {
      TextOfRead(parts[0]);
      TextsOfRead(parts[1..]);
      var ids := ReadIds(parts).value;
      assert ids[1..] == ReadIds(parts[1..]).value && parts == [parts[0]] + parts[1..];
    }
  }

  lemma {:induction false} LacksDot(s: string)
    requires AllOf(s, IdChar)
    ensures Lacks(s, '.')
  {
    if s != "" { LacksDot(s[1..]); }
  }

  lemma {:induction false} GoodPartsOf(parts: seq<string>)
    requires GoodParts(parts)
    ensures PartsOf(parts, IdChar)
  {
    if parts != [] { GoodPartsOf(parts[1..]); }
  }

  /** Joined good parts are identifier text, and split into the parts again. */
  lemma JoinedParts(parts: seq<string>)
    requires GoodParts(parts) && parts != []
    ensures IdText(Join(parts, '.')) && Split(Join(parts, '.'), '.') == parts
  {
    forall i | 0 <= i < |parts| ensures Lacks(parts[i], '.') { LacksDot(parts[i]); }
    SplitOfJoin(parts, '.');
    GoodPartsOf(parts);
    PartsKeep(Join(parts, '.'), '.', IdChar);
    JoinNotEmpty(parts);
  }

  lemma JoinNotEmpty(parts: seq<string>)
    requires GoodParts(parts) && parts != []
    ensures Join(parts, '.') != ""
  {}

  /** The parts of identifier text: text of identifier characters, joined to the text again. */
  lemma SplitParts(s: string)
    requires IdText(s)
    ensures PartsOf(Split(s, '.'), IdChar) && Join(Split(s, '.'), '.') == s
  {
    JoinOfSplit(s, '.');
    PartsKeep(s, '.', IdChar);
  }

  // ---------------------------------------------------------------------- suffix

  /** What may follow the patch number. */
  predicate GoodSuffix(s: Suffix) { (s.pre.Some? ==> IdText(s.pre.value)) && (s.build.Some? ==> IdText(s.build.value)) }

  lemma IdTextChar(c: char)
    ensures OrSeparator('.', IdChar)(c) <==> c == '.' || IdChar(c)
  {}

  lemma {:induction false} PlusAtEnd(a: string, b: string)
    requires AllOf(a, OrSeparator('.', IdChar)) && (b == "" || b[0] == '+')
    ensures PlusAt(a + b) == |a|
  {
    if a == "" {
      assert a + b == b;
    } else {
      PlusAtEnd(a[1..], b);
      IdTextChar(a[0]);
      assert (a + b)[1..] == a[1..] + b;
    }
  }

  lemma BeforePlus(pre: Option<string>)
    requires pre.Some? ==> IdText(pre.value)
    ensures AllOf(if pre.Some? then "-" + pre.value else "", OrSeparator('.', IdChar))
  {
    IdTextChar('-');
    if pre.Some? { assert ("-" + pre.value)[1..] == pre.value; }
  }

  lemma MatchOfSuffix(s: Suffix)
    requires GoodSuffix(s)
    ensures MatchSuffix(SuffixText(s)) == Some(s)
    ensures SuffixText(s) == "" || SuffixText(s)[0] == '-' || SuffixText(s)[0] == '+'
  {
    var before := if s.pre.Some? then "-" + s.pre.value else "";
    var after := if s.build.Some? then "+" + s.build.value else "";
    BeforePlus(s.pre);
    PlusAtEnd(before, after);
    var text := SuffixText(s);
    assert text == before + after && text[..|before|] == before;
    if s.pre.Some? { assert before[1..] == s.pre.value; }
    if s.build.Some? { assert text[|before| + 1..] == s.build.value; }
  }

  lemma SuffixOfMatch(rest: string)
    requires MatchSuffix(rest).Some?
    ensures GoodSuffix(MatchSuffix(rest).value) && SuffixText(MatchSuffix(rest).value) == rest
  {
    var n := PlusAt(rest);
    var before := rest[..n];
    assert rest == before + rest[n..];
    if before != "" { assert before == "-" + before[1..]; }
    if n < |rest| { assert rest[n..] == "+" + rest[n + 1..]; } else { assert rest[n..] == ""; }
  }

  // --------------------------------------------------------------------- numbers

  lemma TakeOf(d: string, rest: string)
    requires d != "" && AllDigits(d) && (rest == "" || !IsDigit(rest[0]))
    ensures TakeNumber(d + rest) == Some(Taken(d, rest))
  {
    DigitRunOf(d, rest);
    assert (d + rest)[..|d|] == d && (d + rest)[|d|..] == rest;
  }

  lemma DottedOf(d: string, rest: string)
    requires d != "" && AllDigits(d)
    ensures TakeDotted(d + "." + rest) == Some(Taken(d, rest))
  {
    TakeOf(d, "." + rest);
    assert d + "." + rest == d + ("." + rest) && ("." + rest)[1..] == rest;
  }

  lemma TakenJoins(s: string)
    requires TakeNumber(s).Some?
    ensures TakeNumber(s).value.number + TakeNumber(s).value.rest == s
  {}

  lemma DottedJoins(s: string)
    requires TakeDotted(s).Some?
    ensures TakeDotted(s).value.number + "." + TakeDotted(s).value.rest == s
  {
    var t := TakeNumber(s).value;
    TakenJoins(s);
    assert t.rest == "." + t.rest[1..];
    assert t.number + "." + t.rest[1..] == t.number + t.rest;
  }

  /** The text a match was made from. */
  function MatchText(m: VersionMatch): string {
    m.major + "." + (m.minor + "." + (m.patch + SuffixText(m.suffix)))
  }

  predicate GoodMatch(m: VersionMatch) {
    && m.major != "" && m.minor != "" && m.patch != "" && GoodSuffix(m.suffix)
    && AllDigits(m.major) && AllDigits(m.minor) && AllDigits(m.patch)
  }

  lemma MatchOfText(m: VersionMatch)
    requires GoodMatch(m)
    ensures MatchVersion(MatchText(m)) == Some(m)
  {
    MatchOfSuffix(m.suffix);
    DottedOf(m.major, m.minor + "." + (m.patch + SuffixText(m.suffix)));
    DottedOf(m.minor, m.patch + SuffixText(m.suffix));
    TakeOf(m.patch, SuffixText(m.suffix));
  }

  lemma TextOfMatch(s: string)
    requires MatchVersion(s).Some?
    ensures GoodMatch(MatchVersion(s).value) && MatchText(MatchVersion(s).value) == s
  {
    var major := TakeDotted(s).value;
    var minor := TakeDotted(major.rest).value;
    var patch := TakeNumber(minor.rest).value;
    DottedJoins(s);
    DottedJoins(major.rest);
    TakenJoins(minor.rest);
    SuffixOfMatch(patch.rest);
    NumbersMatched(s);
  }

  // ------------------------------------------------------------------ round trip

  function MatchOf(v: Version): VersionMatch {
    VersionMatch(Decimal(v.major), Decimal(v.minor), Decimal(v.patch), SuffixOf(v))
  }

  lemma FormatIsMatchText(v: Version)
    ensures FormatSemver(v) == MatchText(MatchOf(v))
  {
    Regroup(Decimal(v.major), Decimal(v.minor), Decimal(v.patch), SuffixText(SuffixOf(v)));
  }

  lemma Regroup(a: string, b: string, c: string, d: string)
    ensures a + "." + b + "." + c + d == a + "." + (b + "." + (c + d))
  {}

  lemma SuffixIsGood(v: Version)
    requires WellFormed(v)
    ensures GoodSuffix(SuffixOf(v)) && ReadIds(PartsIn(SuffixOf(v).pre)) == Some(v.prerelease)
    ensures PartsIn(SuffixOf(v).build) == v.build && NoEmpty(v.build)
  {
    ReadOfTexts(v.prerelease);
    if v.prerelease != [] { JoinedParts(IdTexts(v.prerelease)); }
    if v.build != [] { JoinedParts(v.build); }
  }

  lemma ReadOfMatch(v: Version)
    requires WellFormed(v) && GoodMatch(MatchOf(v))
    ensures ReadMatch(MatchOf(v)) == Some(v)
  {
    SuffixIsGood(v);
    DecimalIsCanonical(v.major);
    DecimalIsCanonical(v.minor);
    DecimalIsCanonical(v.patch);
    ParseOfDecimal(v.major);
    ParseOfDecimal(v.minor);
    ParseOfDecimal(v.patch);
  }

  /** No white space at either end. */
  lemma MatchTextIsTrimmed(m: VersionMatch)
    requires GoodMatch(m)
    ensures Trim(MatchText(m)) == MatchText(m)
  {
    var s := MatchText(m);
    assert s[0] == m.major[0];
    LastOfMatch(m);
    TrimOfNoSpace(s);
  }

  lemma {:induction false} LastIsIdText(s: string)
    requires IdText(s)
    ensures !IsSpace(s[|s| - 1])
  {
    IdTextChar(s[0]);
    if |s| > 1 { LastIsIdText(s[1..]); }
  }

  lemma LastOfSuffix(s: Suffix)
    requires GoodSuffix(s) && SuffixText(s) != ""
    ensures !IsSpace(SuffixText(s)[|SuffixText(s)| - 1])
  {
    if s.pre.Some? { LastIsIdText(s.pre.value); }
    if s.build.Some? { LastIsIdText(s.build.value); }
  }

  lemma LastOfMatch(m: VersionMatch)
    requires GoodMatch(m)
    ensures var s := MatchText(m); !IsSpace(s[|s| - 1])
  {
    var tail := SuffixText(m.suffix);
    if tail != "" { LastOfSuffix(m.suffix); }
    LastOfJoin(m.major + ".", m.minor + "." + (m.patch + tail));
    LastOfJoin(m.minor + ".", m.patch + tail);
  }

  lemma LastOfJoin(a: string, b: string)
    requires b != ""
    ensures (a + b)[|a + b| - 1] == b[|b| - 1]
  {}

  /** Every well-formed version parses back to itself. */
  lemma ParseOfFormat(v: Version)
    requires WellFormed(v)
    ensures ParseSemver(FormatSemver(v)) == Some(v)
  {
    FormatIsMatchText(v);
    SuffixIsGood(v);
    MatchTextIsTrimmed(MatchOf(v));
    MatchOfText(MatchOf(v));
    ReadOfMatch(v);
  }

  lemma ReadIsWellFormed(m: VersionMatch)
    requires GoodMatch(m) && ReadMatch(m).Some?
    ensures WellFormed(ReadMatch(m).value) && MatchOf(ReadMatch(m).value) == m
  {
    DecimalOfParse(m.major);
    DecimalOfParse(m.minor);
    DecimalOfParse(m.patch);
    if m.suffix.pre.Some? {
      SplitParts(m.suffix.pre.value);
      TextsOfRead(PartsIn(m.suffix.pre));
    }
    if m.suffix.build.Some? {
      SplitParts(m.suffix.build.value);
      BuildIsGood(PartsIn(m.suffix.build));
    }
  }

  lemma {:induction false} BuildIsGood(parts: seq<string>)
    requires PartsOf(parts, IdChar) && NoEmpty(parts)
    ensures GoodParts(parts)
  {
    if parts != [] {
      BuildIsGood(parts[1..]);
      assert parts == [parts[0]] + parts[1..];
    }
  }

  /** Every accepted text is a well-formed version, and prints back as the trimmed text. */
  lemma FormatOfParse(s: string)
    requires ParseSemver(s).Some?
    ensures WellFormed(ParseSemver(s).value) && FormatSemver(ParseSemver(s).value) == Trim(s)
  {
    var m := MatchVersion(Trim(s)).value;
    TextOfMatch(Trim(s));
    ReadIsWellFormed(m);
    FormatIsMatchText(ParseSemver(s).value);
  }
}
