/** Version ranges (packages/schema/src/semver.ts). */
module SemverRange {
  import opened Text
  import opened Splitting
  import opened Semver
  import opened SemverOrder
  import opened SemverText

  datatype Op = LT | LE | GT | GE | EQ

  datatype Comparator = Comparator(op: Op, version: Version)

  /** A range: any of the alternatives, each of which is all of its comparators. */
  type Range = seq<seq<Comparator>>

  // --------------------------------------------------------------------- parsing

  predicate AnyVersionToken(token: string) { token == "*" || token == "x" || token == "X" }

  function Release(major: nat, minor: nat, patch: nat): Version { Version(major, minor, patch, [], []) }

  /** The first version above what `^base` accepts. */
  function CaretBound(base: Version): Version {
    if base.major > 0 then Release(base.major + 1, 0, 0)
    else if base.minor > 0 then Release(0, base.minor + 1, 0)
    else Release(0, 0, base.patch + 1)
  }

  function TildeBound(base: Version): Version { Release(base.major, base.minor + 1, 0) }

  function Between(base: Version, bound: Version): seq<Comparator> { [Comparator(GE, base), Comparator(LT, bound)] }

  /** What a caret or tilde token stands for. */
  function Expand(sign: char, base: Version): seq<Comparator> {
    Between(base, if sign == '~' then TildeBound(base) else CaretBound(base))
  }

  function ExpandParsed(sign: char, base: Option<Version>): Option<seq<Comparator>> {
    if base.None? then None else Some(Expand(sign, base.value))
  }

  /** The operator a token opens with, and the text after it. */
  function TakeOp(token: string): (Op, string) {
    if |token| >= 2 && token[..2] == ">=" then (GE, token[2..])
    else if |token| >= 2 && token[..2] == "<=" then (LE, token[2..])
    else if token != "" && token[0] == '>' then (GT, token[1..])
    else if token != "" && token[0] == '<' then (LT, token[1..])
    else if token != "" && token[0] == '=' then (EQ, token[1..])
    else (EQ, token)
  }

  function ParseComparatorToken(token: string): Option<seq<Comparator>> {
    if AnyVersionToken(token) then Some([])
    else if token != "" && (token[0] == '^' || token[0] == '~') then
      ExpandParsed(token[0], ParseSemver(token[1..]))
    else
      var (op, text) := TakeOp(token);
      match ParseSemver(text)
      case None => None
      case Some(version) => Some([Comparator(op, version)])
  }

  /** The tokens between runs of white space; a trimmed text has no empty one. */
  function Words(s: string): (ws: seq<string>)
    ensures ws != []
    decreases |s|
  {
    if s == "" then [""]
    else if IsSpace(s[0]) then
      TrimStartShrinks(s[1..]);
      [""] + Words(TrimStart(s[1..]))
    else
      var rest := Words(s[1..]);
      [[s[0]] + rest[0]] + rest[1..]
  }

  /** `split('||')`. */
  function Alternatives(s: string): (parts: seq<string>)
    ensures parts != []
    decreases |s|
  {
    if s == "" then [""]
    else if |s| >= 2 && s[..2] == "||" then [""] + Alternatives(s[2..])
    else
      var rest := Alternatives(s[1..]);
      [[s[0]] + rest[0]] + rest[1..]
  }

  function ParseConjunction(words: seq<string>): Option<seq<Comparator>> {
    if words == [] then Some([])
    else
      var rest := ParseConjunction(words[..|words| - 1]);
      var last := ParseComparatorToken(Trim(words[|words| - 1]));
      if rest.None? || last.None? then None else Some(rest.value + last.value)
  }

  function ParseAlternative(alt: string): Option<seq<Comparator>> {
    if Trim(alt) == "" then None else ParseConjunction(Words(Trim(alt)))
  }

  function ParseAlternatives(alts: seq<string>): Option<Range> {
    if alts == [] then Some([])
    else
      var rest := ParseAlternatives(alts[..|alts| - 1]);
      var last := ParseAlternative(alts[|alts| - 1]);
      if rest.None? || last.None? then None else Some(rest.value + [last.value])
  }

  function ParseSemverRange(input: string): Option<Range> {
    var raw := Trim(input);
    if raw == "" then None
    else if AnyVersionToken(raw) then Some([[]])
    else ParseAlternatives(Alternatives(raw))
  }

  lemma {:induction false} ConjunctionFails(words: seq<string>, n: nat)
    requires n <= |words| && ParseConjunction(words[..n]).None?
    ensures ParseConjunction(words).None?
    decreases |words| - n
  {
    if n < |words| {
      assert words[..n + 1][..n] == words[..n];
      ConjunctionFails(words, n + 1);
    } else {
      assert words[..n] == words;
    }
  }

  lemma {:induction false} AlternativesFail(alts: seq<string>, n: nat)
    requires n <= |alts| && ParseAlternatives(alts[..n]).None?
    ensures ParseAlternatives(alts).None?
    decreases |alts| - n
  {
    if n < |alts| {
      assert alts[..n + 1][..n] == alts[..n];
      AlternativesFail(alts, n + 1);
    } else {
      assert alts[..n] == alts;
    }
  }

  /** The inner loop, over the tokens of one alternative. */
  method ParseTokens(words: seq<string>) returns (r: Option<seq<Comparator>>)
    ensures r == ParseConjunction(words)
  {
    var conjunction: seq<Comparator> := [];
    for i := 0 to |words|
      invariant ParseConjunction(words[..i]) == Some(conjunction)
    {
      assert words[..i + 1][..i] == words[..i];
      var parsed := ParseComparatorToken(Trim(words[i]));
      if parsed.None? {
        ConjunctionFails(words, i + 1);
        return None;
      }
      conjunction := conjunction + parsed.value;
    }
    assert words[..|words|] == words;
    r := Some(conjunction);
  }

  lemma AlternativesStep(alts: seq<string>, i: nat, done: Range)
    requires i < |alts| && ParseAlternatives(alts[..i]) == Some(done)
    ensures ParseAlternative(alts[i]).Some? ==>
      ParseAlternatives(alts[..i + 1]) == Some(done + [ParseAlternative(alts[i]).value])
    ensures ParseAlternative(alts[i]).None? ==> ParseAlternatives(alts).None?
  {
    assert alts[..i + 1][..i] == alts[..i];
    if ParseAlternative(alts[i]).None? { AlternativesFail(alts, i + 1); }
  }

  /** The outer loop, over the alternatives. */
  method ParseParts(alts: seq<string>) returns (r: Option<Range>)
    ensures r == ParseAlternatives(alts)
  {
    var alternatives: Range := [];
    for i := 0 to |alts|
      invariant ParseAlternatives(alts[..i]) == Some(alternatives)
    {
      AlternativesStep(alts, i, alternatives);
      var trimmed := Trim(alts[i]);
      if trimmed == "" { return None; }
      var conjunction := ParseTokens(Words(trimmed));
      if conjunction.None? { return None; }
      alternatives := alternatives + [conjunction.value];
    }
    assert alts[..|alts|] == alts;
    r := Some(alternatives);
  }

  method ParseRange(input: string) returns (r: Option<Range>)
    ensures r == ParseSemverRange(input)
  {
    var raw := Trim(input);
    if raw == "" { return None; }
    if AnyVersionToken(raw) { return Some([[]]); }
    r := ParseParts(Alternatives(raw));
  }

  // ------------------------------------------------------------------ satisfaction

  predicate SatisfiesComparator(v: Version, c: Comparator) {
    var order := CompareSemver(v, c.version);
    match c.op
    case LT => order < 0
    case LE => order <= 0
    case GT => order > 0
    case GE => order >= 0
    case EQ => order == 0
  }

  predicate SameTriple(a: Version, b: Version) { a.major == b.major && a.minor == b.minor && a.patch == b.patch }

  /** All comparators hold, and a prerelease is named by a comparator's own prerelease of the same triple. */
  predicate SatisfiesAll(v: Version, conjunction: seq<Comparator>) {
    && (forall i :: 0 <= i < |conjunction| ==> SatisfiesComparator(v, conjunction[i]))
    && (v.prerelease == [] || conjunction == []
      || exists i :: 0 <= i < |conjunction| && NamesPrerelease(conjunction[i], v))
  }

  predicate NamesPrerelease(c: Comparator, v: Version) { c.version.prerelease != [] && SameTriple(c.version, v) }

  predicate SatisfiesRange(v: Version, r: Range) { exists i :: 0 <= i < |r| && SatisfiesAll(v, r[i]) }

  predicate SatisfiesSemverRange(version: string, range: string) {
    var v, r := ParseSemver(version), ParseSemverRange(range);
    v.Some? && r.Some? && SatisfiesRange(v.value, r.value)
  }

  // ------------------------------------------------------------------ caret and tilde

  /** `v` agrees with `base` up to its leftmost component that is not zero; all three for 0.0.0. */
  predicate AgreesToLeftmost(v: Version, base: Version) {
    && v.major == base.major
    && (base.major == 0 ==> v.minor == base.minor)
    && (base.major == 0 && base.minor == 0 ==> v.patch == base.patch)
  }

  /** What `^base` means. */
  predicate CaretAccepts(v: Version, base: Version) {
    && CompareSemver(base, v) <= 0
    && (if v.prerelease == [] then AgreesToLeftmost(v, base) else base.prerelease != [] && SameTriple(v, base))
  }

  /** What `~base` means. */
  predicate TildeAccepts(v: Version, base: Version) {
    && CompareSemver(base, v) <= 0
    && (if v.prerelease == [] then v.major == base.major && v.minor == base.minor
        else base.prerelease != [] && SameTriple(v, base))
  }

  lemma BetweenMeans(v: Version, base: Version, bound: Version)
    requires bound.prerelease == []
    ensures SatisfiesAll(v, Between(base, bound)) <==>
      && CompareSemver(base, v) <= 0 && CompareSemver(v, bound) < 0
      && (v.prerelease == [] || (base.prerelease != [] && SameTriple(v, base)))
  {
    var c := Between(base, bound);
    VersionsDiffer(v, base);
    assert c[0] == Comparator(GE, base) && c[1] == Comparator(LT, bound);
  }

  lemma CaretMeans(v: Version, base: Version)
    ensures SatisfiesAll(v, Between(base, CaretBound(base))) <==> CaretAccepts(v, base)
  {
    BetweenMeans(v, base, CaretBound(base));
  }

  lemma TildeMeans(v: Version, base: Version)
    ensures SatisfiesAll(v, Between(base, TildeBound(base))) <==> TildeAccepts(v, base)
  {
    BetweenMeans(v, base, TildeBound(base));
  }

  // ---------------------------------------------------------------- ranges as text

  /** A character of a printed version. */
  predicate VersionChar(c: char) { IdChar(c) || c == '.' || c == '+' }

  lemma {:induction false} AllOfJoin(a: string, b: string, ok: char -> bool)
    requires AllOf(a, ok) && AllOf(b, ok)
    ensures AllOf(a + b, ok)
  {
    if a == "" {
      assert a + b == b;
    } else {
      AllOfJoin(a[1..], b, ok);
      assert (a + b)[1..] == a[1..] + b;
    }
  }

  lemma {:induction false} AllOfWeaker(s: string, ok: char -> bool, more: char -> bool)
    requires AllOf(s, ok) && forall c :: ok(c) ==> more(c)
    ensures AllOf(s, more)
  {
    if s != "" { AllOfWeaker(s[1..], ok, more); }
  }

  lemma IdTextIsPlain(s: string)
    requires IdText(s)
    ensures AllOf(s, VersionChar)
  {
    forall c | OrSeparator('.', IdChar)(c) ensures VersionChar(c) { IdTextChar(c); }
    AllOfWeaker(s, OrSeparator('.', IdChar), VersionChar);
  }

  lemma DecimalIsPlain(n: nat)
    ensures AllOf(Decimal(n), VersionChar)
  {
    DigitsAreIdText(Decimal(n));
    AllOfWeaker(Decimal(n), IdChar, VersionChar);
  }

  lemma SuffixIsPlain(s: Suffix)
    requires GoodSuffix(s)
    ensures AllOf(SuffixText(s), VersionChar)
  {
    if s.pre.Some? {
      IdTextIsPlain(s.pre.value);
      assert ("-" + s.pre.value)[1..] == s.pre.value;
    }
    if s.build.Some? {
      IdTextIsPlain(s.build.value);
      assert ("+" + s.build.value)[1..] == s.build.value;
    }
    AllOfJoin(if s.pre.Some? then "-" + s.pre.value else "", if s.build.Some? then "+" + s.build.value else "", VersionChar);
  }

  lemma CoreIsPlain(v: Version)
    ensures AllOf(Core(v), VersionChar)
  {
    DecimalIsPlain(v.major);
    DecimalIsPlain(v.minor);
    DecimalIsPlain(v.patch);
    assert AllOf(".", VersionChar);
    AllOfJoin(Decimal(v.major), ".", VersionChar);
    AllOfJoin(Decimal(v.major) + ".", Decimal(v.minor), VersionChar);
    AllOfJoin(Decimal(v.major) + "." + Decimal(v.minor), ".", VersionChar);
    AllOfJoin(Decimal(v.major) + "." + Decimal(v.minor) + ".", Decimal(v.patch), VersionChar);
  }

  lemma FormatIsPlain(v: Version)
    requires WellFormed(v)
    ensures AllOf(FormatSemver(v), VersionChar)
  {
    CoreIsPlain(v);
    SuffixIsGood(v);
    SuffixIsPlain(SuffixOf(v));
    AllOfJoin(Core(v), SuffixText(SuffixOf(v)), VersionChar);
  }

  /** A character that ends neither a token nor an alternative. */
  predicate TokenChar(c: char) { VersionChar(c) || c == '^' || c == '~' }

  lemma {:induction false} OneWord(s: string)
    requires AllOf(s, TokenChar)
    ensures Words(s) == [s] && Alternatives(s) == [s]
  {
    if s != "" {
      OneWord(s[1..]);
      assert s == [s[0]] + s[1..] && !IsSpace(s[0]);
      if |s| >= 2 { assert s[..2][0] == s[0]; }
    }
  }

  lemma {:induction false} TokenEnds(s: string)
    requires AllOf(s, TokenChar) && s != ""
    ensures !IsSpace(s[0]) && !IsSpace(s[|s| - 1])
  {
    if |s| > 1 { TokenEnds(s[1..]); }
  }

  /** A range that is one token: its comparators. */
  lemma RangeOfToken(token: string, c: seq<Comparator>)
    requires AllOf(token, TokenChar) && token != "" && !AnyVersionToken(token) && ParseComparatorToken(token) == Some(c)
    ensures ParseSemverRange(token) == Some([c])
  {
    TokenEnds(token);
    TrimOfNoSpace(token);
    OneWord(token);
    assert [token][..0] == [] && [] + c == c && [] + [c] == [c];
    assert ParseConjunction([]) == Some([]) && ParseAlternatives([]) == Some([]);
    assert ParseConjunction([token]) == Some(c);
    assert ParseAlternative(token) == Some(c);
  }

  lemma SignedToken(sign: char, t: string)
    requires sign == '^' || sign == '~'
    ensures !AnyVersionToken([sign] + t)
    ensures AllOf(t, VersionChar) ==> AllOf([sign] + t, TokenChar)
  {
    assert ([sign] + t)[0] == sign && ([sign] + t)[1..] == t;
    if AllOf(t, VersionChar) { AllOfWeaker(t, VersionChar, TokenChar); }
  }

  lemma SignedTokenParses(sign: char, t: string, base: Version)
    requires (sign == '^' || sign == '~') && ParseSemver(t) == Some(base)
    ensures ParseComparatorToken([sign] + t) == Some(Expand(sign, base))
  {
    SignedToken(sign, t);
    assert ([sign] + t)[0] == sign && ([sign] + t)[1..] == t;
  }

  lemma PlainText(t: string)
    requires ParseSemver(t).Some? && Trim(t) == t
    ensures AllOf(t, VersionChar)
  {
    FormatOfParse(t);
    FormatIsPlain(ParseSemver(t).value);
  }

  lemma TokenOf(sign: char, t: string)
    requires (sign == '^' || sign == '~') && ParseSemver(t).Some? && Trim(t) == t
    ensures ParseSemverRange([sign] + t) == Some([Expand(sign, ParseSemver(t).value)])
  {
    PlainText(t);
    SignedToken(sign, t);
    SignedTokenParses(sign, t, ParseSemver(t).value);
    RangeOfToken([sign] + t, Expand(sign, ParseSemver(t).value));
  }

  lemma OneAlternative(v: Version, c: seq<Comparator>)
    ensures SatisfiesRange(v, [c]) <==> SatisfiesAll(v, c)
  {
    if SatisfiesAll(v, c) { assert SatisfiesAll(v, [c][0]); }
  }

  /**
   * `^base` accepts a release at least `base` that agrees with it up to its leftmost component that is not zero, and
   * a prerelease at least `base` only of a prerelease base's own triple.
   */
  lemma CaretIff(s: string, t: string)
    requires ParseSemver(s).Some? && ParseSemver(t).Some? && Trim(t) == t
    ensures SatisfiesSemverRange(s, "^" + t) <==> CaretAccepts(ParseSemver(s).value, ParseSemver(t).value)
  {
    TokenOf('^', t);
    OneAlternative(ParseSemver(s).value, Between(ParseSemver(t).value, CaretBound(ParseSemver(t).value)));
    CaretMeans(ParseSemver(s).value, ParseSemver(t).value);
  }

  lemma TildeIff(s: string, t: string)
    requires ParseSemver(s).Some? && ParseSemver(t).Some? && Trim(t) == t
    ensures SatisfiesSemverRange(s, "~" + t) <==> TildeAccepts(ParseSemver(s).value, ParseSemver(t).value)
  {
    TokenOf('~', t);
    OneAlternative(ParseSemver(s).value, Between(ParseSemver(t).value, TildeBound(ParseSemver(t).value)));
    TildeMeans(ParseSemver(s).value, ParseSemver(t).value);
  }
}
