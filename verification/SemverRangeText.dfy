/** Ranges written as text parse to what they say, and accept what it means. */
module SemverRangeText {
  import opened Text
  import opened Sequences
  import opened Splitting
  import opened Semver
  import opened SemverText
  import opened SemverRange

  /** One token of a range. */
  datatype Token =
    | AnyVersion
    | Caret(version: Version)
    | Tilde(version: Version)
    | Compare(op: Op, version: Version)

  predicate GoodToken(t: Token) { t.AnyVersion? || WellFormed(t.version) }

  /** A range: alternatives of tokens, at least one of each. */
  predicate GoodRange(r: seq<seq<Token>>) {
    r != [] && forall i :: 0 <= i < |r| ==> r[i] != [] && forall j :: 0 <= j < |r[i]| ==> GoodToken(r[i][j])
  }

  function OpText(op: Op): string {
    match op
    case LT => "<"
    case LE => "<="
    case GT => ">"
    case GE => ">="
    case EQ => "="
  }

  function TokenText(t: Token): string {
    match t
    case AnyVersion => "*"
    case Caret(v) => "^" + FormatSemver(v)
    case Tilde(v) => "~" + FormatSemver(v)
    case Compare(op, v) => OpText(op) + FormatSemver(v)
  }

  function Texts(ts: seq<Token>): (r: seq<string>)
    ensures |r| == |ts| && forall i :: 0 <= i < |ts| ==> r[i] == TokenText(ts[i])
  {
    seq(|ts|, i requires 0 <= i < |ts| => TokenText(ts[i]))
  }

  function AlternativeText(ts: seq<Token>): string { Join(Texts(ts), ' ') }

  function AlternativeTexts(r: seq<seq<Token>>): (texts: seq<string>)
    ensures |texts| == |r| && forall i :: 0 <= i < |r| ==> texts[i] == AlternativeText(r[i])
  {
    seq(|r|, i requires 0 <= i < |r| => AlternativeText(r[i]))
  }

  /** The texts between bars, with a blank on the side of each bar. */
  function Padded(lead: string, texts: seq<string>): (parts: seq<string>)
    ensures |parts| == |texts|
    decreases |texts|
  {
    if texts == [] then []
    else if |texts| == 1 then [lead + texts[0]]
    else [lead + texts[0] + " "] + Padded(" ", texts[1..])
  }

  function JoinBars(parts: seq<string>): string {
    if parts == [] then "" else if |parts| == 1 then parts[0] else parts[0] + "||" + JoinBars(parts[1..])
  }

  function RangeText(r: seq<seq<Token>>): string { JoinBars(Padded("", AlternativeTexts(r))) }

  // ------------------------------------------------------------------ what it means

  function CompareBy(op: Op, c: int): bool {
    match op
    case LT => c < 0
    case LE => c <= 0
    case GT => c > 0
    case GE => c >= 0
    case EQ => c == 0
  }

  /** The version is within the bounds of a token. */
  predicate Within(v: Version, t: Token) {
    match t
    case AnyVersion => true
    case Caret(base) => CompareSemver(v, base) >= 0 && CompareSemver(v, CaretBound(base)) < 0
    case Tilde(base) => CompareSemver(v, base) >= 0 && CompareSemver(v, TildeBound(base)) < 0
    case Compare(op, w) => CompareBy(op, CompareSemver(v, w))
  }

  /** The token names a prerelease of the version's triple. */
  predicate NamesTriple(t: Token, v: Version) {
    !t.AnyVersion? && t.version.prerelease != [] && SameTriple(t.version, v)
  }

  /** Within all bounds; a prerelease only where a token names one of its triple, or all versions are meant. */
  predicate Accepts(v: Version, ts: seq<Token>) {
    && (forall i :: 0 <= i < |ts| ==> Within(v, ts[i]))
    && (v.prerelease == [] || (forall i :: 0 <= i < |ts| ==> ts[i].AnyVersion?)
        || exists i :: 0 <= i < |ts| && NamesTriple(ts[i], v))
  }

  // ------------------------------------------------------------------ one token

  function ComparatorsOf(t: Token): seq<Comparator> {
    match t
    case AnyVersion => []
    case Caret(base) => Between(base, CaretBound(base))
    case Tilde(base) => Between(base, TildeBound(base))
    case Compare(op, w) => [Comparator(op, w)]
  }

  predicate RangeChar(c: char) { TokenChar(c) || c == '<' || c == '>' || c == '=' || c == '*' }

  lemma FormatStarts(v: Version)
    ensures FormatSemver(v) != "" && IsDigit(FormatSemver(v)[0])
  {
    assert Decimal(v.major)[0] == FormatSemver(v)[0];
  }

  lemma TakeOpOf(op: Op, s: string)
    requires s != "" && IsDigit(s[0])
    ensures TakeOp(OpText(op) + s) == (op, s) && OpText(op) + s != ""
    ensures (OpText(op) + s)[0] != '^' && (OpText(op) + s)[0] != '~' && !AnyVersionToken(OpText(op) + s)
  {
    var t := OpText(op) + s;
    assert t[|OpText(op)|..] == s && t[|OpText(op)|] == s[0];
    if op == LT || op == GT || op == EQ { assert t[..2][1] == s[0]; }
  }

  lemma CompareParses(op: Op, s: string, v: Version)
    requires s != "" && IsDigit(s[0]) && ParseSemver(s) == Some(v)
    ensures ParseComparatorToken(OpText(op) + s) == Some([Comparator(op, v)])
  {
    TakeOpOf(op, s);
  }

  lemma TokenParses(t: Token)
    requires GoodToken(t)
    ensures ParseComparatorToken(TokenText(t)) == Some(ComparatorsOf(t))
  {
    if !t.AnyVersion? {
      var s := FormatSemver(t.version);
      ParseOfFormat(t.version);
      FormatStarts(t.version);
      if t.Caret? { SignedTokenParses('^', s, t.version); }
      else if t.Tilde? { SignedTokenParses('~', s, t.version); }
      else { CompareParses(t.op, s, t.version); }
    }
  }

  lemma TokenIsPlain(t: Token)
    requires GoodToken(t)
    ensures AllOf(TokenText(t), RangeChar) && TokenText(t) != ""
  {
    if !t.AnyVersion? {
      var s := FormatSemver(t.version);
      FormatIsPlain(t.version);
      AllOfWeaker(s, VersionChar, RangeChar);
      var head := if t.Caret? then "^" else if t.Tilde? then "~" else OpText(t.op);
      assert |head| == 2 ==> head[1..][1..] == "";
      assert AllOf(head, RangeChar);
      AllOfJoin(head, s, RangeChar);
    }
  }

  lemma {:induction false} PlainEnds(s: string)
    requires AllOf(s, RangeChar) && s != ""
    ensures !IsSpace(s[0]) && !IsSpace(s[|s| - 1])
  {
    if |s| > 1 { PlainEnds(s[1..]); }
  }

  // ------------------------------------------------------------------ words

  /** No white space at either end, and something between. */
  predicate Trimmed(s: string) { s != "" && !IsSpace(s[0]) && !IsSpace(s[|s| - 1]) }

  predicate PlainTexts(texts: seq<string>) {
    forall i :: 0 <= i < |texts| ==> AllOf(texts[i], RangeChar) && texts[i] != ""
  }

  lemma {:induction false} WordsStep(a: string, rest: string)
    requires AllOf(a, RangeChar) && TrimStart(rest) == rest
    ensures Words(a + " " + rest) == [a] + Words(rest)
  {
    var s := a + " " + rest;
    if a == "" {
      assert s[1..] == rest;
    } else {
      assert s[0] == a[0] && s[1..] == a[1..] + " " + rest;
      WordsStep(a[1..], rest);
      assert [a[0]] + a[1..] == a;
    }
  }

  lemma {:induction false} WordsOne(a: string)
    requires AllOf(a, RangeChar)
    ensures Words(a) == [a]
  {
    if a != "" {
      WordsOne(a[1..]);
      assert [a[0]] + a[1..] == a;
    }
  }

  lemma {:induction false} WordsOfJoin(texts: seq<string>)
    requires texts != [] && PlainTexts(texts)
    ensures Trimmed(Join(texts, ' ')) && Words(Join(texts, ' ')) == texts
  {
    PlainEnds(texts[0]);
    if |texts| == 1 {
      WordsOne(texts[0]);
    } else {
      var rest := Join(texts[1..], ' ');
      WordsOfJoin(texts[1..]);
      assert Join(texts, ' ') == texts[0] + " " + rest;
      assert TrimStart(rest) == rest;
      WordsStep(texts[0], rest);
      assert texts == [texts[0]] + texts[1..];
    }
  }

  // ------------------------------------------------------------------ alternatives

  predicate AlternativeChar(c: char) { RangeChar(c) || c == ' ' }

  lemma {:induction false} JoinIsPlain(texts: seq<string>)
    requires PlainTexts(texts)
    ensures AllOf(Join(texts, ' '), AlternativeChar)
  {
    if texts != [] {
      AllOfWeaker(texts[0], RangeChar, AlternativeChar);
      JoinIsPlain(texts[1..]);
      assert AllOf(" ", AlternativeChar);
      AllOfJoin(texts[0], " ", AlternativeChar);
      AllOfJoin(texts[0] + " ", Join(texts[1..], ' '), AlternativeChar);
    }
  }

  lemma {:induction false} BarsStep(a: string, b: string)
    requires AllOf(a, AlternativeChar)
    ensures Alternatives(a + "||" + b) == [a] + Alternatives(b)
  {
    var s := a + "||" + b;
    if a == "" {
      assert s[..2] == "||" && s[2..] == b;
    } else {
      assert s[..2][0] == a[0] && s[1..] == a[1..] + "||" + b;
      BarsStep(a[1..], b);
      assert [a[0]] + a[1..] == a;
    }
  }

  lemma {:induction false} BarsNone(a: string)
    requires AllOf(a, AlternativeChar)
    ensures Alternatives(a) == [a]
  {
    if a != "" {
      BarsNone(a[1..]);
      assert [a[0]] + a[1..] == a;
      if |a| >= 2 { assert a[..2][0] == a[0]; }
    }
  }

  predicate PlainParts(parts: seq<string>) { forall i :: 0 <= i < |parts| ==> AllOf(parts[i], AlternativeChar) }

  lemma {:induction false} AlternativesOfJoin(parts: seq<string>)
    requires parts != [] && PlainParts(parts)
    ensures Alternatives(JoinBars(parts)) == parts
  {
    if |parts| == 1 {
      BarsNone(parts[0]);
    } else {
      AlternativesOfJoin(parts[1..]);
      BarsStep(parts[0], JoinBars(parts[1..]));
      assert parts == [parts[0]] + parts[1..];
    }
  }

  lemma {:induction false} JoinEnds(parts: seq<string>)
    requires parts != [] && parts[0] != "" && parts[|parts| - 1] != ""
    ensures var s := JoinBars(parts);
      s != "" && s[0] == parts[0][0] && s[|s| - 1] == parts[|parts| - 1][|parts[|parts| - 1]| - 1]
  {
    if |parts| > 1 {
      var rest := parts[1..];
      if |rest| == 1 || rest[0] != "" { JoinEnds(rest); } else { JoinLast(rest); }
    }
  }

  lemma {:induction false} JoinLast(parts: seq<string>)
    requires parts != [] && parts[|parts| - 1] != ""
    ensures var s := JoinBars(parts); s != "" && s[|s| - 1] == parts[|parts| - 1][|parts[|parts| - 1]| - 1]
  {
    if |parts| > 1 { JoinLast(parts[1..]); }
  }

  lemma BlankBefore(s: string)
    ensures Trim(" " + s) == Trim(s)
  {
    assert (" " + s)[0] == ' ' && (" " + s)[1..] == s;
  }

  lemma BlankAfter(s: string)
    requires Trimmed(s)
    ensures Trim(s + " ") == s
  {
    var t := s + " ";
    assert t[0] == s[0] && t[|t| - 1] == ' ' && t[..|t| - 1] == s;
    assert TrimStart(t) == t;
    assert TrimEnd(s) == s;
  }

  /** A part is a text with at most a blank on each side. */
  predicate IsPadded(part: string, text: string) {
    part == text || part == text + " " || part == " " + text || part == " " + text + " "
  }

  lemma PaddedTrims(part: string, text: string)
    requires Trimmed(text) && IsPadded(part, text)
    ensures Trim(part) == text
  {
    TrimOfNoSpace(text);
    if part == text + " " {
      BlankAfter(text);
    } else if part == " " + text {
      BlankBefore(text);
    } else if part == " " + text + " " {
      assert part == " " + (text + " ");
      BlankBefore(text + " ");
      BlankAfter(text);
    }
  }

  lemma PaddedIsPlain(part: string, text: string)
    requires AllOf(text, AlternativeChar) && IsPadded(part, text)
    ensures AllOf(part, AlternativeChar)
  {
    assert AllOf(" ", AlternativeChar);
    AllOfJoin(text, " ", AlternativeChar);
    AllOfJoin(" ", text, AlternativeChar);
    AllOfJoin(" " + text, " ", AlternativeChar);
  }

  lemma {:induction false} PaddedAt(lead: string, texts: seq<string>, i: nat)
    requires (lead == "" || lead == " ") && i < |texts|
    ensures IsPadded(Padded(lead, texts)[i], texts[i])
    decreases |texts|
  {
    if i > 0 {
      PaddedAt(" ", texts[1..], i - 1);
      assert texts[1..][i - 1] == texts[i];
    } else {
      assert "" + texts[0] == texts[0];
    }
  }

  lemma FirstPadded(texts: seq<string>)
    requires texts != [] && texts[0] != ""
    ensures Padded("", texts)[0] != "" && Padded("", texts)[0][0] == texts[0][0]
  {}

  lemma {:induction false} LastPadded(lead: string, texts: seq<string>)
    requires texts != [] && texts[|texts| - 1] != ""
    ensures var part, text := Padded(lead, texts)[|texts| - 1], texts[|texts| - 1];
      part != "" && part[|part| - 1] == text[|text| - 1]
    decreases |texts|
  {
    if |texts| > 1 {
      LastPadded(" ", texts[1..]);
      assert texts[1..][|texts| - 2] == texts[|texts| - 1];
    }
  }

  // ------------------------------------------------------------------ parsing a range

  function Comparators(ts: seq<Token>): seq<Comparator> {
    if ts == [] then [] else Comparators(ts[..|ts| - 1]) + ComparatorsOf(ts[|ts| - 1])
  }

  function RangeOf(r: seq<seq<Token>>): (c: Range)
    ensures |c| == |r| && forall i :: 0 <= i < |r| ==> c[i] == Comparators(r[i])
  {
    seq(|r|, i requires 0 <= i < |r| => Comparators(r[i]))
  }

  lemma TextsPlain(ts: seq<Token>)
    requires forall j :: 0 <= j < |ts| ==> GoodToken(ts[j])
    ensures PlainTexts(Texts(ts))
  {
    forall j | 0 <= j < |ts| ensures AllOf(Texts(ts)[j], RangeChar) && Texts(ts)[j] != "" { TokenIsPlain(ts[j]); }
  }

  /** The word is one token of these comparators. */
  predicate Reads(word: string, cs: seq<Comparator>) {
    Trim(word) == word && ParseComparatorToken(word) == Some(cs)
  }

  lemma WordParses(words: seq<string>, c: seq<Comparator>, word: string, cs: seq<Comparator>)
    requires ParseConjunction(words) == Some(c) && Reads(word, cs)
    ensures ParseConjunction(words + [word]) == Some(c + cs)
  {
    assert (words + [word])[..|words|] == words;
  }

  lemma TokenReads(t: Token)
    requires GoodToken(t)
    ensures Reads(TokenText(t), ComparatorsOf(t))
  {
    TokenIsPlain(t);
    PlainEnds(TokenText(t));
    TrimOfNoSpace(TokenText(t));
    TokenParses(t);
  }

  lemma TextsLast(ts: seq<Token>)
    requires ts != []
    ensures Texts(ts) == Texts(ts[..|ts| - 1]) + [TokenText(ts[|ts| - 1])]
  {}

  lemma {:induction false} TokensParse(ts: seq<Token>)
    requires forall j :: 0 <= j < |ts| ==> GoodToken(ts[j])
    ensures ParseConjunction(Texts(ts)) == Some(Comparators(ts))
  {
    if ts != [] {
      var init, last := ts[..|ts| - 1], ts[|ts| - 1];
      TokensParse(init);
      TokenReads(last);
      TextsLast(ts);
      WordParses(Texts(init), Comparators(init), TokenText(last), ComparatorsOf(last));
    }
  }

  lemma AlternativeParses(ts: seq<Token>)
    requires ts != [] && forall j :: 0 <= j < |ts| ==> GoodToken(ts[j])
    ensures var text := AlternativeText(ts);
      Trimmed(text) && AllOf(text, AlternativeChar) && ParseConjunction(Words(text)) == Some(Comparators(ts))
  {
    TextsPlain(ts);
    WordsOfJoin(Texts(ts));
    JoinIsPlain(Texts(ts));
    TokensParse(ts);
  }

  lemma PartParses(parts: seq<string>, c: Range, part: string, cs: seq<Comparator>)
    requires ParseAlternatives(parts) == Some(c) && ParseAlternative(part) == Some(cs)
    ensures ParseAlternatives(parts + [part]) == Some(c + [cs])
  {
    assert (parts + [part])[..|parts|] == parts;
  }

  lemma {:induction false} PartsParse(parts: seq<string>, c: Range)
    requires |parts| == |c| && forall i :: 0 <= i < |c| ==> ParseAlternative(parts[i]) == Some(c[i])
    ensures ParseAlternatives(parts) == Some(c)
  {
    if parts != [] {
      var n := |parts| - 1;
      PartsParse(parts[..n], c[..n]);
      PartParses(parts[..n], c[..n], parts[n], c[n]);
      SplitLast(parts);
      SplitLast(c);
    }
  }

  /** The token for any version is also the alternative for it. */
  lemma AnyAlternative(raw: string)
    requires AnyVersionToken(raw)
    ensures ParseAlternatives(Alternatives(raw)) == Some([[]])
  {
    assert raw[1..] == "";
    BarsNone(raw);
    WordsOne(raw);
    TrimOfNoSpace(raw);
    var none: seq<Comparator> := [];
    WordParses([], none, raw, none);
    assert [] + [raw] == [raw] && none + none == none;
    PartsParse([raw], [[]]);
  }

  lemma TextIsTight(texts: seq<string>)
    requires texts != [] && forall i :: 0 <= i < |texts| ==> Trimmed(texts[i])
    ensures Trimmed(JoinBars(Padded("", texts)))
  {
    assert Trimmed(texts[0]) && Trimmed(texts[|texts| - 1]);
    FirstPadded(texts);
    LastPadded("", texts);
    JoinEnds(Padded("", texts));
  }

  /** A range written as text parses to its comparators. */
  lemma ParseOfRangeText(r: seq<seq<Token>>)
    requires GoodRange(r)
    ensures ParseSemverRange(RangeText(r)) == Some(RangeOf(r))
  {
    var texts := AlternativeTexts(r);
    var parts := Padded("", texts);
    forall i | 0 <= i < |r|
      ensures ParseAlternative(parts[i]) == Some(RangeOf(r)[i])
      ensures AllOf(parts[i], AlternativeChar) && Trimmed(texts[i])
    {
      AlternativeParses(r[i]);
      PaddedAt("", texts, i);
      PaddedTrims(parts[i], texts[i]);
      PaddedIsPlain(parts[i], texts[i]);
    }
    TextIsTight(texts);
    TrimOfNoSpace(RangeText(r));
    AlternativesOfJoin(parts);
    PartsParse(parts, RangeOf(r));
    if AnyVersionToken(RangeText(r)) { AnyAlternative(RangeText(r)); }
  }

  // ------------------------------------------------------------------ accepting

  predicate AllHold(v: Version, cs: seq<Comparator>) { forall i :: 0 <= i < |cs| ==> SatisfiesComparator(v, cs[i]) }

  predicate SomeNames(v: Version, cs: seq<Comparator>) { exists i :: 0 <= i < |cs| && NamesPrerelease(cs[i], v) }

  lemma HoldJoin(v: Version, a: seq<Comparator>, b: seq<Comparator>)
    ensures AllHold(v, a + b) <==> AllHold(v, a) && AllHold(v, b)
    ensures SomeNames(v, a + b) <==> SomeNames(v, a) || SomeNames(v, b)
  {
    var s := a + b;
    assert forall i :: 0 <= i < |a| ==> s[i] == a[i];
    assert forall i :: 0 <= i < |b| ==> s[|a| + i] == b[i];
    assert forall i :: |a| <= i < |s| ==> s[i] == b[i - |a|];
    if AllHold(v, s) {
      forall i | 0 <= i < |b| ensures SatisfiesComparator(v, b[i]) { assert SatisfiesComparator(v, s[|a| + i]); }
    }
  }

  lemma OneHolds(v: Version, c: Comparator)
    ensures AllHold(v, [c]) <==> SatisfiesComparator(v, c)
    ensures SomeNames(v, [c]) <==> NamesPrerelease(c, v)
  {
    assert [c][0] == c;
  }

  lemma BetweenHolds(v: Version, base: Version, bound: Version)
    requires bound.prerelease == []
    ensures AllHold(v, Between(base, bound)) <==> CompareSemver(v, base) >= 0 && CompareSemver(v, bound) < 0
    ensures SomeNames(v, Between(base, bound)) <==> base.prerelease != [] && SameTriple(base, v)
  {
    OneHolds(v, Comparator(GE, base));
    OneHolds(v, Comparator(LT, bound));
    HoldJoin(v, [Comparator(GE, base)], [Comparator(LT, bound)]);
    assert Between(base, bound) == [Comparator(GE, base)] + [Comparator(LT, bound)];
  }

  lemma TokenHolds(v: Version, t: Token)
    ensures AllHold(v, ComparatorsOf(t)) <==> Within(v, t)
    ensures SomeNames(v, ComparatorsOf(t)) <==> NamesTriple(t, v)
    ensures ComparatorsOf(t) == [] <==> t.AnyVersion?
  {
    match t
    case AnyVersion =>
    case Caret(base) => BetweenHolds(v, base, CaretBound(base));
    case Tilde(base) => BetweenHolds(v, base, TildeBound(base));
    case Compare(op, w) => OneHolds(v, Comparator(op, w));
  }

  lemma {:induction false} TokensHold(v: Version, ts: seq<Token>)
    ensures AllHold(v, Comparators(ts)) <==> forall i :: 0 <= i < |ts| ==> Within(v, ts[i])
    ensures SomeNames(v, Comparators(ts)) <==> exists i :: 0 <= i < |ts| && NamesTriple(ts[i], v)
    ensures Comparators(ts) == [] <==> forall i :: 0 <= i < |ts| ==> ts[i].AnyVersion?
  {
    if ts != [] {
      var init, last := ts[..|ts| - 1], ts[|ts| - 1];
      TokensHold(v, init);
      TokenHolds(v, last);
      HoldJoin(v, Comparators(init), ComparatorsOf(last));
      assert ts == init + [last];
    }
  }

  lemma AcceptsIff(v: Version, ts: seq<Token>)
    ensures SatisfiesAll(v, Comparators(ts)) <==> Accepts(v, ts)
  {
    TokensHold(v, ts);
    assert SatisfiesAll(v, Comparators(ts)) <==>
      AllHold(v, Comparators(ts)) && (v.prerelease == [] || Comparators(ts) == [] || SomeNames(v, Comparators(ts)));
  }

  lemma SomeAccepts(v: Version, r: seq<seq<Token>>)
    ensures SatisfiesRange(v, RangeOf(r)) <==> exists i :: 0 <= i < |r| && Accepts(v, r[i])
  {
    forall i | 0 <= i < |r| ensures SatisfiesAll(v, RangeOf(r)[i]) <==> Accepts(v, r[i]) { AcceptsIff(v, r[i]); }
  }

  /** A version satisfies a written range exactly when one of its alternatives accepts it. */
  lemma RangeMeans(s: string, r: seq<seq<Token>>)
    requires ParseSemver(s).Some? && GoodRange(r)
    ensures SatisfiesSemverRange(s, RangeText(r)) <==>
      exists i :: 0 <= i < |r| && Accepts(ParseSemver(s).value, r[i])
  {
    ParseOfRangeText(r);
    SomeAccepts(ParseSemver(s).value, r);
  }
}
