/** Which texts are version ranges: no blank alternative, and tokens that parse (packages/schema/src/semver.ts). */
module SemverRangeParse {
  import opened Text
  import opened Sequences
  import opened Semver
  import opened SemverText
  import opened SemverRange
  import opened SemverRangeText

  // ------------------------------------------------------------------ the texts between the bars

  /** Two bars at `i`. */
  predicate BarsAt(s: string, i: nat) { i + 1 < |s| && s[i] == '|' && s[i + 1] == '|' }

  /** The parts are the text cut at its first double bar, and then the rest in the same way. */
  ghost predicate CutAtBars(s: string, parts: seq<string>)
    decreases |parts|
  {
    parts != [] &&
      (if |parts| == 1 then s == parts[0] && forall i: nat :: !BarsAt(s, i)
       else
         var n := |parts[0]|;
         BarsAt(s, n) && (forall i: nat :: i < n ==> !BarsAt(s, i)) && s[..n] == parts[0] && CutAtBars(s[n + 2..], parts[1..]))
  }

  lemma OneMore(s: string, rest: seq<string>)
    requires s != "" && !BarsAt(s, 0) && CutAtBars(s[1..], rest)
    ensures CutAtBars(s, [[s[0]] + rest[0]] + rest[1..])
  {
    var parts := [[s[0]] + rest[0]] + rest[1..];
    assert s == [s[0]] + s[1..] && parts[1..] == rest[1..];
    forall i: nat | i > 0 ensures BarsAt(s, i) <==> BarsAt(s[1..], i - 1) {}
    if |rest| > 1 {
      var n := |rest[0]|;
      assert s[1..][n + 2..] == s[n + 3..] && BarsAt(s, n + 1);
      assert s[..n + 1] == [s[0]] + s[1..][..n];
    }
  }

  lemma BarsFirst(s: string)
    ensures BarsAt(s, 0) <==> |s| >= 2 && s[..2] == "||"
  {
    if |s| >= 2 { assert s[..2] == [s[0], s[1]]; }
  }

  /** Splitting at bars cuts the text at its double bars, from left to right. */
  lemma {:induction false} AlternativesAre(s: string)
    ensures CutAtBars(s, Alternatives(s))
    decreases |s|
  {
    BarsFirst(s);
    if BarsAt(s, 0) {
      AlternativesAre(s[2..]);
      assert Alternatives(s)[1..] == Alternatives(s[2..]);
    } else if s != "" {
      AlternativesAre(s[1..]);
      OneMore(s, Alternatives(s[1..]));
    }
  }

  // ------------------------------------------------------------------ the words of an alternative

  /** The words are the runs without white space, none of them empty. */
  predicate CutAtSpace(s: string, words: seq<string>)
    decreases |words|
  {
    words != [] && words[0] != "" && NoSpace(words[0]) &&
      (if |words| == 1 then s == words[0]
       else
         var n := |words[0]|;
         n < |s| && s[..n] == words[0] && IsSpace(s[n]) && CutAtSpace(TrimStart(s[n + 1..]), words[1..]))
  }

  /** The first word of a text, and what follows it. */
  lemma {:induction false} FirstWord(s: string)
    ensures var words := Words(s);
      var n := |words[0]|;
      && n <= |s| && s[..n] == words[0] && NoSpace(words[0])
      && (n == |s| ==> words == [s])
      && (n < |s| ==> IsSpace(s[n]) && words[1..] == Words(TrimStart(s[n + 1..])))
  {
    if s != "" && !IsSpace(s[0]) {
      FirstWord(s[1..]);
      var rest := Words(s[1..]);
      var n := |rest[0]|;
      assert Words(s)[0] == [s[0]] + rest[0] && Words(s)[1..] == rest[1..];
      assert s == [s[0]] + s[1..] && s[..n + 1] == [s[0]] + s[1..][..n];
      if n < |s[1..]| { assert s[1..][n + 1..] == s[n + 2..]; }
    }
  }

  lemma {:induction false} TrimStartLast(s: string)
    requires s != "" && !IsSpace(s[|s| - 1])
    ensures TrimStart(s) != "" && TrimStart(s)[|TrimStart(s)| - 1] == s[|s| - 1]
  {
    if IsSpace(s[0]) { TrimStartLast(s[1..]); }
  }

  lemma {:induction false} WordsAre(s: string)
    requires s != "" && !IsSpace(s[0]) && !IsSpace(s[|s| - 1])
    ensures CutAtSpace(s, Words(s))
    decreases |s|
  {
    FirstWord(s);
    var n := |Words(s)[0]|;
    if n < |s| {
      var rest := s[n + 1..];
      assert rest != "" && rest[|rest| - 1] == s[|s| - 1];
      TrimStartLast(rest);
      TrimStartShrinks(rest);
      WordsAre(TrimStart(rest));
    }
  }

  lemma {:induction false} WordHolds(s: string, words: seq<string>, i: nat)
    requires CutAtSpace(s, words) && i < |words|
    ensures words[i] != "" && NoSpace(words[i])
    decreases |words|
  {
    if i > 0 { WordHolds(TrimStart(s[|words[0]| + 1..]), words[1..], i - 1); }
  }

  // ------------------------------------------------------------------ which ranges parse

  predicate WordsParse(words: seq<string>) {
    forall i :: 0 <= i < |words| ==> ParseComparatorToken(words[i]).Some?
  }

  lemma {:induction false} ConjunctionIff(words: seq<string>)
    requires forall i :: 0 <= i < |words| ==> Trim(words[i]) == words[i]
    ensures ParseConjunction(words).Some? <==> WordsParse(words)
  {
    if words != [] {
      var init := words[..|words| - 1];
      ConjunctionIff(init);
      assert WordsParse(words) <==> WordsParse(init) && ParseComparatorToken(words[|words| - 1]).Some? by {
        SplitLast(words);
        forall i | 0 <= i < |init| ensures init[i] == words[i] {}
      }
    }
  }

  /** An alternative parses exactly when it is not blank and each of its words is a token. */
  predicate AlternativeGood(part: string) { Trim(part) != "" && WordsParse(Words(Trim(part))) }

  lemma AlternativeIff(part: string)
    ensures ParseAlternative(part).Some? <==> AlternativeGood(part)
  {
    var t := Trim(part);
    if t != "" {
      TrimTwice(part);
      WordsAre(t);
      var words := Words(t);
      forall i | 0 <= i < |words| ensures Trim(words[i]) == words[i] {
        WordHolds(t, words, i);
        TrimOfNoSpace(words[i]);
      }
      ConjunctionIff(words);
    }
  }

  predicate AllGood(parts: seq<string>) {
    parts == [] || (AllGood(parts[..|parts| - 1]) && AlternativeGood(parts[|parts| - 1]))
  }

  lemma {:induction false} AllGoodIff(parts: seq<string>)
    ensures AllGood(parts) <==> forall part :: part in parts ==> AlternativeGood(part)
  {
    if parts != [] {
      SplitLast(parts);
      AllGoodIff(parts[..|parts| - 1]);
    }
  }

  lemma {:induction false} AlternativesIff(parts: seq<string>)
    ensures ParseAlternatives(parts).Some? <==> AllGood(parts)
  {
    if parts != [] {
      AlternativesIff(parts[..|parts| - 1]);
      AlternativeIff(parts[|parts| - 1]);
    }
  }

  /** A range parses exactly when every text between its bars is not blank and made of tokens that parse. */
  lemma RangeParsesIff(s: string)
    ensures ParseSemverRange(s).Some? <==> forall part :: part in Alternatives(Trim(s)) ==> AlternativeGood(part)
  {
    var raw, parts := Trim(s), Alternatives(Trim(s));
    AlternativesIff(parts);
    AllGoodIff(parts);
    if raw == "" { assert parts[0] in parts && !AlternativeGood(parts[0]); }
    else if AnyVersionToken(raw) { AnyAlternative(raw); }
  }

  // ------------------------------------------------------------------ tokens

  /** The token is a wildcard, or an operator and a version. */
  ghost predicate TokenMeans(word: string, cs: seq<Comparator>) {
    || ((word == "*" || word == "x" || word == "X") && cs == [])
    || exists t: string, v: Version :: ParseSemver(t) == Some(v) && OperatorOn(word, t, v, cs)
  }

  ghost predicate OperatorOn(word: string, t: string, v: Version, cs: seq<Comparator>) {
    || (word == "^" + t && cs == [Comparator(GE, v), Comparator(LT, CaretBound(v))])
    || (word == "~" + t && cs == [Comparator(GE, v), Comparator(LT, TildeBound(v))])
    || (exists op :: word == OpText(op) + t && cs == [Comparator(op, v)])
    || (word == t && cs == [Comparator(EQ, v)])
  }

  lemma TakeOpIs(word: string)
    ensures var (op, t) := TakeOp(word); word == OpText(op) + t || (word == t && op == EQ)
  {
    if |word| >= 2 { assert word == word[..2] + word[2..]; }
    if word != "" { assert word == [word[0]] + word[1..]; }
  }

  lemma SignedMeans(word: string)
    requires word != "" && (word[0] == '^' || word[0] == '~') && ParseSemver(word[1..]).Some?
    ensures OperatorOn(word, word[1..], ParseSemver(word[1..]).value, Expand(word[0], ParseSemver(word[1..]).value))
  {
    assert word == [word[0]] + word[1..];
  }

  lemma OpMeans(op: Op, t: string, word: string, v: Version)
    requires word == OpText(op) + t || (word == t && op == EQ)
    ensures OperatorOn(word, t, v, [Comparator(op, v)])
  {}

  lemma TokenHas(word: string)
    requires ParseComparatorToken(word).Some?
    ensures TokenMeans(word, ParseComparatorToken(word).value)
  {
    if !AnyVersionToken(word) {
      if word != "" && (word[0] == '^' || word[0] == '~') {
        SignedMeans(word);
      } else {
        var (op, t) := TakeOp(word);
        TakeOpIs(word);
        OpMeans(op, t, word, ParseSemver(t).value);
      }
    }
  }

  /** The three wildcards stand for no comparator. */
  lemma Wildcards()
    ensures ParseComparatorToken("*") == Some([]) && ParseComparatorToken("x") == Some([]) && ParseComparatorToken("X") == Some([])
  {}

  // ------------------------------------------------------------------ blank alternatives

  lemma BlankTrims(b: string)
    requires Blank(b)
    ensures Trim(b) == ""
  {
    TrimStartBlank(b, "");
    assert b + "" == b;
  }

  lemma {:induction false} TrimStartBars(a: string)
    ensures TrimStart(a + "||") == TrimStart(a) + "||"
  {
    if a == "" {
      assert a + "||" == "||";
    } else {
      assert (a + "||")[1..] == a[1..] + "||" && (a + "||")[0] == a[0];
      TrimStartBars(a[1..]);
    }
  }

  /** After a double bar at the end nothing is left, or the last of three bars. */
  lemma {:induction false} LastAlternative(x: string)
    ensures var parts := Alternatives(x + "||"); parts[|parts| - 1] == "" || parts[|parts| - 1] == "|"
    decreases |x|
  {
    var s := x + "||";
    BarsFirst(s);
    if x != "" { assert s[0] == x[0]; }
    if |x| >= 2 && s[..2] == "||" {
      assert s[2..] == x[2..] + "||";
      LastAlternative(x[2..]);
    } else if x == "" {
      assert s[..2] == "||" && s[2..] == "";
    } else if x == "|" {
      assert s[..2] == "||" && s[2..] == "|";
      OneBar(x);
    } else {
      assert s[1..] == x[1..] + "||";
      LastAlternative(x[1..]);
      var rest := Alternatives(x[1..] + "||");
      assert |rest| > 1 by { TwoParts(x[1..]); }
    }
  }

  lemma {:induction false} TwoParts(x: string)
    ensures |Alternatives(x + "||")| > 1
    decreases |x|
  {
    var s := x + "||";
    if s[..2] == "||" {
      assert |Alternatives(s[2..])| > 0;
    } else {
      assert s[1..] == x[1..] + "||";
      TwoParts(x[1..]);
    }
  }

  lemma OneBar(s: string)
    requires s == "|"
    ensures Alternatives(s) == [s] && Words(s) == [s] && Trim(s) == s
  {
    TrimOfNoSpace(s);
    assert s[1..] == "" && [s[0]] + "" == s;
    assert Alternatives(s[1..]) == [""] && Words(s[1..]) == [""];
  }

  lemma NoVersion(s: string)
    requires s == "|"
    ensures ParseSemver(s) == None
  {
    TrimOfNoSpace(s);
    assert !IsDigit(s[0]);
  }

  lemma BarIsNoToken(s: string)
    requires s == "|"
    ensures ParseComparatorToken(s) == None
  {
    NoVersion(s);
  }

  lemma BarIsNoAlternative(s: string)
    requires s == "|" || s == ""
    ensures !AlternativeGood(s)
  {
    if s == "|" {
      OneBar(s);
      BarIsNoToken(s);
      assert [s][0] == s;
    }
  }

  /** A range with nothing after its last bars, or nothing before its first, or nothing at all, is refused. */
  lemma BlankRefused(a: string, b: string)
    requires Blank(b)
    ensures ParseSemverRange(a + "||" + b) == None && ParseSemverRange(b + "||" + a) == None && ParseSemverRange(b) == None
  {
    BlankAlone(b);
    BlankAfter(a, b);
    BlankBefore(a, b);
  }

  lemma BlankAlone(b: string)
    requires Blank(b)
    ensures ParseSemverRange(b) == None
  {
    BlankTrims(b);
  }

  lemma BlankAfter(a: string, b: string)
    requires Blank(b)
    ensures ParseSemverRange(a + "||" + b) == None
  {
    var s, raw := a + "||" + b, TrimStart(a) + "||";
    TrimStartBars(a);
    StartThenBlank(a + "||", b);
    TrimEndBlank(raw, b);
    LastAlternative(TrimStart(a));
    RangeParsesIff(s);
    var parts := Alternatives(raw);
    BarIsNoAlternative(parts[|parts| - 1]);
    assert parts[|parts| - 1] in parts;
  }

  lemma {:induction false} StartThenBlank(x: string, b: string)
    requires x != "" && !IsSpace(x[|x| - 1])
    ensures TrimStart(x + b) == TrimStart(x) + b
  {
    assert (x + b)[0] == x[0] && (x + b)[1..] == x[1..] + b;
    if IsSpace(x[0]) { StartThenBlank(x[1..], b); }
  }

  lemma BlankBefore(a: string, b: string)
    requires Blank(b)
    ensures ParseSemverRange(b + "||" + a) == None
  {
    var s := b + "||" + a;
    assert s == b + ("||" + a);
    TrimStartBlank(b, "||" + a);
    assert TrimStart("||" + a) == "||" + a by { assert ("||" + a)[0] == '|'; }
    var raw := TrimEnd("||" + a);
    BarsStay(a);
    assert raw[..2] == "||";
    BarIsNoAlternative("");
    RangeParsesIff(s);
    assert Alternatives(raw)[0] == "" && Alternatives(raw)[0] in Alternatives(raw);
  }

  lemma {:induction false} BarsStay(a: string)
    ensures |TrimEnd("||" + a)| >= 2 && TrimEnd("||" + a)[..2] == "||"
  {
    var t := "||" + a;
    assert t[..2] == "||" && t[1] == '|';
    if a != "" && IsSpace(a[|a| - 1]) {
      assert t[..|t| - 1] == "||" + a[..|a| - 1] && t[|t| - 1] == a[|a| - 1];
      BarsStay(a[..|a| - 1]);
    } else {
      assert t[|t| - 1] == if a == "" then '|' else a[|a| - 1];
    }
  }

  /** So no version satisfies it. */
  lemma BlankNeverSatisfied(version: string, a: string, b: string)
    requires Blank(b)
    ensures !SatisfiesSemverRange(version, a + "||" + b) && !SatisfiesSemverRange(version, b + "||" + a)
    ensures !SatisfiesSemverRange(version, b)
  {
    BlankRefused(a, b);
  }
}
