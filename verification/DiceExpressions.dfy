/** Whole dice expressions as written: the terms, the first error and the labels of any of them. */
module DiceExpressions {
  import opened Text
  import opened Sequences
  import opened Dice
  import opened DiceText
  import opened DiceWriting

  /** A sign and a body, with white space around the body. */
  datatype Part = Part(sign: char, before: string, body: Body, after: string)

  predicate PartWritten(p: Part) {
    p.sign in {'+', '-'} && Blank(p.before) && WellWritten(p.body) && Blank(p.after)
  }

  predicate PartsWritten(ps: seq<Part>) { forall i :: 0 <= i < |ps| ==> PartWritten(ps[i]) }

  function Spaced(p: Part): string { p.before + (TextOf(p.body, true) + p.after) }

  function Joined(ps: seq<Part>): string { if ps == [] then "" else [ps[0].sign] + Spaced(ps[0]) + Joined(ps[1..]) }

  /** The trimmed expression is the parts; the `+` of a leading die may be left out. */
  predicate Writes(expr: string, ps: seq<Part>) {
    && ps != [] && PartsWritten(ps)
    && (Trim(expr) == Joined(ps) || (ps[0].sign == '+' && ps[0].body.Rolled? && "+" + Trim(expr) == Joined(ps)))
  }

  function SignIs(p: Part): Sign { if p.sign == '-' then Minus else Plus }

  predicate Fits(b: Body)
    requires WellWritten(b)
  {
    b.Number? || (CountFits(b) && SidesFit(b) && (b.keep.Some? ==> ClauseFits(b.keep.value, CountOf(b))))
  }

  /** Part `i` is the first that breaks a bound. */
  predicate FirstBroken(ps: seq<Part>, i: nat, e: DiceError)
    requires PartsWritten(ps)
  {
    i < |ps| && ps[i].body.Rolled? && FailsWith(ps[i].body, e) && forall j :: 0 <= j < i ==> Fits(ps[j].body)
  }

  /** The terms that the parts mean, one for each; or the error of the first part that breaks a bound. */
  ghost predicate PartsMean(ps: seq<Part>, r: Result<seq<DiceTerm>, DiceError>)
    requires PartsWritten(ps)
  {
    match r
    case Ok(ts) => |ts| == |ps| && forall i :: 0 <= i < |ps| ==> Means(ps[i].body, SignIs(ps[i]), Ok(ts[i]))
    case Err(e) => exists i: nat :: FirstBroken(ps, i, e)
  }

  // ------------------------------------------------------------------ one part

  /** No sign stands in the text. */
  predicate Signless(s: string) { forall i :: 0 <= i < |s| ==> !IsSign(s[i]) }

  lemma BlankIsSignless(s: string)
    requires Blank(s)
    ensures Signless(s)
  {
    forall i | 0 <= i < |s| ensures !IsSign(s[i]) { assert IsSpace(s[i]); }
  }

  lemma DigitsAreSignless(s: string)
    requires AllDigits(s)
    ensures Signless(s)
  {
    forall i | 0 <= i < |s| ensures !IsSign(s[i]) { assert IsDigit(s[i]); }
  }

  lemma JoinSignless(a: string, b: string)
    requires Signless(a) && Signless(b)
    ensures Signless(a + b)
  {}

  lemma ClauseIsSignless(keep: Option<KeepWriting>)
    requires keep.Some? ==> KeepWritten(keep.value)
    ensures Signless(ClauseText(keep, true))
  {
    if keep.Some? {
      BlankIsSignless(keep.value.space);
      DigitsAreSignless(keep.value.digits);
      JoinSignless(keep.value.letters, keep.value.space);
      JoinSignless(keep.value.letters + keep.value.space, keep.value.digits);
    }
  }

  lemma BodyIsSignless(b: Body)
    requires WellWritten(b)
    ensures Signless(TextOf(b, true))
  {
    match b
    case Number(digits) => DigitsAreSignless(digits);
    case Rolled(count, d, sides, gap, keep) =>
      DigitsAreSignless(count);
      DigitsAreSignless(sides);
      BlankIsSignless(gap);
      ClauseIsSignless(keep);
      JoinSignless(gap, ClauseText(keep, true));
      JoinSignless(sides, gap + ClauseText(keep, true));
      JoinSignless(count, [d]);
      JoinSignless(count + [d], sides + (gap + ClauseText(keep, true)));
  }

  lemma SpacedIsSignless(p: Part)
    requires PartWritten(p)
    ensures Signless(Spaced(p))
  {
    BlankIsSignless(p.before);
    BodyIsSignless(p.body);
    BlankIsSignless(p.after);
    JoinSignless(TextOf(p.body, true), p.after);
    JoinSignless(p.before, TextOf(p.body, true) + p.after);
  }

  predicate Firm(s: string) { s != "" && !IsSpace(s[0]) && !IsSpace(s[|s| - 1]) }

  lemma DigitsAreFirm(s: string)
    requires AllDigits(s) && s != ""
    ensures Firm(s)
  {
    assert IsDigit(s[0]) && IsDigit(s[|s| - 1]);
  }

  lemma JoinFirm(a: string, b: string)
    requires a != "" && !IsSpace(a[0]) && Firm(b)
    ensures Firm(a + b)
  {
    assert (a + b)[|a + b| - 1] == b[|b| - 1];
  }

  lemma TailIsFirm(sides: string, gap: string, keep: Option<KeepWriting>)
    requires AllDigits(sides) && sides != "" && (if keep.Some? then KeepWritten(keep.value) else gap == "")
    ensures Firm(sides + (gap + ClauseText(keep, true)))
  {
    DigitsAreFirm(sides);
    if keep.Some? {
      var k := keep.value;
      DigitsAreFirm(k.digits);
      JoinFirm(k.letters + k.space, k.digits);
      Assoc(sides, gap, ClauseText(keep, true));
      JoinFirm(sides + gap, ClauseText(keep, true));
    } else {
      assert sides + ("" + "") == sides;
    }
  }

  lemma BodyIsFirm(b: Body)
    requires WellWritten(b)
    ensures Firm(TextOf(b, true))
  {
    match b
    case Number(digits) => DigitsAreFirm(digits);
    case Rolled(count, d, sides, gap, keep) =>
      TailIsFirm(sides, gap, keep);
      if count != "" { DigitsAreFirm(count); }
      JoinFirm(count + [d], sides + (gap + ClauseText(keep, true)));
  }

  lemma SpacedTrims(p: Part)
    requires PartWritten(p)
    ensures Trim(Spaced(p)) == TextOf(p.body, true)
  {
    BodyIsFirm(p.body);
    TrimStartBlank(p.before, TextOf(p.body, true) + p.after);
    TrimEndBlank(TextOf(p.body, true), p.after);
  }

  // ------------------------------------------------------------------ all parts

  function FragmentsOf(ps: seq<Part>): seq<Fragment> {
    if ps == [] then [] else [Fragment(SignIs(ps[0]), TextOf(ps[0].body, true))] + FragmentsOf(ps[1..])
  }

  lemma SplitsAfter(sign: char, text: string, rest: string)
    requires Signless(text) && (rest == "" || IsSign(rest[0]))
    ensures var s := [sign] + text + rest;
      NextSign(s, 1) == 1 + |text| && s[1..1 + |text|] == text && s[1 + |text|..] == rest && s[0] == sign
  {
    var s := [sign] + text + rest;
    forall k | 1 <= k < 1 + |text| ensures !IsSign(s[k]) { assert s[k] == text[k - 1]; }
    if rest != "" { assert s[1 + |text|] == rest[0]; }
    NextSignOf(s, 1, 1 + |text|);
  }

  lemma JoinedStarts(ps: seq<Part>)
    requires PartsWritten(ps)
    ensures ps == [] ==> Joined(ps) == ""
    ensures ps != [] ==> Joined(ps) != "" && Joined(ps)[0] == ps[0].sign && IsSign(ps[0].sign)
  {}

  lemma {:induction false} JoinedSplits(ps: seq<Part>)
    requires PartsWritten(ps)
    ensures Fragments(Joined(ps)) == FragmentsOf(ps) && EverySignHasTerm(Joined(ps))
  {
    if ps != [] {
      var p := ps[0];
      JoinedSplits(ps[1..]);
      JoinedStarts(ps[1..]);
      SpacedIsSignless(p);
      SpacedTrims(p);
      BodyReads(p.body, SignIs(p));
      BodyIsFirm(p.body);
      SplitsAfter(p.sign, Spaced(p), Joined(ps[1..]));
    }
  }

  // ------------------------------------------------------------------ the expression around them

  lemma FirstStands(trimmed: string, text: string, rest: string)
    requires "+" + trimmed == "+" + text + rest && Signless(text) && text != "" && (rest == "" || IsSign(rest[0]))
    ensures trimmed != "" && !IsSign(trimmed[0]) && trimmed[..NextSign(trimmed, 0)] == text
  {
    assert ("+" + trimmed)[1..] == trimmed && ("+" + text + rest)[1..] == text + rest;
    forall k | 0 <= k < |text| ensures !IsSign(trimmed[k]) { assert trimmed[k] == text[k]; }
    if rest != "" { assert trimmed[|text|] == rest[0]; }
    NextSignOf(trimmed, 0, |text|);
  }

  /** The first part of an expression that opens without a sign stands before its first sign. */
  lemma FirstPart(trimmed: string, ps: seq<Part>)
    requires ps != [] && PartsWritten(ps) && Joined(ps) == "+" + trimmed
    ensures trimmed != "" && !IsSign(trimmed[0]) && ps[0].sign == '+'
    ensures Trim(trimmed[..NextSign(trimmed, 0)]) == TextOf(ps[0].body, true)
  {
    SpacedIsSignless(ps[0]);
    SpacedTrims(ps[0]);
    BodyIsFirm(ps[0].body);
    JoinedStarts(ps);
    JoinedStarts(ps[1..]);
    FirstStands(trimmed, Spaced(ps[0]), Joined(ps[1..]));
  }

  lemma WritesMatches(expr: string, ps: seq<Part>)
    requires Writes(expr, ps)
    ensures MatchesDiceExprPattern(expr) && Signed(expr) == Joined(ps)
  {
    JoinedSplits(ps);
    JoinedStarts(ps);
    if Trim(expr) != Joined(ps) {
      FirstPart(Trim(expr), ps);
      RolledReads(ps[0].body);
    }
  }

  lemma {:induction false} BodiesOf(ps: seq<Part>)
    requires PartsWritten(ps)
    ensures |FragmentsOf(ps)| == |ps| && TermBodies(FragmentsOf(ps))
  {
    if ps != [] {
      BodiesOf(ps[1..]);
      BodyReads(ps[0].body, SignIs(ps[0]));
    }
  }

  lemma BrokenLater(ps: seq<Part>, e: DiceError)
    requires PartsWritten(ps) && ps != [] && Fits(ps[0].body) && PartsMean(ps[1..], Err(e))
    ensures PartsMean(ps, Err(e))
  {
    var i: nat :| FirstBroken(ps[1..], i, e);
    assert ps[i + 1] == ps[1..][i];
    forall j | 0 <= j < i + 1 ensures Fits(ps[j].body) {
      if j > 0 { assert ps[j] == ps[1..][j - 1]; }
    }
    assert FirstBroken(ps, i + 1, e);
  }

  lemma {:induction false} TermsMean(ps: seq<Part>)
    requires PartsWritten(ps) && TermBodies(FragmentsOf(ps))
    ensures PartsMean(ps, ParseTerms(FragmentsOf(ps)))
  {
    if ps != [] {
      var f, rest := Fragment(SignIs(ps[0]), TextOf(ps[0].body, true)), FragmentsOf(ps[1..]);
      assert FragmentsOf(ps) == [f] + rest;
      BodiesOf(ps[1..]);
      TermsMean(ps[1..]);
      BodyReads(ps[0].body, SignIs(ps[0]));
      FirstThenRest(ps, ParseOneTerm(f), ParseTerms(rest));
    }
  }

  lemma FirstThenRest(ps: seq<Part>, first: Result<DiceTerm, DiceError>, rest: Result<seq<DiceTerm>, DiceError>)
    requires ps != [] && PartsWritten(ps) && Means(ps[0].body, SignIs(ps[0]), first) && PartsMean(ps[1..], rest)
    ensures PartsMean(ps, Prepend(first, rest))
  {
    if first.Err? {
      assert FirstBroken(ps, 0, first.error);
    } else if rest.Err? {
      BrokenLater(ps, rest.error);
    } else {
      var ts := [first.value] + rest.value;
      forall i | 0 <= i < |ps| ensures Means(ps[i].body, SignIs(ps[i]), Ok(ts[i])) {
        if i > 0 { assert ps[i] == ps[1..][i - 1] && ts[i] == rest.value[i - 1]; }
      }
    }
  }

  /** Every writing of an expression parses to the terms it means, or to the error of its first part out of bounds. */
  lemma WritingParses(expr: string, ps: seq<Part>)
    requires Writes(expr, ps)
    ensures PartsMean(ps, ParseCompoundDiceExpr(expr))
  {
    WritesMatches(expr, ps);
    JoinedSplits(ps);
    BodiesOf(ps);
    TermsMean(ps);
  }

  // ------------------------------------------------------------------ every accepted expression

  lemma PartIsWritten(sign: char, text: string) returns (p: Part)
    requires sign in {'+', '-'} && IsTermBody(Trim(text))
    ensures PartWritten(p) && p.sign == sign && Spaced(p) == text && TextOf(p.body, true) == Trim(text)
  {
    var before := LeadingBlank(text);
    var after := TrailingBlank(TrimStart(text));
    TrimTwice(text);
    var body := BodyIsWritten(Trim(text));
    p := Part(sign, before, body, after);
  }

  lemma JoinPart(p: Part, more: seq<Part>)
    ensures Joined([p] + more) == [p.sign] + Spaced(p) + Joined(more)
  {
    assert ([p] + more)[1..] == more;
  }

  lemma {:induction false} PartsExist(signed: string) returns (ps: seq<Part>)
    requires EverySignHasTerm(signed) && (signed == "" || IsSign(signed[0]))
    ensures PartsWritten(ps) && Joined(ps) == signed
    decreases |signed|
  {
    ps := [];
    if signed != "" {
      var n := NextSign(signed, 1);
      var text, rest := signed[1..n], signed[n..];
      var more := PartsExist(rest);
      var p := PartIsWritten(signed[0], text);
      JoinPart(p, more);
      SignAndRest(signed, n);
      ps := [p] + more;
    }
  }

  lemma SignAndRest(signed: string, n: nat)
    requires 1 <= n <= |signed|
    ensures [signed[0]] + signed[1..n] + signed[n..] == signed
  {}

  lemma NumberIsNoDie(b: Body)
    requires WellWritten(b) && MatchDieTerm(TextOf(b, true)).Some?
    ensures b.Rolled?
  {
    if b.Number? { DigitsAreNoDie(b.digits); }
  }

  lemma AcceptedIsWritten(expr: string) returns (ps: seq<Part>)
    requires MatchesDiceExprPattern(expr)
    ensures Writes(expr, ps)
  {
    var trimmed := Trim(expr);
    ps := PartsExist(Signed(expr));
    if !IsSign(trimmed[0]) {
      FirstPart(trimmed, ps);
      NumberIsNoDie(ps[0].body);
    }
  }

  lemma NeverBadExpression(ps: seq<Part>, r: Result<seq<DiceTerm>, DiceError>)
    requires PartsWritten(ps) && PartsMean(ps, r)
    ensures r != Err(BadExpression)
  {}

  /** An expression matches the pattern exactly when it is a writing of some parts. */
  lemma ExpressionIff(expr: string)
    ensures ParseCompoundDiceExpr(expr) != Err(BadExpression) <==> exists ps :: Writes(expr, ps)
  {
    if MatchesDiceExprPattern(expr) {
      var ps := AcceptedIsWritten(expr);
      WritingParses(expr, ps);
      NeverBadExpression(ps, ParseCompoundDiceExpr(expr));
    }
    if ps :| Writes(expr, ps) {
      WritesMatches(expr, ps);
    }
  }

  // ------------------------------------------------------------------ labels

  function LabelOf(p: Part): string {
    (if p.sign == '-' then "-" else if p.body.Rolled? then "" else "+") + TextOf(p.body, false)
  }

  function LabelsOf(ps: seq<Part>): seq<string> { seq(|ps|, i requires 0 <= i < |ps| => LabelOf(ps[i])) }

  lemma LabelsFirst(p: Part, rest: seq<Part>)
    ensures LabelsOf([p] + rest) == [LabelOf(p)] + LabelsOf(rest)
  {}

  lemma TextsFirst(f: Fragment, rest: seq<Fragment>)
    ensures TermTexts([f] + rest) == [TermText(f)] + TermTexts(rest)
  {
    assert ([f] + rest)[1..] == rest;
  }

  lemma {:induction false} LabelsOfParts(ps: seq<Part>)
    requires PartsWritten(ps)
    ensures TermTexts(FragmentsOf(ps)) == LabelsOf(ps)
  {
    if ps != [] {
      LabelsOfParts(ps[1..]);
      LabelIs(ps[0].body, SignIs(ps[0]));
      HeadTail(ps);
      LabelsFirst(ps[0], ps[1..]);
      TextsFirst(Fragment(SignIs(ps[0]), TextOf(ps[0].body, true)), FragmentsOf(ps[1..]));
    }
  }

  /** The labels are the parts without their white space, signed unless they are added dice. */
  lemma LabelsAre(expr: string, ps: seq<Part>)
    requires Writes(expr, ps)
    ensures TermSourceTexts(expr) == LabelsOf(ps)
  {
    WritesMatches(expr, ps);
    JoinedSplits(ps);
    LabelsOfParts(ps);
  }
}
