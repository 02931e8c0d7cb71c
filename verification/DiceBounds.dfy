/** `isRollableDamageExpression` against the roller's own parser (packages/schema/src/dice-bounds.ts). */
module DiceBounds {
  import opened Text
  import opened Sequences
  import opened Dice

  /** A die term without keep clause or white space: count, `d`, sides. */
  function MatchCompactDie(s: string): Option<DieMatch> {
    var n := DigitRun(s);
    if n > 2 || n == |s| || !IsD(s[n]) then None else CompactSides(s[..n], s[n + 1..])
  }

  function CompactSides(count: string, rest: string): Option<DieMatch> {
    if DigitsUpTo(rest, 3) then Some(DieMatch(count, rest, "")) else None
  }

  /** The bounds on count and sides. */
  predicate DieFits(m: DieMatch)
    requires AllDigits(m.count) && AllDigits(m.sides)
  {
    var count := if m.count == "" then 1 else ParseDecimal(m.count);
    1 <= count <= DICE_MAX_COUNT && ParseDecimal(m.sides) in DICE_ALLOWED_SIDES
  }

  /** The text before the first sign. */
  function Before(s: string): string { s[..NextSign(s, 0)] }

  /** The text after the first sign, if there is one. */
  function After(s: string): Option<string> {
    if NextSign(s, 0) < |s| then Some(s[NextSign(s, 0) + 1..]) else None
  }

  /** `SIMPLE_DAMAGE_EXPRESSION` and the bounds: a die, then at most one signed number. */
  predicate Rollable(before: string, after: Option<string>) {
    && MatchCompactDie(before).Some? && DieFits(MatchCompactDie(before).value)
    && (after.Some? ==> DigitsUpTo(after.value, 3) && ParseDecimal(after.value) <= DICE_MAX_MODIFIER_ABS)
  }

  predicate IsRollableDamageExpression(expr: string) {
    var s := StripSpaces(Trim(expr));
    Rollable(Before(s), After(s))
  }

  // ------------------------------------------------- an expression around its sign

  function TrimIn(s: Option<string>): Option<string> { if s.Some? then Some(Trim(s.value)) else None }

  function StripIn(s: Option<string>): Option<string> { if s.Some? then Some(StripSpaces(s.value)) else None }

  /** White space stands next to the first sign only. */
  predicate Tight(t: string) { NoSpace(Trim(Before(t))) && (After(t).Some? ==> NoSpace(Trim(After(t).value))) }

  predicate IsRolledDie(t: DiceTerm) { t.Die? && t.keep == None && t.sign == Plus }

  /** One added die without keep clause, then at most one modifier. */
  predicate SimpleShape(ts: seq<DiceTerm>) {
    1 <= |ts| <= 2 && IsRolledDie(ts[0]) && (|ts| == 2 ==> ts[1].Modifier?)
  }

  // -------------------------------------------------------------- stripping spaces

  lemma {:induction false} StripJoin(a: string, b: string)
    ensures StripSpaces(a + b) == StripSpaces(a) + StripSpaces(b)
  {
    if a == "" {
      assert a + b == b;
    } else {
      StripJoin(a[1..], b);
      assert (a + b)[1..] == a[1..] + b;
      Assoc([a[0]], StripSpaces(a[1..]), StripSpaces(b));
    }
  }

  lemma {:induction false} StripBlank(s: string)
    requires Blank(s)
    ensures StripSpaces(s) == ""
  {
    if s != "" { StripBlank(s[1..]); }
  }

  lemma {:induction false} StripOfTrimStart(s: string)
    ensures StripSpaces(TrimStart(s)) == StripSpaces(s)
  {
    if s != "" && IsSpace(s[0]) { StripOfTrimStart(s[1..]); }
  }

  lemma {:induction false} StripOfTrimEnd(s: string)
    ensures StripSpaces(TrimEnd(s)) == StripSpaces(s)
  {
    if s != "" && IsSpace(s[|s| - 1]) {
      StripOfTrimEnd(s[..|s| - 1]);
      StripJoin(s[..|s| - 1], [s[|s| - 1]]);
      assert s == s[..|s| - 1] + [s[|s| - 1]] && StripSpaces([s[|s| - 1]]) == "";
    }
  }

  lemma StripOfTrim(s: string)
    ensures StripSpaces(Trim(s)) == StripSpaces(s)
  {
    StripOfTrimStart(s);
    StripOfTrimEnd(TrimStart(s));
  }

  predicate HasNoSign(s: string) { forall i :: 0 <= i < |s| ==> !IsSign(s[i]) }

  lemma {:induction false} StripKeepsSigns(s: string)
    ensures HasNoSign(StripSpaces(s)) <==> HasNoSign(s)
  {
    if s != "" {
      StripKeepsSigns(s[1..]);
      assert s == [s[0]] + s[1..];
      SignsJoin([s[0]], s[1..]);
      SignsJoin([s[0]], StripSpaces(s[1..]));
    }
  }

  lemma SignsJoin(a: string, b: string)
    ensures HasNoSign(a + b) <==> HasNoSign(a) && HasNoSign(b)
  {
    if HasNoSign(a + b) {
      forall i | 0 <= i < |a| ensures !IsSign(a[i]) { assert (a + b)[i] == a[i]; }
      forall i | 0 <= i < |b| ensures !IsSign(b[i]) { assert (a + b)[|a| + i] == b[i]; }
    }
  }

  lemma TrimKeepsSigns(s: string)
    ensures HasNoSign(Trim(s)) <==> HasNoSign(s)
  {
    StripOfTrim(s);
    StripKeepsSigns(s);
    StripKeepsSigns(Trim(s));
  }

  // ------------------------------------------------------------------ both splits

  lemma NoSignBefore(t: string)
    ensures HasNoSign(Before(t))
  {
    forall i | 0 <= i < NextSign(t, 0) ensures !IsSign(t[i]) { NextSignSkips(t, 0, i); }
  }

  lemma SplitUnsigned(a: string)
    requires HasNoSign(a)
    ensures Before(a) == a && After(a) == None
  {
    NextSignOf(a, 0, |a|);
  }

  lemma SplitAtSign(a: string, c: char, b: string)
    requires HasNoSign(a) && IsSign(c)
    ensures Before(a + [c] + b) == a && After(a + [c] + b) == Some(b)
  {
    var s := a + [c] + b;
    NextSignOf(s, 0, |a|);
    assert s[..|a|] == a && s[|a| + 1..] == b;
  }

  lemma Rejoin(t: string)
    ensures After(t) == None ==> t == Before(t)
    ensures After(t).Some? ==> IsSign(t[NextSign(t, 0)]) && t == Before(t) + [t[NextSign(t, 0)]] + After(t).value
  {}

  lemma SignIsNoSpace(c: char)
    requires IsSign(c)
    ensures StripSpaces([c]) == [c]
  {
    assert [c][1..] == "" && StripSpaces("") == "";
  }

  /** Taking the white space out keeps what stands before and after the first sign. */
  lemma SplitOfStripped(t: string)
    ensures Before(StripSpaces(t)) == StripSpaces(Before(t)) && After(StripSpaces(t)) == StripIn(After(t))
  {
    NoSignBefore(t);
    StripKeepsSigns(Before(t));
    Rejoin(t);
    if After(t).Some? {
      var c := t[NextSign(t, 0)];
      StripJoin(Before(t) + [c], After(t).value);
      StripJoin(Before(t), [c]);
      SignIsNoSpace(c);
      SplitAtSign(StripSpaces(Before(t)), c, StripSpaces(After(t).value));
    } else {
      SplitUnsigned(StripSpaces(t));
    }
  }

  // ------------------------------------------------------------------- die and modifier

  lemma SidesOnly(count: string, rest: string)
    requires CompactSides(count, rest).Some?
    ensures MatchSides(count, rest) == CompactSides(count, rest)
  {
    DigitRunAll(rest);
    assert rest[|rest|..] == "" && rest[..|rest|] == rest;
  }

  lemma DieOfCompact(h: string)
    requires MatchCompactDie(h).Some?
    ensures MatchDieTerm(h) == MatchCompactDie(h)
  {
    var n := DigitRun(h);
    SidesOnly(h[..n], h[n + 1..]);
  }

  lemma CompactIsTight(h: string)
    requires MatchCompactDie(h).Some?
    ensures NoSpace(h) && h != ""
  {
    var n := DigitRun(h);
    forall i | 0 <= i < |h| ensures !IsSpace(h[i]) {
      if i < n { assert h[i] == h[..n][i]; } else if i > n { assert h[i] == h[n + 1..][i - n - 1]; }
    }
  }

  lemma {:induction false} BlankEnds(s: string)
    requires s != "" && TrimStart(s) == ""
    ensures IsSpace(s[|s| - 1])
  {
    if |s| > 1 { BlankEnds(s[1..]); }
  }

  lemma NoClauseLeft(rest: string, m: nat)
    requires m < |rest| && TrimStart(rest[m..]) == ""
    ensures IsSpace(rest[|rest| - 1])
  {
    BlankEnds(rest[m..]);
  }

  lemma CompactOfSides(count: string, rest: string)
    requires MatchSides(count, rest).Some? && MatchSides(count, rest).value.keep == "" && !IsSpace(rest[|rest| - 1])
    ensures CompactSides(count, rest) == MatchSides(count, rest)
  {
    var m := DigitRun(rest);
    if m < |rest| { NoClauseLeft(rest, m); }
    assert rest[..|rest|] == rest;
  }

  /** A die term without keep clause that does not end in white space holds none. */
  lemma CompactOfDie(h: string)
    requires MatchDieTerm(h).Some? && MatchDieTerm(h).value.keep == "" && !IsSpace(h[|h| - 1])
    ensures MatchCompactDie(h) == MatchDieTerm(h)
  {
    var n := DigitRun(h);
    var rest := h[n + 1..];
    assert rest != "" ==> rest[|rest| - 1] == h[|h| - 1];
    CompactOfSides(h[..n], rest);
  }

  /** The die a rollable expression denotes. */
  function RolledDie(m: DieMatch): DiceTerm
    requires AllDigits(m.count) && AllDigits(m.sides)
  {
    Die(if m.count == "" then 1 else ParseDecimal(m.count), ParseDecimal(m.sides), None, Plus)
  }

  function RolledModifier(sign: Sign, digits: string): DiceTerm
    requires AllDigits(digits)
  {
    var value: int := ParseDecimal(digits);
    Modifier(if sign == Minus then -1 * value else value)
  }

  lemma HeadReads(h: string)
    requires MatchCompactDie(h).Some? && DieFits(MatchCompactDie(h).value)
    ensures ReadsAs(Fragment(Plus, h), RolledDie(MatchCompactDie(h).value))
  {
    DieOfCompact(h);
    DieMatchParts(h);
  }

  lemma DieOfRolled(m: DieMatch, sign: Sign)
    requires IsDieMatch(m) && ParseDie(m, sign).Ok?
    ensures ParseDie(m, sign).value.Die? && (ParseDie(m, sign).value.keep == None ==> m.keep == "" && DieFits(m))
  {}

  lemma HeadIsCompact(h: string, t: DiceTerm)
    requires ReadsAs(Fragment(Plus, h), t) && IsRolledDie(t) && h == Trim(h)
    ensures MatchCompactDie(h).Some? && DieFits(MatchCompactDie(h).value)
  {
    DieMatchParts(h);
    DieOfRolled(MatchDieTerm(h).value, Plus);
    CompactOfDie(h);
  }

  lemma TailReads(sign: Sign, d: string)
    requires DigitsUpTo(d, 3) && ParseDecimal(d) <= DICE_MAX_MODIFIER_ABS
    ensures ReadsAs(Fragment(sign, d), RolledModifier(sign, d))
  {
    DigitRunAll(d);
  }

  lemma TailIsDigits(sign: Sign, d: string, t: DiceTerm)
    requires ReadsAs(Fragment(sign, d), t) && t.Modifier?
    ensures DigitsUpTo(d, 3) && ParseDecimal(d) <= DICE_MAX_MODIFIER_ABS
  {
    if MatchDieTerm(d).Some? {
      DieMatchParts(d);
      DieOfRolled(MatchDieTerm(d).value, sign);
    }
  }

  // ------------------------------------------------------------- parsing sign by sign

  /** A text that starts with a sign is one term after another, the terms being `ts`. */
  ghost predicate Accepts(signed: string, ts: seq<DiceTerm>) {
    EverySignHasTerm(signed) && AllReadAs(Fragments(signed), ts)
  }

  lemma AcceptNothing(ts: seq<DiceTerm>)
    ensures Accepts("", ts) <==> ts == []
  {}

  lemma NoTermIsEmpty(signed: string)
    requires Accepts(signed, [])
    ensures signed == ""
  {
    SignsGiveTerms(signed);
  }

  /** The first term of a signed text, as a fragment, and the text after it. */
  function FirstFragment(s: string): Fragment
    requires s != ""
  {
    Fragment(AsSign(s[0]), Trim(s[1..NextSign(s, 1)]))
  }

  function AfterFirst(s: string): string
    requires s != ""
  {
    s[NextSign(s, 1)..]
  }

  lemma FirstOfFragments(s: string)
    requires s != "" && FirstFragment(s).body != ""
    ensures Fragments(s) == [FirstFragment(s)] + Fragments(AfterFirst(s))
  {}

  lemma PrependSplit(first: Result<DiceTerm, DiceError>, rest: Result<seq<DiceTerm>, DiceError>, ts: seq<DiceTerm>)
    ensures Prepend(first, rest) == Ok(ts) <==> ts != [] && first == Ok(ts[0]) && rest == Ok(ts[1..])
  {
    if ts != [] { assert ts == [ts[0]] + ts[1..]; }
  }

  lemma BodiesSplit(f: Fragment, fs: seq<Fragment>)
    ensures TermBodies([f] + fs) <==> IsTermBody(f.body) && TermBodies(fs)
  {
    if TermBodies([f] + fs) {
      assert ([f] + fs)[0] == f;
      forall i | 0 <= i < |fs| ensures IsTermBody(fs[i].body) { assert ([f] + fs)[i + 1] == fs[i]; }
    }
  }

  lemma TermsSplit(f: Fragment, fs: seq<Fragment>, ts: seq<DiceTerm>)
    ensures AllReadAs([f] + fs, ts) <==> ts != [] && ReadsAs(f, ts[0]) && AllReadAs(fs, ts[1..])
  {
    BodiesSplit(f, fs);
    if TermBodies([f] + fs) {
      assert ([f] + fs)[0] == f && ([f] + fs)[1..] == fs;
      PrependSplit(ParseOneTerm(f), ParseTerms(fs), ts);
    }
  }

  lemma AcceptSplit(s: string, ts: seq<DiceTerm>)
    requires s != ""
    ensures Accepts(s, ts) <==> ts != [] && ReadsAs(FirstFragment(s), ts[0]) && Accepts(AfterFirst(s), ts[1..])
  {
    EmptyIsNoTerm();
    if FirstFragment(s).body != "" {
      FirstOfFragments(s);
      TermsSplit(FirstFragment(s), Fragments(AfterFirst(s)), ts);
    }
  }

  lemma ParsesByAccepting(expr: string, ts: seq<DiceTerm>)
    requires Trim(expr) != "" && !IsSign(Trim(expr)[0])
    ensures ParseCompoundDiceExpr(expr) == Ok(ts) <==>
      MatchDieTerm(Trim(Before(Trim(expr)))).Some? && Accepts("+" + Trim(expr), ts)
  {
    if MatchesDiceExprPattern(expr) { PatternGivesTerms(expr); }
  }

  // -------------------------------------------------------------------- agreement

  function FromSign(t: string): string { t[NextSign(t, 0)..] }

  lemma FirstOfPlus(t: string)
    ensures FirstFragment("+" + t) == Fragment(Plus, Trim(Before(t))) && AfterFirst("+" + t) == FromSign(t)
  {
    var s, n := "+" + t, NextSign(t, 0);
    NoSignBefore(t);
    assert forall k :: 1 <= k < n + 1 ==> s[k] == Before(t)[k - 1];
    NextSignOf(s, 1, n + 1);
    assert s[1..n + 1] == Before(t) && s[n + 1..] == FromSign(t);
  }

  lemma LastFragment(u: string)
    requires u != "" && IsSign(u[0])
    ensures HasNoSign(u[1..]) ==> AfterFirst(u) == ""
    ensures AfterFirst(u) == "" ==> FirstFragment(u) == Fragment(AsSign(u[0]), Trim(u[1..]))
  {
    assert u[1..|u|] == u[1..];
    if HasNoSign(u[1..]) {
      assert forall k :: 1 <= k < |u| ==> u[k] == u[1..][k - 1];
      NextSignOf(u, 1, |u|);
    }
  }

  lemma DigitsHaveNoSign(s: string)
    requires AllDigits(Trim(s))
    ensures HasNoSign(s)
  {
    TrimKeepsSigns(s);
  }

  /** The terms of a rollable text: its die, then its modifier. */
  function RolledTerms(t: string): seq<DiceTerm>
    requires Rollable(Trim(Before(t)), TrimIn(After(t)))
  {
    [RolledDie(MatchCompactDie(Trim(Before(t))).value)] +
    (match After(t)
     case None => []
     case Some(r) => [RolledModifier(AsSign(FromSign(t)[0]), Trim(r))])
  }

  lemma ModifierReads(u: string)
    requires u != "" && IsSign(u[0])
    requires DigitsUpTo(Trim(u[1..]), 3) && ParseDecimal(Trim(u[1..])) <= DICE_MAX_MODIFIER_ABS
    ensures Accepts(u, [RolledModifier(AsSign(u[0]), Trim(u[1..]))])
  {
    var ts := [RolledModifier(AsSign(u[0]), Trim(u[1..]))];
    TailReads(AsSign(u[0]), Trim(u[1..]));
    DigitsHaveNoSign(u[1..]);
    LastFragment(u);
    AcceptNothing(ts[1..]);
    AcceptSplit(u, ts);
  }

  lemma RollableReads(t: string)
    requires Rollable(Trim(Before(t)), TrimIn(After(t)))
    ensures Accepts("+" + t, RolledTerms(t)) && SimpleShape(RolledTerms(t))
  {
    var ts := RolledTerms(t);
    FirstOfPlus(t);
    HeadReads(Trim(Before(t)));
    AcceptSplit("+" + t, ts);
    if After(t).Some? {
      assert FromSign(t)[1..] == After(t).value;
      ModifierReads(FromSign(t));
      assert ts[1..] == [ts[1]];
    } else {
      assert FromSign(t) == "";
      AcceptNothing(ts[1..]);
    }
  }

  /** `h` reads as the added die `t` of a rollable expression. */
  predicate HeadIs(h: string, t: DiceTerm) {
    MatchCompactDie(h).Some? && DieFits(MatchCompactDie(h).value) && t == RolledDie(MatchCompactDie(h).value)
  }

  lemma ReadsHead(t: string, ts: seq<DiceTerm>)
    requires Accepts("+" + t, ts) && SimpleShape(ts)
    ensures HeadIs(Trim(Before(t)), ts[0]) && Accepts(FromSign(t), ts[1..])
  {
    FirstOfPlus(t);
    AcceptSplit("+" + t, ts);
    TrimTwice(Before(t));
    HeadIsCompact(Trim(Before(t)), ts[0]);
    HeadReads(Trim(Before(t)));
  }

  lemma ReadsRollable(t: string, ts: seq<DiceTerm>)
    requires Accepts("+" + t, ts) && SimpleShape(ts)
    ensures Rollable(Trim(Before(t)), TrimIn(After(t))) && ts == RolledTerms(t)
  {
    ReadsHead(t, ts);
    if After(t).Some? {
      assert FromSign(t)[1..] == After(t).value;
      ReadsLast(FromSign(t), ts[1..]);
    } else {
      assert FromSign(t) == "";
      AcceptNothing(ts[1..]);
    }
    HeadTail(ts);
  }

  /** A signed text read as at most one modifier. */
  lemma ReadsLast(u: string, ts: seq<DiceTerm>)
    requires u != "" && IsSign(u[0]) && Accepts(u, ts) && |ts| <= 1 && forall i :: 0 <= i < |ts| ==> ts[i].Modifier?
    ensures DigitsUpTo(Trim(u[1..]), 3) && ParseDecimal(Trim(u[1..])) <= DICE_MAX_MODIFIER_ABS
    ensures ts == [RolledModifier(AsSign(u[0]), Trim(u[1..]))]
  {
    AcceptSplit(u, ts);
    assert ts[1..] == [] && ts == [ts[0]];
    NoTermIsEmpty(AfterFirst(u));
    LastFragment(u);
    TailIsDigits(AsSign(u[0]), Trim(u[1..]), ts[0]);
    TailReads(AsSign(u[0]), Trim(u[1..]));
  }

  lemma RollableWhenTight(expr: string)
    requires Tight(Trim(expr))
    ensures IsRollableDamageExpression(expr) <==> Rollable(Trim(Before(Trim(expr))), TrimIn(After(Trim(expr))))
  {
    var t := Trim(expr);
    SplitOfStripped(t);
    StripOfTrim(Before(t));
    StripOfNoSpace(Trim(Before(t)));
    if After(t).Some? {
      StripOfTrim(After(t).value);
      StripOfNoSpace(Trim(After(t).value));
    }
  }

  lemma RollableIsTight(t: string)
    requires Rollable(Trim(Before(t)), TrimIn(After(t)))
    ensures Tight(t) && t != "" && !IsSign(t[0])
  {
    CompactIsTight(Trim(Before(t)));
    NoSignBefore(t);
    if After(t).Some? { DigitsAreTight(Trim(After(t).value)); }
  }

  lemma DigitsAreTight(s: string)
    requires AllDigits(s)
    ensures NoSpace(s)
  {}

  lemma StripDigits(s: string)
    requires AllDigits(s)
    ensures StripSpaces(s) == s
  {
    DigitsAreTight(s);
    StripOfNoSpace(s);
  }

  /** The parser reads an expression as one added die and at most one modifier. */
  predicate ReadSimply(expr: string) {
    ParseCompoundDiceExpr(expr).Ok? && SimpleShape(ParseCompoundDiceExpr(expr).value)
  }

  /**
   * An expression whose only inner white space is around its sign is rollable exactly when it starts without
   * a sign and the parser reads it as one added die and at most one modifier; the values agree.
   */
  lemma RollableIff(expr: string)
    requires Tight(Trim(expr))
    ensures IsRollableDamageExpression(expr) <==>
      Trim(expr) != "" && !IsSign(Trim(expr)[0]) && ReadSimply(expr)
    ensures IsRollableDamageExpression(expr) ==>
      Rollable(Trim(Before(Trim(expr))), TrimIn(After(Trim(expr))))
      && ParseCompoundDiceExpr(expr) == Ok(RolledTerms(Trim(expr)))
  {
    var t := Trim(expr);
    RollableWhenTight(expr);
    if IsRollableDamageExpression(expr) {
      RollableIsTight(t);
      RollableReads(t);
      DieOfCompact(Trim(Before(t)));
      ParsesByAccepting(expr, RolledTerms(t));
    }
    if t != "" && !IsSign(t[0]) && ReadSimply(expr) {
      ParsesByAccepting(expr, ParseCompoundDiceExpr(expr).value);
      ReadsRollable(t, ParseCompoundDiceExpr(expr).value);
    }
  }

  lemma {:induction false} StrippedHasNoSpace(s: string)
    ensures NoSpace(StripSpaces(s))
  {
    if s != "" { StrippedHasNoSpace(s[1..]); }
  }

  lemma NoSpaceIsTight(s: string)
    requires NoSpace(s)
    ensures Trim(s) == s && Tight(s)
  {
    TrimOfNoSpace(s);
    TrimOfNoSpace(Before(s));
    if After(s).Some? { TrimOfNoSpace(After(s).value); }
  }

  /** Any expression is rollable exactly when, without its white space, the parser reads it simply and unsigned. */
  lemma RollableWithoutSpace(expr: string)
    ensures var s := StripSpaces(expr);
      IsRollableDamageExpression(expr) <==> s != "" && !IsSign(s[0]) && ReadSimply(s)
  {
    var s := StripSpaces(expr);
    StripOfTrim(expr);
    StrippedHasNoSpace(expr);
    NoSpaceIsTight(s);
    StripOfNoSpace(s);
    RollableIff(s);
  }

  // ------------------------------------------------------------------- disagreement

  lemma {:induction false} StripKeepsChar(s: string, i: nat)
    requires i < |s| && !IsSpace(s[i])
    ensures s[i] in StripSpaces(s)
  {
    if i > 0 { StripKeepsChar(s[1..], i - 1); }
  }

  lemma CompactChars(h: string, c: char)
    requires MatchCompactDie(h).Some? && c in h
    ensures IsDigit(c) || IsD(c)
  {
    var n := DigitRun(h);
    var i :| 0 <= i < |h| && h[i] == c;
    if i < n { assert h[i] == h[..n][i]; } else if i > n { assert h[i] == h[n + 1..][i - n - 1]; }
  }

  lemma {:induction false} TrimStartChar(s: string, i: nat)
    requires i < |TrimStart(s)|
    ensures exists k :: 0 <= k < |s| && s[k] == TrimStart(s)[i]
  {
    if s != "" && IsSpace(s[0]) {
      TrimStartChar(s[1..], i);
      var k :| 0 <= k < |s[1..]| && s[1..][k] == TrimStart(s[1..])[i];
      assert s[k + 1] == TrimStart(s)[i];
    }
  }

  /** A keep clause holds an `h` or an `l`, which no compact die has. */
  lemma KeepIsNotCompact(h: string)
    requires MatchDieTerm(h).Some? && MatchDieTerm(h).value.keep != ""
    ensures MatchCompactDie(StripSpaces(h)).None?
  {
    var rest := h[DigitRun(h) + 1..];
    var tail := rest[DigitRun(rest)..];
    TrimStartChar(tail, 1);
    var k :| 0 <= k < |tail| && tail[k] == TrimStart(tail)[1];
    var at := DigitRun(h) + 1 + DigitRun(rest) + k;
    assert h[at] == tail[k];
    KeepLetter(h[at]);
    StripKeepsChar(h, at);
    if MatchCompactDie(StripSpaces(h)).Some? { CompactChars(StripSpaces(h), h[at]); }
  }

  lemma KeepLetter(c: char)
    requires IsH(c) || IsL(c)
    ensures !IsSpace(c) && !IsDigit(c) && !IsD(c)
  {}

  lemma DieTermTight(h: string)
    requires MatchDieTerm(h).Some? && MatchCompactDie(StripSpaces(h)).Some? && h == Trim(h)
    ensures NoSpace(h)
  {
    if MatchDieTerm(h).value.keep != "" {
      KeepIsNotCompact(h);
    } else {
      CompactOfDie(h);
      CompactIsTight(h);
    }
  }

  lemma TermBodyTight(d: string)
    requires IsTermBody(d) && AllDigits(StripSpaces(d))
    ensures NoSpace(d)
  {
    if MatchDieTerm(d).Some? {
      assert !IsDigit('d') && !IsDigit('D') && !IsSpace('d') && !IsSpace('D');
      StripKeepsChar(d, DigitRun(d));
    }
  }

  lemma StrippedDigits(s: string)
    requires AllDigits(StripSpaces(s))
    ensures HasNoSign(s)
  {
    StripKeepsSigns(s);
  }

  lemma AcceptedTail(u: string, ts: seq<DiceTerm>)
    requires u != "" && IsSign(u[0]) && Accepts(u, ts) && AllDigits(StripSpaces(u[1..]))
    ensures NoSpace(Trim(u[1..]))
  {
    var r := u[1..];
    StrippedDigits(r);
    LastFragment(u);
    AcceptSplit(u, ts);
    StripOfTrim(r);
    TermBodyTight(Trim(r));
  }

  lemma AcceptedIsTight(t: string, ts: seq<DiceTerm>)
    requires Rollable(StripSpaces(Before(t)), StripIn(After(t)))
    requires MatchDieTerm(Trim(Before(t))).Some? && Accepts("+" + t, ts)
    ensures Tight(t)
  {
    StripOfTrim(Before(t));
    TrimTwice(Before(t));
    DieTermTight(Trim(Before(t)));
    if After(t).Some? {
      FirstOfPlus(t);
      AcceptSplit("+" + t, ts);
      assert FromSign(t)[1..] == After(t).value;
      AcceptedTail(FromSign(t), ts[1..]);
    }
  }

  /** The parser refuses a rollable expression exactly when white space stands inside its die or its number. */
  lemma RollableIsAcceptedIff(expr: string)
    requires IsRollableDamageExpression(expr)
    ensures ParseCompoundDiceExpr(expr).Ok? <==> Tight(Trim(expr))
  {
    var t := Trim(expr);
    if Tight(t) {
      RollableIff(expr);
    } else if ParseCompoundDiceExpr(expr).Ok? {
      SplitOfStripped(t);
      CompactIsTight(StripSpaces(Before(t)));
      assert Before(t) != "";
      NoSignBefore(t);
      ParsesByAccepting(expr, ParseCompoundDiceExpr(expr).value);
      AcceptedIsTight(t, ParseCompoundDiceExpr(expr).value);
    }
  }

  lemma StripMiddle(a: string, b: string)
    requires NoSpace(a) && NoSpace(b)
    ensures StripSpaces(a + " " + b) == a + b
  {
    StripJoin(a + " ", b);
    StripJoin(a, " ");
    StripOfNoSpace(a);
    StripOfNoSpace(b);
    assert " "[1..] == "" && StripSpaces("") == "" && a + "" == a;
  }

  lemma OneDie()
    ensures MatchCompactDie("1d6") == Some(DieMatch("1", "6", ""))
    ensures DieFits(DieMatch("1", "6", ""))
  {
    assert "1d6" == "1" + "d6" && AllDigits("1");
    DigitRunOf("1", "d6");
    assert "1d6"[..1] == "1" && "1d6"[2..] == "6";
    assert "1"[..0] == "" && "6"[..0] == "" && ParseDecimal("") == 0;
    assert ParseDecimal("1") == 1 && ParseDecimal("6") == 6;
  }

  /** `1 d6` is rollable, and the parser refuses it. */
  lemma RollableGap()
    ensures IsRollableDamageExpression("1 d6") && !ParseCompoundDiceExpr("1 d6").Ok?
  {
    var e := "1 d6";
    TrimOfNoSpace(e);
    SplitUnsigned(e);
    StripMiddle("1", "d6");
    assert "1" + " " + "d6" == e && "1" + "d6" == "1d6";
    SplitUnsigned("1d6");
    OneDie();
    RollableIsAcceptedIff(e);
    assert IsSpace(e[1]);
  }
}
