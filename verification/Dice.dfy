/** Dice expressions and the roller (apps/server/src/common/dice.ts; packages/schema/src/dice-bounds.ts). */
module Dice {
  import opened Text
  import opened Sequences

  const DICE_ALLOWED_SIDES: set<nat> := {2, 4, 6, 8, 10, 12, 20, 100}
  const DICE_MAX_COUNT: nat := 20
  const DICE_MAX_MODIFIER_ABS: nat := 999

  datatype KeepMode = KH | KL | DH | DL

  datatype KeepSpec = KeepSpec(mode: KeepMode, n: nat)

  datatype Sign = Plus | Minus

  datatype DiceTerm =
    | Die(count: nat, sides: nat, keep: Option<KeepSpec>, sign: Sign)
    | Modifier(value: int)

  datatype DiceError = BadExpression | BadCount | BadSides | BadKeep | BadDrop | BadModifier | EmptyExpression

  // ------------------------------------------------------------------- patterns

  /** `DIE_TERM_PATTERN`'s groups: count, sides and keep clause. */
  datatype DieMatch = DieMatch(count: string, sides: string, keep: string)

  predicate IsD(c: char) { c == 'd' || c == 'D' }

  predicate IsL(c: char) { c == 'l' || c == 'L' }

  predicate IsH(c: char) { c == 'h' || c == 'H' }

  predicate IsK(c: char) { c == 'k' || c == 'K' }

  /** `kh`, `kl`, `dh` or `dl` in any case. */
  function ModeOf(s: string): Option<KeepMode> {
    if |s| < 2 then None
    else if IsK(s[0]) && IsH(s[1]) then Some(KH)
    else if IsK(s[0]) && IsL(s[1]) then Some(KL)
    else if IsD(s[0]) && IsH(s[1]) then Some(DH)
    else if IsD(s[0]) && IsL(s[1]) then Some(DL)
    else None
  }

  /** One to `max` digits and nothing else. */
  predicate DigitsUpTo(s: string, max: nat) { 1 <= |s| <= max && AllDigits(s) }

  /** A keep clause: a mode, white space, and one or two digits. */
  predicate IsKeepClause(s: string) {
    ModeOf(s).Some? && DigitsUpTo(TrimStart(s[2..]), 2)
  }

  function MatchDieTerm(body: string): Option<DieMatch> {
    var n := DigitRun(body);
    if n > 2 || n == |body| || !IsD(body[n]) then None else MatchSides(body[..n], body[n + 1..])
  }

  /** The part of a die term after its `d`. */
  function MatchSides(count: string, rest: string): Option<DieMatch> {
    var n := DigitRun(rest);
    var clause := TrimStart(rest[n..]);
    if 1 <= n <= 3 && (clause == "" || IsKeepClause(clause)) then Some(DieMatch(count, rest[..n], clause)) else None
  }

  lemma DieMatchParts(body: string)
    requires MatchDieTerm(body).Some?
    ensures IsDieMatch(MatchDieTerm(body).value)
  {}

  // ---------------------------------------------------------------- tokenizing

  predicate IsSign(c: char) { c == '+' || c == '-' }

  /** One signed fragment of an expression. */
  datatype Fragment = Fragment(sign: Sign, body: string)

  function AsSign(c: char): Sign { if c == '-' then Minus else Plus }

  function Signed(expr: string): string {
    var trimmed := Trim(expr);
    if trimmed != "" && IsSign(trimmed[0]) then trimmed else "+" + trimmed
  }

  /** The first sign at or after `i`, or the end. */
  function NextSign(s: string, i: nat): (n: nat)
    requires i <= |s|
    ensures i <= n <= |s| && (n < |s| ==> IsSign(s[n]))
    decreases |s| - i
  {
    if i == |s| || IsSign(s[i]) then i else NextSign(s, i + 1)
  }

  lemma {:induction false} NextSignSkips(s: string, i: nat, k: nat)
    requires i <= |s| && i <= k < NextSign(s, i)
    ensures !IsSign(s[k])
    decreases |s| - i
  {
    if i < k { NextSignSkips(s, i + 1, k); }
  }

  function FragmentOf(sign: char, body: string): seq<Fragment> {
    if Trim(body) == "" then [] else [Fragment(AsSign(sign), Trim(body))]
  }

  /** Split a text that starts with a sign at each of its signs, leaving out empty bodies. */
  function Fragments(signed: string): seq<Fragment>
    decreases |signed|
  {
    if signed == "" then []
    else
      var n := NextSign(signed, 1);
      FragmentOf(signed[0], signed[1..n]) + Fragments(signed[n..])
  }

  /** The fragment from one sign to the next, and those that follow. */
  lemma NextFragment(signed: string, start: nat, end: nat)
    requires start < end <= |signed| && (end < |signed| ==> IsSign(signed[end]))
    requires Unsigned(signed, start, end)
    ensures Fragments(signed[start..]) == FragmentOf(signed[start], signed[start + 1..end]) + Fragments(signed[end..])
  {
    var rest := signed[start..];
    NextSignOf(rest, 1, end - start);
    assert rest[1..end - start] == signed[start + 1..end] && rest[end - start..] == signed[end..];
  }

  /** The fragments before position `start` have been pushed. */
  ghost predicate Walked(out: seq<Fragment>, signed: string, start: nat)
    requires start <= |signed|
  {
    out + Fragments(signed[start..]) == Fragments(signed)
  }

  lemma Advance(out: seq<Fragment>, signed: string, start: nat, end: nat)
    requires start < end <= |signed| && (end < |signed| ==> IsSign(signed[end]))
    requires Unsigned(signed, start, end) && Walked(out, signed, start)
    ensures Walked(out + FragmentOf(signed[start], signed[start + 1..end]), signed, end)
  {
    NextFragment(signed, start, end);
    Assoc(out, FragmentOf(signed[start], signed[start + 1..end]), Fragments(signed[end..]));
  }

  lemma WalkStarts(signed: string)
    ensures Walked([], signed, 0)
  {
    assert signed[0..] == signed && [] + Fragments(signed) == Fragments(signed);
  }

  lemma WalkEnds(out: seq<Fragment>, signed: string)
    requires Walked(out, signed, |signed|)
    ensures out == Fragments(signed)
  {
    assert signed[|signed|..] == "" && Fragments("") == [] && out + [] == out;
  }

  /** The walk that the parser and the source-text renderer share. */
  method WalkSignedTerms(expr: string) returns (out: seq<Fragment>)
    ensures out == Fragments(Signed(expr))
  {
    out := WalkSigned(Signed(expr));
  }

  method WalkSigned(signed: string) returns (out: seq<Fragment>)
    requires signed != ""
    ensures out == Fragments(signed)
  {
    WalkStarts(signed);
    out := [];
    var signAt := 0;
    var i := 1;
    while i < |signed|
      invariant signAt < i <= |signed|
      invariant Unsigned(signed, signAt, i)
      invariant Walked(out, signed, signAt)
    {
      if IsSign(signed[i]) {
        out := PushBetween(out, signed, signAt, i);
        signAt := i;
      }
      UnsignedMore(signed, signAt, i);
      i := i + 1;
    }
    out := PushBetween(out, signed, signAt, |signed|);
    WalkEnds(out, signed);
  }

  /** No sign strictly between two positions. */
  ghost predicate Unsigned(signed: string, start: nat, end: nat)
    requires end <= |signed|
  {
    forall k :: start < k < end ==> !IsSign(signed[k])
  }

  lemma UnsignedMore(signed: string, start: nat, i: nat)
    requires i < |signed| && (start == i || (Unsigned(signed, start, i) && !IsSign(signed[i])))
    ensures Unsigned(signed, start, i + 1)
  {}

  method PushBetween(out: seq<Fragment>, signed: string, start: nat, end: nat) returns (r: seq<Fragment>)
    requires start < end <= |signed| && (end < |signed| ==> IsSign(signed[end]))
    requires Unsigned(signed, start, end) && Walked(out, signed, start)
    ensures Walked(r, signed, end)
  {
    r := PushFragment(out, signed[start], signed[start + 1..end]);
    Advance(out, signed, start, end);
  }

  method PushFragment(out: seq<Fragment>, sign: char, text: string) returns (r: seq<Fragment>)
    ensures r == out + FragmentOf(sign, text)
  {
    r := out;
    var body := Trim(text);
    if body != "" { r := r + [Fragment(AsSign(sign), body)]; }
  }

  lemma {:induction false} NextSignOf(s: string, i: nat, n: nat)
    requires i <= n <= |s| && (n < |s| ==> IsSign(s[n])) && forall k :: i <= k < n ==> !IsSign(s[k])
    ensures NextSign(s, i) == n
    decreases n - i
  {
    if i < n { NextSignOf(s, i + 1, n); }
  }

  // ------------------------------------------------------------------- parsing

  predicate IsTermBody(body: string) { MatchDieTerm(body).Some? || DigitsUpTo(body, 3) }

  /** The signs of an expression have a term each, and an unsigned first term is a die. */
  predicate MatchesDiceExprPattern(expr: string) {
    var trimmed := Trim(expr);
    && EverySignHasTerm(Signed(expr))
    && trimmed != ""
    && (!IsSign(trimmed[0]) ==> MatchDieTerm(Trim(trimmed[..NextSign(trimmed, 0)])).Some?)
  }

  predicate EverySignHasTerm(signed: string)
    decreases |signed|
  {
    signed == "" ||
      (var n := NextSign(signed, 1);
       IsTermBody(Trim(signed[1..n])) && EverySignHasTerm(signed[n..]))
  }

  function ParseKeepClause(raw: string, count: nat): Result<KeepSpec, DiceError>
    requires IsKeepClause(raw)
  {
    var mode := ModeOf(raw).value;
    var n := ParseDecimal(TrimStart(raw[2..]));
    if mode == KH || mode == KL then
      if n < 1 || n > count then Err(BadKeep) else Ok(KeepSpec(mode, n))
    else
      if n < 1 || n >= count then Err(BadDrop) else Ok(KeepSpec(mode, n))
  }

  function ParseOneTerm(f: Fragment): Result<DiceTerm, DiceError>
    requires IsTermBody(f.body)
  {
    var die := MatchDieTerm(f.body);
    if die.Some? then
      DieMatchParts(f.body);
      ParseDie(die.value, f.sign)
    else
      var value: int := ParseDecimal(f.body);
      if value > DICE_MAX_MODIFIER_ABS then Err(BadModifier)
      else Ok(Modifier(if f.sign == Minus then -1 * value else value))
  }

  predicate IsDieMatch(m: DieMatch) {
    |m.count| <= 2 && AllDigits(m.count) && DigitsUpTo(m.sides, 3) && (m.keep == "" || IsKeepClause(m.keep))
  }

  function ParseDie(m: DieMatch, sign: Sign): Result<DiceTerm, DiceError>
    requires IsDieMatch(m)
  {
    var count := if m.count == "" then 1 else ParseDecimal(m.count);
    var sides := ParseDecimal(m.sides);
    if count < 1 || count > DICE_MAX_COUNT then Err(BadCount)
    else if sides !in DICE_ALLOWED_SIDES then Err(BadSides)
    else if m.keep == "" then Ok(Die(count, sides, None, sign))
    else
      match ParseKeepClause(m.keep, count)
      case Err(e) => Err(e)
      case Ok(keep) => Ok(Die(count, sides, Some(keep), sign))
  }

  predicate TermBodies(fs: seq<Fragment>) { forall i :: 0 <= i < |fs| ==> IsTermBody(fs[i].body) }

  /** The first term and the rest, or the first error. */
  function Prepend(first: Result<DiceTerm, DiceError>, rest: Result<seq<DiceTerm>, DiceError>): Result<seq<DiceTerm>, DiceError> {
    match first
    case Err(e) => Err(e)
    case Ok(t) =>
      match rest
      case Err(e) => Err(e)
      case Ok(ts) => Ok([t] + ts)
  }

  function ParseTerms(fs: seq<Fragment>): Result<seq<DiceTerm>, DiceError>
    requires TermBodies(fs)
  {
    if fs == [] then Ok([]) else Prepend(ParseOneTerm(fs[0]), ParseTerms(fs[1..]))
  }

  /** A fragment, or a list of fragments, parses without error. */
  predicate ReadsAs(f: Fragment, t: DiceTerm) { IsTermBody(f.body) && ParseOneTerm(f) == Ok(t) }

  predicate AllReadAs(fs: seq<Fragment>, ts: seq<DiceTerm>) { TermBodies(fs) && ParseTerms(fs) == Ok(ts) }

  lemma ParseStep(f: Fragment, t: DiceTerm, fs: seq<Fragment>, ts: seq<DiceTerm>)
    requires ReadsAs(f, t) && AllReadAs(fs, ts)
    ensures AllReadAs([f] + fs, [t] + ts)
  {
    assert ([f] + fs)[1..] == fs;
  }

  /** Every expression that matches the pattern tokenizes into term bodies, at least one. */
  lemma PatternGivesTerms(expr: string)
    requires MatchesDiceExprPattern(expr)
    ensures TermBodies(Fragments(Signed(expr))) && Fragments(Signed(expr)) != []
  {
    SignsGiveTerms(Signed(expr));
  }

  lemma {:induction false} SignsGiveTerms(signed: string)
    requires EverySignHasTerm(signed)
    ensures TermBodies(Fragments(signed)) && (signed != "" ==> Fragments(signed) != [])
    decreases |signed|
  {
    if signed != "" {
      var n := NextSign(signed, 1);
      SignsGiveTerms(signed[n..]);
      EmptyIsNoTerm();
      JoinTermBodies(FragmentOf(signed[0], signed[1..n]), Fragments(signed[n..]));
    }
  }

  lemma EmptyIsNoTerm()
    ensures !IsTermBody("")
  {}

  lemma JoinTermBodies(a: seq<Fragment>, b: seq<Fragment>)
    requires TermBodies(a) && TermBodies(b)
    ensures TermBodies(a + b)
  {}

  function ParseCompoundDiceExpr(expr: string): Result<seq<DiceTerm>, DiceError> {
    if !MatchesDiceExprPattern(expr) then Err(BadExpression)
    else
      PatternGivesTerms(expr);
      ParseTerms(Fragments(Signed(expr)))
  }

  function StripSpaces(s: string): string {
    if s == "" then "" else if IsSpace(s[0]) then StripSpaces(s[1..]) else [s[0]] + StripSpaces(s[1..])
  }

  lemma {:induction false} StripOfNoSpace(s: string)
    requires NoSpace(s)
    ensures StripSpaces(s) == s
  {
    if s != "" {
      StripOfNoSpace(s[1..]);
      assert s == [s[0]] + s[1..];
    }
  }

  function SignText(sign: Sign): string { if sign == Minus then "-" else "+" }

  /** A die body as written, signed only when subtracted; a modifier with its sign. */
  function TermText(f: Fragment): string {
    if MatchDieTerm(f.body).Some? then (if f.sign == Minus then "-" else "") + StripSpaces(f.body)
    else SignText(f.sign) + StripSpaces(f.body)
  }

  function TermTexts(fs: seq<Fragment>): seq<string> {
    if fs == [] then [] else [TermText(fs[0])] + TermTexts(fs[1..])
  }

  function TermSourceTexts(expr: string): seq<string> { TermTexts(Fragments(Signed(expr))) }
}
