/** Printing a term list and parsing it, and what every accepted expression parses to. */
module DiceText {
  import opened Text
  import opened Sequences
  import opened Dice

  // ------------------------------------------------------------------ printing

  function ModeText(mode: KeepMode): string {
    match mode
    case KH => "kh"
    case KL => "kl"
    case DH => "dh"
    case DL => "dl"
  }

  function KeepText(keep: Option<KeepSpec>): string {
    if keep == None then "" else ModeText(keep.value.mode) + Decimal(keep.value.n)
  }

  function Magnitude(value: int): nat { if value < 0 then -value else value }

  function SignOf(t: DiceTerm): Sign {
    match t
    case Die(_, _, _, sign) => sign
    case Modifier(value) => if value < 0 then Minus else Plus
  }

  /** A term without its sign. */
  function BodyText(t: DiceTerm): string {
    match t
    case Die(count, sides, keep, _) => Decimal(count) + "d" + Decimal(sides) + KeepText(keep)
    case Modifier(value) => Decimal(Magnitude(value))
  }

  function Written(t: DiceTerm): Fragment { Fragment(SignOf(t), BodyText(t)) }

  function SignedText(ts: seq<DiceTerm>): string {
    if ts == [] then "" else SignText(SignOf(ts[0])) + BodyText(ts[0]) + SignedText(ts[1..])
  }

  /** The expression for a term list: every sign written but the `+` of a leading die. */
  function Print(ts: seq<DiceTerm>): string {
    if ts != [] && ts[0].Die? && ts[0].sign == Plus then SignedText(ts)[1..] else SignedText(ts)
  }

  /** The text the breakdown shows for a term: the sign of an added die is left out. */
  function Label(t: DiceTerm): string {
    if t.Die? && t.sign == Plus then BodyText(t) else SignText(SignOf(t)) + BodyText(t)
  }

  function Labels(ts: seq<DiceTerm>): seq<string> {
    if ts == [] then [] else [Label(ts[0])] + Labels(ts[1..])
  }

  function Bodies(ts: seq<DiceTerm>): seq<Fragment> {
    if ts == [] then [] else [Written(ts[0])] + Bodies(ts[1..])
  }

  // -------------------------------------------------------------------- bounds

  /** A keep clause that leaves a die and asks for no more dice than there are. */
  predicate KeepFits(keep: Option<KeepSpec>, count: nat) {
    keep.Some? ==>
      1 <= keep.value.n && (if keep.value.mode in {KH, KL} then keep.value.n <= count else keep.value.n < count)
  }

  predicate InBounds(t: DiceTerm) {
    match t
    case Die(count, sides, keep, _) =>
      1 <= count <= DICE_MAX_COUNT && sides in DICE_ALLOWED_SIDES && KeepFits(keep, count)
    case Modifier(value) => Magnitude(value) <= DICE_MAX_MODIFIER_ABS
  }

  predicate AllInBounds(ts: seq<DiceTerm>) { forall i :: 0 <= i < |ts| ==> InBounds(ts[i]) }

  // ------------------------------------------------------------------ one term

  /** A clause that opens with neither a digit nor white space. */
  predicate Clause(s: string) { s == "" || (IsKeepClause(s) && !IsDigit(s[0]) && !IsSpace(s[0])) }

  lemma SidesOfParts(count: string, sides: string, clause: string)
    requires DigitsUpTo(sides, 3) && Clause(clause)
    ensures MatchSides(count, sides + clause) == Some(DieMatch(count, sides, clause))
  {
    DigitRunOf(sides, clause);
    assert (sides + clause)[..|sides|] == sides && (sides + clause)[|sides|..] == clause;
  }

  lemma MatchOfParts(count: string, rest: string)
    requires AllDigits(count) && |count| <= 2
    ensures MatchDieTerm(count + "d" + rest) == MatchSides(count, rest)
  {
    var body := count + "d" + rest;
    DigitRunOf(count, "d" + rest);
    assert body == count + ("d" + rest) && body[..|count|] == count && body[|count| + 1..] == rest;
  }

  lemma KeepTextIsClause(keep: Option<KeepSpec>)
    requires keep.Some? ==> keep.value.n < 100
    ensures Clause(KeepText(keep))
    ensures keep.Some? ==> ModeOf(KeepText(keep)) == Some(keep.value.mode)
    ensures keep.Some? ==> TrimStart(KeepText(keep)[2..]) == Decimal(keep.value.n)
  {
    if keep.Some? {
      var digits := Decimal(keep.value.n);
      DecimalLength(keep.value.n, 2);
      assert KeepText(keep)[2..] == digits;
      DigitIsNoSpace(digits[0]);
    }
  }

  lemma DigitIsNoSpace(c: char)
    requires IsDigit(c)
    ensures !IsSpace(c) && !IsSign(c) && !IsD(c)
  {}

  lemma ParseOfKeepText(keep: KeepSpec, count: nat)
    requires KeepFits(Some(keep), count) && count < 100
    ensures IsKeepClause(KeepText(Some(keep))) && ParseKeepClause(KeepText(Some(keep)), count) == Ok(keep)
  {
    KeepTextIsClause(Some(keep));
    ParseOfDecimal(keep.n);
  }

  lemma SidesAreSmall(sides: nat)
    requires sides in DICE_ALLOWED_SIDES
    ensures sides < 1000
  {}

  function MatchOf(t: DiceTerm): DieMatch
    requires t.Die?
  {
    DieMatch(Decimal(t.count), Decimal(t.sides), KeepText(t.keep))
  }

  lemma DieReads(t: DiceTerm)
    requires t.Die? && InBounds(t)
    ensures MatchDieTerm(BodyText(t)) == Some(MatchOf(t))
  {
    DecimalLength(t.count, 2);
    SidesAreSmall(t.sides);
    DecimalLength(t.sides, 3);
    KeepTextIsClause(t.keep);
    SidesOfParts(Decimal(t.count), Decimal(t.sides), KeepText(t.keep));
    MatchOfParts(Decimal(t.count), Decimal(t.sides) + KeepText(t.keep));
    Assoc(Decimal(t.count) + "d", Decimal(t.sides), KeepText(t.keep));
  }

  lemma DieOfMatch(t: DiceTerm)
    requires t.Die? && InBounds(t) && IsDieMatch(MatchOf(t))
    ensures ParseDie(MatchOf(t), t.sign) == Ok(t)
  {
    ParseOfDecimal(t.count);
    ParseOfDecimal(t.sides);
    if t.keep.Some? { ParseOfKeepText(t.keep.value, t.count); }
  }

  lemma OneTermOfDie(f: Fragment, m: DieMatch)
    requires MatchDieTerm(f.body) == Some(m)
    ensures IsTermBody(f.body) && IsDieMatch(m) && ParseOneTerm(f) == ParseDie(m, f.sign)
  {
    DieMatchParts(f.body);
  }

  lemma DigitsAreNoDie(s: string)
    requires AllDigits(s)
    ensures MatchDieTerm(s) == None
  {
    DigitRunOf(s, "");
    assert s + "" == s;
  }

  lemma DieParses(t: DiceTerm)
    requires t.Die? && InBounds(t)
    ensures IsTermBody(BodyText(t))
    ensures ParseOneTerm(Written(t)) == Ok(t)
  {
    DieReads(t);
    OneTermOfDie(Written(t), MatchOf(t));
    DieOfMatch(t);
  }

  lemma ModifierParses(value: int)
    requires InBounds(Modifier(value))
    ensures IsTermBody(Decimal(Magnitude(value)))
    ensures ParseOneTerm(Written(Modifier(value))) == Ok(Modifier(value))
  {
    DecimalLength(Magnitude(value), 3);
    DigitsAreNoDie(Decimal(Magnitude(value)));
    ParseOfDecimal(Magnitude(value));
  }

  /** A printed term reads back as itself. */
  lemma TermReadsBack(t: DiceTerm)
    requires InBounds(t)
    ensures ReadsAs(Written(t), t)
  {
    match t
    case Die(_, _, _, _) => DieParses(t);
    case Modifier(value) => ModifierParses(value);
  }

  // ------------------------------------------------------------------ tokenizing

  /** No white space and no sign. */
  predicate Plain(s: string) { forall i :: 0 <= i < |s| ==> !IsSpace(s[i]) && !IsSign(s[i]) }

  lemma DigitsArePlain(s: string)
    requires AllDigits(s)
    ensures Plain(s)
  {
    forall i | 0 <= i < |s| ensures !IsSpace(s[i]) && !IsSign(s[i]) { DigitIsNoSpace(s[i]); }
  }

  lemma PlainJoin(a: string, b: string)
    requires Plain(a) && Plain(b)
    ensures Plain(a + b)
  {}

  lemma BodyIsPlain(t: DiceTerm)
    ensures Plain(BodyText(t)) && BodyText(t) != ""
  {
    match t
    case Die(count, sides, keep, _) =>
      DigitsArePlain(Decimal(count));
      DigitsArePlain(Decimal(sides));
      PlainJoin(Decimal(count), "d");
      PlainJoin(Decimal(count) + "d", Decimal(sides));
      if keep.Some? {
        DigitsArePlain(Decimal(keep.value.n));
        PlainJoin(ModeText(keep.value.mode), Decimal(keep.value.n));
      }
      PlainJoin(Decimal(count) + "d" + Decimal(sides), KeepText(keep));
    case Modifier(value) => DigitsArePlain(Decimal(Magnitude(value)));
  }

  lemma PlainTrim(s: string)
    requires Plain(s)
    ensures Trim(s) == s
  {}

  lemma SignedTextStart(ts: seq<DiceTerm>)
    ensures ts == [] ==> SignedText(ts) == ""
    ensures ts != [] ==> SignedText(ts) != "" && IsSign(SignedText(ts)[0])
  {}

  /** The next sign after a plain body is where the body ends. */
  lemma NextSignAfter(sign: Sign, body: string, rest: string)
    requires Plain(body) && (rest == "" || IsSign(rest[0]))
    ensures var s := SignText(sign) + body + rest;
      var n := 1 + |body|;
      NextSign(s, 1) == n && s[1..n] == body && s[n..] == rest && AsSign(s[0]) == sign
  {
    var s := SignText(sign) + body + rest;
    assert forall k :: 1 <= k < 1 + |body| ==> s[k] == body[k - 1];
    NextSignOf(s, 1, 1 + |body|);
  }

  lemma {:induction false} PrintedFragments(ts: seq<DiceTerm>)
    requires AllInBounds(ts)
    ensures Fragments(SignedText(ts)) == Bodies(ts) && EverySignHasTerm(SignedText(ts))
  {
    if ts != [] {
      PrintedFragments(ts[1..]);
      BodyIsPlain(ts[0]);
      PlainTrim(BodyText(ts[0]));
      TermReadsBack(ts[0]);
      SignedTextStart(ts[1..]);
      NextSignAfter(SignOf(ts[0]), BodyText(ts[0]), SignedText(ts[1..]));
    }
  }

  // ------------------------------------------------------------------ round trip

  lemma {:induction false} BodiesParse(ts: seq<DiceTerm>)
    requires AllInBounds(ts)
    ensures AllReadAs(Bodies(ts), ts)
  {
    if ts == [] {
      assert Bodies(ts) == [];
    } else {
      BodiesParse(ts[1..]);
      TermReadsBack(ts[0]);
      ParseStep(Written(ts[0]), ts[0], Bodies(ts[1..]), ts[1..]);
      assert ts == [ts[0]] + ts[1..] && Bodies(ts) == [Written(ts[0])] + Bodies(ts[1..]);
    }
  }

  lemma TextOfPlain(f: Fragment)
    requires StripSpaces(f.body) == f.body
    ensures TermText(f) == if MatchDieTerm(f.body).Some? && f.sign == Plus then f.body else SignText(f.sign) + f.body
  {
    assert "" + f.body == f.body;
  }

  lemma LabelOfBody(t: DiceTerm)
    requires InBounds(t)
    ensures TermText(Written(t)) == Label(t)
  {
    BodyIsPlain(t);
    StripOfNoSpace(BodyText(t));
    TextOfPlain(Written(t));
    match t
    case Die(_, _, _, _) => DieReads(t);
    case Modifier(value) => DigitsAreNoDie(Decimal(Magnitude(value)));
  }

  lemma {:induction false} LabelsOfBodies(ts: seq<DiceTerm>)
    requires AllInBounds(ts)
    ensures TermTexts(Bodies(ts)) == Labels(ts)
  {
    if ts != [] {
      LabelsOfBodies(ts[1..]);
      LabelOfBody(ts[0]);
      assert Bodies(ts)[1..] == Bodies(ts[1..]);
    }
  }

  lemma {:induction false} SignedTextHasNoSpace(ts: seq<DiceTerm>)
    ensures NoSpace(SignedText(ts))
  {
    if ts != [] {
      SignedTextHasNoSpace(ts[1..]);
      BodyIsPlain(ts[0]);
    }
  }

  /** Up to its first sign, a text that opens without one is `body`. */
  predicate OpensWith(p: string, body: string) {
    p != "" && (IsSign(p[0]) || p[..NextSign(p, 0)] == body)
  }

  lemma OpenBody(body: string, rest: string)
    requires Plain(body) && body != "" && (rest == "" || IsSign(rest[0]))
    ensures OpensWith(body + rest, body) && !IsSign((body + rest)[0])
  {
    NextSignOf(body + rest, 0, |body|);
  }

  lemma SignedOfTight(p: string)
    requires p != "" && NoSpace(p)
    ensures Trim(p) == p && Signed(p) == if IsSign(p[0]) then p else "+" + p
  {
    TrimOfNoSpace(p);
  }

  /** A list that prints without its first sign. */
  predicate LeadsUnsigned(ts: seq<DiceTerm>) { ts != [] && ts[0].Die? && ts[0].sign == Plus }

  lemma DropPlus(a: string, b: string)
    ensures ("+" + a + b)[1..] == a + b && "+" + (a + b) == "+" + a + b
  {}

  lemma PrintUnsigned(ts: seq<DiceTerm>)
    requires LeadsUnsigned(ts)
    ensures Print(ts) == BodyText(ts[0]) + SignedText(ts[1..]) && SignedText(ts) == "+" + Print(ts)
  {
    DropPlus(BodyText(ts[0]), SignedText(ts[1..]));
  }

  lemma SignedOfPrint(ts: seq<DiceTerm>)
    requires ts != []
    ensures Trim(Print(ts)) == Print(ts) && Signed(Print(ts)) == SignedText(ts) && OpensWith(Print(ts), BodyText(ts[0]))
    ensures !LeadsUnsigned(ts) ==> IsSign(Print(ts)[0])
  {
    SignedTextHasNoSpace(ts);
    SignedTextStart(ts);
    if LeadsUnsigned(ts) {
      PrintUnsigned(ts);
      BodyIsPlain(ts[0]);
      SignedTextStart(ts[1..]);
      OpenBody(BodyText(ts[0]), SignedText(ts[1..]));
    }
    SignedOfTight(Print(ts));
  }

  /** Printing any list of terms within bounds and parsing it returns the list, labels aligned. */
  lemma ParseOfPrint(ts: seq<DiceTerm>)
    requires ts != [] && AllInBounds(ts)
    ensures ParseCompoundDiceExpr(Print(ts)) == Ok(ts)
    ensures TermSourceTexts(Print(ts)) == Labels(ts)
  {
    SignedOfPrint(ts);
    PrintedFragments(ts);
    BodiesParse(ts);
    LabelsOfBodies(ts);
    if LeadsUnsigned(ts) {
      DieReads(ts[0]);
      BodyIsPlain(ts[0]);
      PlainTrim(BodyText(ts[0]));
    }
  }

  // ---------------------------------------------------- what parsing may return

  lemma ParsedKeepFits(raw: string, count: nat)
    requires IsKeepClause(raw) && ParseKeepClause(raw, count).Ok?
    ensures KeepFits(Some(ParseKeepClause(raw, count).value), count)
  {}

  lemma ParsedDieInBounds(m: DieMatch, sign: Sign)
    requires IsDieMatch(m) && ParseDie(m, sign).Ok?
    ensures InBounds(ParseDie(m, sign).value)
  {
    var count := if m.count == "" then 1 else ParseDecimal(m.count);
    if m.keep != "" { ParsedKeepFits(m.keep, count); }
  }

  lemma ParsedTermInBounds(f: Fragment)
    requires IsTermBody(f.body) && ParseOneTerm(f).Ok?
    ensures InBounds(ParseOneTerm(f).value)
  {
    if MatchDieTerm(f.body).Some? {
      DieMatchParts(f.body);
      ParsedDieInBounds(MatchDieTerm(f.body).value, f.sign);
    }
  }

  lemma {:induction false} ParsedTermsInBounds(fs: seq<Fragment>)
    requires TermBodies(fs) && ParseTerms(fs).Ok?
    ensures AllInBounds(ParseTerms(fs).value) && |ParseTerms(fs).value| == |fs| == |TermTexts(fs)|
  {
    if fs != [] {
      ParsedTermInBounds(fs[0]);
      ParsedTermsInBounds(fs[1..]);
    }
  }

  /** What an accepted expression parses to: at least one term, all within bounds, a source text for each. */
  lemma ParsedInBounds(expr: string)
    requires ParseCompoundDiceExpr(expr).Ok?
    ensures var ts := ParseCompoundDiceExpr(expr).value;
      ts != [] && AllInBounds(ts) && |TermSourceTexts(expr)| == |ts| && ParseCompoundDiceExpr(Print(ts)) == Ok(ts)
  {
    PatternGivesTerms(expr);
    ParsedTermsInBounds(Fragments(Signed(expr)));
    ParseOfPrint(ParseCompoundDiceExpr(expr).value);
  }
}
