/** Dice expressions however they are written, and the terms that each writing stands for. */
module DiceWriting {
  import opened Text
  import opened Sequences
  import opened Dice
  import opened DiceText
  import opened DiceBounds

  // ------------------------------------------------------------------ writings

  /** A keep clause as written: two letters of any case, white space, digits. */
  datatype KeepWriting = KeepWriting(letters: string, space: string, digits: string)

  datatype Body =
    | Rolled(count: string, d: char, sides: string, gap: string, keep: Option<KeepWriting>)
    | Number(digits: string)

  function Lower(c: char): char { if 'A' <= c <= 'Z' then (c as int + 32) as char else c }

  predicate LettersRead(letters: string) {
    |letters| == 2 && Lower(letters[0]) in {'k', 'd'} && Lower(letters[1]) in {'h', 'l'}
  }

  predicate KeepWritten(k: KeepWriting) {
    LettersRead(k.letters) && Blank(k.space) && 1 <= |k.digits| <= 2 && AllDigits(k.digits)
  }

  /** At most two digits, `d`, one to three digits and perhaps a clause; or one to three digits. */
  predicate WellWritten(b: Body) {
    match b
    case Rolled(count, d, sides, gap, keep) =>
      && |count| <= 2 && AllDigits(count) && Lower(d) == 'd' && 1 <= |sides| <= 3 && AllDigits(sides) && Blank(gap)
      && if keep.Some? then KeepWritten(keep.value) else gap == ""
    case Number(digits) => 1 <= |digits| <= 3 && AllDigits(digits)
  }

  function ClauseText(keep: Option<KeepWriting>, spaced: bool): string {
    if keep == None then ""
    else keep.value.letters + (if spaced then keep.value.space else "") + keep.value.digits
  }

  function GapText(gap: string, spaced: bool): string { if spaced then gap else "" }

  /** A body with or without its white space. */
  function TextOf(b: Body, spaced: bool): string {
    match b
    case Rolled(count, d, sides, gap, keep) => count + [d] + (sides + (GapText(gap, spaced) + ClauseText(keep, spaced)))
    case Number(digits) => digits
  }

  // ------------------------------------------------------------------ what a body means

  function CountOf(b: Body): nat
    requires b.Rolled? && WellWritten(b)
  {
    if b.count == "" then 1 else ParseDecimal(b.count)
  }

  /** The mode that two letters name. */
  predicate ModeIs(letters: string, mode: KeepMode) {
    && LettersRead(letters)
    && (mode in {KH, KL} <==> Lower(letters[0]) == 'k')
    && (mode in {KH, DH} <==> Lower(letters[1]) == 'h')
  }

  /** A die clause leaves at least one die: it keeps 1 up to all of them or drops 1 up to all but one. */
  predicate ClauseFits(k: KeepWriting, count: nat)
    requires KeepWritten(k)
  {
    var n := ParseDecimal(k.digits);
    1 <= n && if Lower(k.letters[0]) == 'k' then n <= count else n < count
  }

  predicate CountFits(b: Body)
    requires b.Rolled? && WellWritten(b)
  {
    1 <= CountOf(b) <= 20
  }

  predicate SidesFit(b: Body)
    requires b.Rolled? && WellWritten(b)
  {
    ParseDecimal(b.sides) in {2, 4, 6, 8, 10, 12, 20, 100}
  }

  /** The first bound that a die breaks, in the order count, sides, clause. */
  predicate FailsWith(b: Body, e: DiceError)
    requires b.Rolled? && WellWritten(b)
  {
    if !CountFits(b) then e == BadCount
    else if !SidesFit(b) then e == BadSides
    else b.keep.Some? && !ClauseFits(b.keep.value, CountOf(b))
         && e == if Lower(b.keep.value.letters[0]) == 'k' then BadKeep else BadDrop
  }

  predicate KeepMeans(k: Option<KeepWriting>, keep: Option<KeepSpec>)
    requires k.Some? ==> KeepWritten(k.value)
  {
    && (k.None? <==> keep.None?)
    && (k.Some? ==> ModeIs(k.value.letters, keep.value.mode) && keep.value.n == ParseDecimal(k.value.digits))
  }

  predicate DieMeans(b: Body, sign: Sign, r: Result<DiceTerm, DiceError>)
    requires b.Rolled? && WellWritten(b)
  {
    if r.Err? then FailsWith(b, r.error)
    else
      && CountFits(b) && SidesFit(b) && (b.keep.Some? ==> ClauseFits(b.keep.value, CountOf(b)))
      && r.value.Die? && r.value.count == CountOf(b) && r.value.sides == ParseDecimal(b.sides) && r.value.sign == sign
      && KeepMeans(b.keep, r.value.keep)
  }

  predicate Means(b: Body, sign: Sign, r: Result<DiceTerm, DiceError>)
    requires WellWritten(b)
  {
    match b
    case Rolled(_, _, _, _, _) => DieMeans(b, sign, r)
    case Number(digits) =>
      var value: int := ParseDecimal(digits);
      r == Ok(Modifier(if sign == Minus then -value else value))
  }

  // ------------------------------------------------------------------ a body reads

  lemma LettersMode(letters: string, rest: string)
    requires LettersRead(letters)
    ensures var m := ModeOf(letters + rest);
      m.Some? && ModeIs(letters, m.value) && (letters + rest)[2..] == rest && !IsSpace(letters[0]) && !IsDigit(letters[0])
  {
    assert (letters + rest)[2..] == rest;
  }

  lemma ClauseReads(k: KeepWriting)
    requires KeepWritten(k)
    ensures var s := ClauseText(Some(k), true);
      && s != "" && IsKeepClause(s) && !IsSpace(s[0]) && !IsDigit(s[0])
      && ModeIs(k.letters, ModeOf(s).value) && TrimStart(s[2..]) == k.digits
  {
    var s := ClauseText(Some(k), true);
    assert s == k.letters + (k.space + k.digits);
    LettersMode(k.letters, k.space + k.digits);
    DigitIsNoSpace(k.digits[0]);
    TrimStartBlank(k.space, k.digits);
  }

  lemma RestReads(count: string, sides: string, gap: string, clause: string)
    requires DigitsUpTo(sides, 3) && Blank(gap)
    requires clause == "" || (IsKeepClause(clause) && !IsSpace(clause[0]) && !IsDigit(clause[0]))
    ensures MatchSides(count, sides + (gap + clause)) == Some(DieMatch(count, sides, clause))
  {
    if gap != "" { assert (gap + clause)[0] == gap[0] && !IsDigit(gap[0]); } else { assert gap + clause == clause; }
    DigitRunOf(sides, gap + clause);
    TrimStartBlank(gap, clause);
    assert (sides + (gap + clause))[..|sides|] == sides && (sides + (gap + clause))[|sides|..] == gap + clause;
  }

  lemma CountReads(count: string, d: char, rest: string)
    requires AllDigits(count) && |count| <= 2 && Lower(d) == 'd'
    ensures MatchDieTerm(count + [d] + rest) == MatchSides(count, rest)
  {
    var body := count + [d] + rest;
    assert body == count + ([d] + rest);
    DigitRunOf(count, [d] + rest);
    assert body[..|count|] == count && body[|count| + 1..] == rest && body[|count|] == d;
  }

  lemma RolledReads(b: Body)
    requires b.Rolled? && WellWritten(b)
    ensures MatchDieTerm(TextOf(b, true)) == Some(DieMatch(b.count, b.sides, ClauseText(b.keep, true)))
  {
    if b.keep.Some? { ClauseReads(b.keep.value); }
    RestReads(b.count, b.sides, b.gap, ClauseText(b.keep, true));
    CountReads(b.count, b.d, b.sides + (b.gap + ClauseText(b.keep, true)));
  }

  lemma KeepReads(k: KeepWriting, count: nat)
    requires KeepWritten(k) && IsKeepClause(ClauseText(Some(k), true))
    ensures var r := ParseKeepClause(ClauseText(Some(k), true), count);
      && (r.Ok? <==> ClauseFits(k, count))
      && (r.Ok? ==> ModeIs(k.letters, r.value.mode) && r.value.n == ParseDecimal(k.digits))
      && (r.Err? ==> r.error == if Lower(k.letters[0]) == 'k' then BadKeep else BadDrop)
  {
    ClauseReads(k);
  }

  lemma DieReads(b: Body, sign: Sign, m: DieMatch)
    requires b.Rolled? && WellWritten(b) && m == DieMatch(b.count, b.sides, ClauseText(b.keep, true)) && IsDieMatch(m)
    ensures DieMeans(b, sign, ParseDie(m, sign))
  {
    if b.keep.Some? {
      ClauseReads(b.keep.value);
      KeepReads(b.keep.value, CountOf(b));
    }
  }

  /** A body reads as what it means, in any case and with any white space around its clause. */
  lemma BodyReads(b: Body, sign: Sign)
    requires WellWritten(b)
    ensures IsTermBody(TextOf(b, true)) && Means(b, sign, ParseOneTerm(Fragment(sign, TextOf(b, true))))
  {
    var f := Fragment(sign, TextOf(b, true));
    match b
    case Rolled(_, _, _, _, _) =>
      RolledReads(b);
      OneTermOfDie(f, DieMatch(b.count, b.sides, ClauseText(b.keep, true)));
      DieReads(b, sign, DieMatch(b.count, b.sides, ClauseText(b.keep, true)));
    case Number(digits) =>
      DigitsAreNoDie(digits);
      SmallNumber(digits);
  }

  lemma SmallNumber(digits: string)
    requires AllDigits(digits) && |digits| <= 3
    ensures ParseDecimal(digits) <= 999
  {
    DigitsOfParse(digits);
    assert Pow10(0) == 1 && Pow10(1) == 10 && Pow10(2) == 100 && Pow10(3) == 1000;
  }

  // ------------------------------------------------------------------ every body is a writing

  lemma ClauseIsWritten(clause: string) returns (k: KeepWriting)
    requires IsKeepClause(clause)
    ensures KeepWritten(k) && ClauseText(Some(k), true) == clause
  {
    var space := LeadingBlank(clause[2..]);
    var digits := TrimStart(clause[2..]);
    k := KeepWriting(clause[..2], space, digits);
    Regroup(clause[..2], space, digits);
  }

  lemma Regroup(a: string, b: string, c: string)
    ensures a + b + c == a + (b + c)
  {}

  lemma TailIsNotBlank(rest: string, n: nat)
    requires n < |rest| && !IsSpace(rest[|rest| - 1])
    ensures !Blank(rest[n..])
  {
    assert !IsSpace(rest[n..][|rest| - 1 - n]);
  }

  lemma TailIsWritten(tail: string) returns (gap: string, keep: Option<KeepWriting>)
    requires TrimStart(tail) == "" || IsKeepClause(TrimStart(tail))
    requires Blank(tail) ==> tail == ""
    ensures Blank(gap) && (if keep.Some? then KeepWritten(keep.value) else gap == "")
    ensures tail == gap + ClauseText(keep, true)
  {
    gap := LeadingBlank(tail);
    if TrimStart(tail) == "" {
      assert gap + "" == gap;
      keep := None;
    } else {
      var k := ClauseIsWritten(TrimStart(tail));
      keep := Some(k);
    }
  }

  lemma SidesAndTail(count: string, rest: string)
    requires MatchSides(count, rest).Some?
    ensures var n := DigitRun(rest);
      && DigitsUpTo(rest[..n], 3) && rest == rest[..n] + rest[n..]
      && (TrimStart(rest[n..]) == "" || IsKeepClause(TrimStart(rest[n..])))
  {}

  lemma RestIsWritten(count: string, d: char, rest: string) returns (b: Body)
    requires MatchSides(count, rest).Some? && |count| <= 2 && AllDigits(count) && IsD(d)
    requires rest != "" && !IsSpace(rest[|rest| - 1])
    ensures WellWritten(b) && TextOf(b, true) == count + [d] + rest
  {
    var n := DigitRun(rest);
    SidesAndTail(count, rest);
    var sides, tail := rest[..n], rest[n..];
    if n < |rest| { TailIsNotBlank(rest, n); }
    b := SidesWritten(count, d, sides, tail);
  }

  lemma SidesWritten(count: string, d: char, sides: string, tail: string) returns (b: Body)
    requires |count| <= 2 && AllDigits(count) && IsD(d) && DigitsUpTo(sides, 3)
    requires TrimStart(tail) == "" || IsKeepClause(TrimStart(tail))
    requires Blank(tail) ==> tail == ""
    ensures WellWritten(b) && TextOf(b, true) == count + [d] + (sides + tail)
  {
    var gap, keep := TailIsWritten(tail);
    b := Rolled(count, d, sides, gap, keep);
  }

  /** Every term body is a writing. */
  lemma BodyIsWritten(body: string) returns (b: Body)
    requires IsTermBody(body) && body == Trim(body)
    ensures WellWritten(b) && TextOf(b, true) == body
  {
    if MatchDieTerm(body).Some? {
      var n := DigitRun(body);
      var rest := body[n + 1..];
      assert body == body[..n] + [body[n]] + rest;
      if rest != "" { assert rest[|rest| - 1] == body[|body| - 1]; }
      b := RestIsWritten(body[..n], body[n], rest);
    } else {
      b := Number(body);
    }
  }

  // ------------------------------------------------------------------ labels

  lemma StripThree(a: string, space: string, b: string)
    requires StripSpaces(a) == a && StripSpaces(space) == "" && StripSpaces(b) == b
    ensures StripSpaces(a + space + b) == a + "" + b
  {
    StripJoin(a + space, b);
    StripJoin(a, space);
  }

  lemma StripClause(keep: Option<KeepWriting>)
    requires keep.Some? ==> KeepWritten(keep.value)
    ensures StripSpaces(ClauseText(keep, true)) == ClauseText(keep, false)
  {
    if keep.Some? {
      StripOfNoSpace(keep.value.letters);
      StripBlank(keep.value.space);
      StripDigits(keep.value.digits);
      StripThree(keep.value.letters, keep.value.space, keep.value.digits);
    }
  }

  lemma StripBody(b: Body)
    requires WellWritten(b)
    ensures StripSpaces(TextOf(b, true)) == TextOf(b, false)
  {
    match b
    case Number(digits) => StripDigits(digits);
    case Rolled(count, d, sides, gap, keep) =>
      var clause := ClauseText(keep, true);
      StripJoin(count + [d], sides + (gap + clause));
      StripJoin(count, [d]);
      StripJoin(sides, gap + clause);
      StripJoin(gap, clause);
      StripDigits(count);
      StripOfNoSpace([d]);
      StripDigits(sides);
      StripBlank(gap);
      StripClause(keep);
  }

  /** The label of a written term: its text without white space, signed unless it is an added die. */
  lemma LabelIs(b: Body, sign: Sign)
    requires WellWritten(b)
    ensures TermText(Fragment(sign, TextOf(b, true))) ==
      (if sign == Minus then "-" else if b.Rolled? then "" else "+") + TextOf(b, false)
  {
    StripBody(b);
    if b.Rolled? { RolledReads(b); } else { DigitsAreNoDie(b.digits); }
  }
}
