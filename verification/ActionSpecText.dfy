/** The dice of a display line and of a statblock entry read as the same die, modifier and type. */
module ActionSpecText {
  import opened Text
  import opened Sequences
  import opened Dice
  import opened DiceBounds
  import opened ActionSpec

  // ------------------------------------------------------------------ white space

  /** What `TrimStart` takes off is white space. */
  lemma TrimStartSplit(s: string) returns (w: string)
    ensures s == w + TrimStart(s) && StripSpaces(w) == "" && |w| == |s| - |TrimStart(s)|
  {
    w := LeadingBlank(s);
    StripBlank(w);
  }

  lemma {:induction false} TrimStartAfter(w: string, s: string)
    requires StripSpaces(w) == "" && (s == "" || !IsSpace(s[0]))
    ensures TrimStart(w + s) == s
  {
    if w == "" {
      assert w + s == s;
    } else {
      TrimStartAfter(w[1..], s);
      assert (w + s)[1..] == w[1..] + s;
    }
  }

  lemma DigitStarts(s: string)
    requires s != "" && AllDigits(s)
    ensures !IsSpace(s[0]) && !IsSign(s[0]) && !IsD(s[0])
  {}

  /** A modifier as written: white space, its sign, white space, its digits. */
  datatype Written = Written(w1: string, sign: char, w2: string, digits: string)

  predicate GoodWritten(m: Written) {
    StripSpaces(m.w1) == "" && IsSign(m.sign) && StripSpaces(m.w2) == "" && m.digits != "" && AllDigits(m.digits)
  }

  function WrittenText(m: Written): string { m.w1 + ([m.sign] + (m.w2 + m.digits)) }

  lemma StripOfWritten(m: Written)
    requires GoodWritten(m)
    ensures StripSpaces(WrittenText(m)) == [m.sign] + m.digits
  {
    StripJoin(m.w1, [m.sign] + (m.w2 + m.digits));
    StripJoin([m.sign], m.w2 + m.digits);
    StripJoin(m.w2, m.digits);
    SignIsNoSpace(m.sign);
    StripDigits(m.digits);
    assert "" + m.digits == m.digits && "" + ([m.sign] + m.digits) == [m.sign] + m.digits;
  }

  lemma SignStarts(c: char)
    requires IsSign(c)
    ensures !IsSpace(c) && !IsDigit(c) && !IsD(c)
  {}

  /** The text from the sign on, and the text from the digits on. */
  function FromItsSign(m: Written, tail: string): string { [m.sign] + (m.w2 + (m.digits + tail)) }

  lemma GroupWritten(a: string, c: char, b: string, d: string, e: string)
    ensures a + ([c] + (b + d)) + e == a + ([c] + (b + (d + e)))
  {}

  lemma DropFirst(c: char, x: string)
    ensures ([c] + x)[1..] == x && ([c] + x)[0] == c
  {}

  lemma TrimToSign(m: Written, tail: string)
    requires GoodWritten(m)
    ensures TrimStart(WrittenText(m) + tail) == FromItsSign(m, tail)
    ensures FromItsSign(m, tail) != "" && FromItsSign(m, tail)[0] == m.sign
    ensures TrimStart(FromItsSign(m, tail)[1..]) == m.digits + tail
  {
    SignStarts(m.sign);
    DigitStarts(m.digits);
    GroupWritten(m.w1, m.sign, m.w2, m.digits, tail);
    DropFirst(m.sign, m.w2 + (m.digits + tail));
    TrimStartAfter(m.w1, FromItsSign(m, tail));
    TrimStartAfter(m.w2, m.digits + tail);
  }

  // ------------------------------------------------------------------ modifiers read

  lemma ReadOfWritten(m: Written)
    requires GoodWritten(m)
    ensures ReadModifier(WrittenText(m)) == Some(SignedValue(m.sign, m.digits))
  {
    TrimToSign(m, "");
    assert WrittenText(m) + "" == WrittenText(m) && m.digits + "" == m.digits;
  }

  lemma WrittenOfRead(s: string) returns (m: Written)
    requires ReadModifier(s).Some?
    ensures GoodWritten(m) && WrittenText(m) == s && ReadModifier(s) == Some(SignedValue(m.sign, m.digits))
  {
    var u := TrimStart(s);
    var v := TrimStart(u[1..]);
    var w1 := TrimStartSplit(s);
    var w2 := TrimStartSplit(u[1..]);
    m := Written(w1, u[0], w2, v);
    HeadTail(u);
  }

  lemma MatchFrom(s: string, u: string, v: string, k: nat)
    requires TrimStart(s) == u && u != "" && IsSign(u[0]) && TrimStart(u[1..]) == v && DigitRun(v) == k
    requires 1 <= k <= 3 && k < |v| <= |s| && IsSpace(v[k])
    ensures MatchModifier(s) == Some(ModifierMatch(u[0], v[..k], |s| - |v| + k))
  {}

  lemma DigitsThenSpace(d: string, tail: string)
    requires AllDigits(d) && tail != "" && IsSpace(tail[0])
    ensures DigitRun(d + tail) == |d| < |d + tail| && (d + tail)[..|d|] == d && IsSpace((d + tail)[|d|])
  {
    SpaceIsNoDigit(tail[0]);
    DigitRunOf(d, tail);
  }

  lemma MatchOfWritten(m: Written, tail: string)
    requires GoodWritten(m) && |m.digits| <= 3 && tail != "" && IsSpace(tail[0])
    ensures MatchModifier(WrittenText(m) + tail) == Some(ModifierMatch(m.sign, m.digits, |WrittenText(m)|))
  {
    TrimToSign(m, tail);
    DigitsThenSpace(m.digits, tail);
    var s, v, k := WrittenText(m) + tail, m.digits + tail, |m.digits|;
    MatchFrom(s, FromItsSign(m, tail), v, k);
    assert |s| - |v| + k == |WrittenText(m)|;
  }

  lemma SpaceIsNoDigit(c: char)
    requires IsSpace(c)
    ensures !IsDigit(c) && !IsSign(c) && !IsD(c)
  {}

  lemma WrittenOfMatch(s: string) returns (m: Written)
    requires MatchModifier(s).Some?
    ensures var mm := MatchModifier(s).value;
      && GoodWritten(m) && m.sign == mm.sign && m.digits == mm.digits && |m.digits| <= 3
      && mm.size < |s| && s[..mm.size] == WrittenText(m) && IsSpace(s[mm.size])
  {
    var u := TrimStart(s);
    var v := TrimStart(u[1..]);
    var k := DigitRun(v);
    var w1 := TrimStartSplit(s);
    var w2 := TrimStartSplit(u[1..]);
    m := Written(w1, u[0], w2, v[..k]);
    assert u == [u[0]] + (w2 + v) && v == v[..k] + v[k..];
    GroupWritten(w1, u[0], w2, v[..k], v[k..]);
    assert s == WrittenText(m) + v[k..];
  }

  // ------------------------------------------------------------------ dice as written

  /** A die and its modifier as written. */
  datatype DiceText = DiceText(count: string, d: char, sides: string, modifier: Option<Written>)

  predicate GoodDice(x: DiceText) {
    && AllDigits(x.count) && IsD(x.d) && x.sides != "" && AllDigits(x.sides)
    && (x.modifier.Some? ==> GoodWritten(x.modifier.value))
  }

  /** Within the digits the patterns allow. */
  predicate ShortDice(x: DiceText) {
    |x.count| <= 2 && |x.sides| <= 3 && (x.modifier.Some? ==> |x.modifier.value.digits| <= 3)
  }

  function ModifierText(m: Option<Written>): string { if m.Some? then WrittenText(m.value) else "" }

  function AfterD(x: DiceText): string { x.sides + ModifierText(x.modifier) }

  function TextOf(x: DiceText): string { x.count + ([x.d] + AfterD(x)) }

  function BaseOf(x: DiceText): string { x.count + [x.d] + x.sides }

  function FlatOfDice(x: DiceText): int
    requires GoodDice(x)
  {
    if x.modifier.Some? then SignedValue(x.modifier.value.sign, x.modifier.value.digits) else 0
  }

  lemma ModifierStart(m: Option<Written>)
    requires m.Some? ==> GoodWritten(m.value)
    ensures ModifierText(m) == "" <==> m.None?
    ensures m.Some? ==> !IsDigit(ModifierText(m)[0])
  {
    if m.Some? {
      SignStarts(m.value.sign);
      var text := WrittenText(m.value);
      if m.value.w1 == "" { assert text[0] == m.value.sign; } else {
        assert text[0] == m.value.w1[0];
        BlankStarts(m.value.w1);
        SpaceIsNoDigit(text[0]);
      }
    }
  }

  lemma BlankStarts(w: string)
    requires StripSpaces(w) == "" && w != ""
    ensures IsSpace(w[0])
  {}

  /** The digits before a die's `d`. */
  lemma CountRun(x: DiceText, tail: string)
    requires GoodDice(x)
    ensures var t := x.count + ([x.d] + tail);
      DigitRun(t) == |x.count| && t[..|x.count|] == x.count && t[|x.count|] == x.d && t[|x.count| + 1..] == tail
      && t[..|x.count| + 1] == x.count + [x.d]
  {
    DigitRunOf(x.count, [x.d] + tail);
  }

  lemma SidesRun(sides: string, m: Option<Written>)
    requires AllDigits(sides) && (m.Some? ==> GoodWritten(m.value))
    ensures DigitRun(sides + ModifierText(m)) == |sides|
    ensures (sides + ModifierText(m))[..|sides|] == sides && (sides + ModifierText(m))[|sides|..] == ModifierText(m)
  {
    ModifierStart(m);
    DigitRunOf(sides, ModifierText(m));
  }

  lemma ReadSidesOf(head: string, sides: string, m: Option<Written>)
    requires sides != "" && AllDigits(sides) && (m.Some? ==> GoodWritten(m.value))
    ensures ReadSides(head, sides + ModifierText(m)) ==
      Some((head + sides, if m.Some? then SignedValue(m.value.sign, m.value.digits) else 0))
  {
    SidesRun(sides, m);
    ModifierStart(m);
    if m.Some? { ReadOfWritten(m.value); } else { assert sides + "" == sides; }
  }

  /** A die with a count reads as its base and its modifier. */
  lemma ReadOfDice(x: DiceText)
    requires GoodDice(x) && x.count != ""
    ensures ReadExpression(TextOf(x)) == Some((BaseOf(x), FlatOfDice(x)))
  {
    DiceIsTrimmed(x);
    CountRun(x, AfterD(x));
    ReadSidesOf(x.count + [x.d], x.sides, x.modifier);
  }

  lemma DiceIsTrimmed(x: DiceText)
    requires GoodDice(x)
    ensures Trim(TextOf(x)) == TextOf(x) && TextOf(x) != ""
  {
    var t := TextOf(x);
    if x.count != "" { DigitStarts(x.count); }
    assert t[0] == if x.count != "" then x.count[0] else x.d;
    LastOfAfter(x);
    assert t[|t| - 1] == AfterD(x)[|AfterD(x)| - 1];
    TrimOfNoSpace(t);
  }

  lemma LastDigit(s: string)
    requires s != "" && AllDigits(s)
    ensures !IsSpace(s[|s| - 1])
  {}

  lemma LastOfAfter(x: DiceText)
    requires GoodDice(x)
    ensures AfterD(x) != "" && !IsSpace(AfterD(x)[|AfterD(x)| - 1])
  {
    if x.modifier.Some? {
      var m := x.modifier.value;
      LastDigit(m.digits);
      assert AfterD(x)[|AfterD(x)| - 1] == m.digits[|m.digits| - 1];
    } else {
      LastDigit(x.sides);
      assert AfterD(x) == x.sides;
    }
  }

  lemma SidesOfRead(head: string, rest: string) returns (sides: string, m: Option<Written>)
    requires ReadSides(head, rest).Some?
    ensures sides != "" && AllDigits(sides) && (m.Some? ==> GoodWritten(m.value)) && rest == sides + ModifierText(m)
  {
    var n := DigitRun(rest);
    sides := rest[..n];
    assert rest == sides + rest[n..];
    if n == |rest| {
      m := None;
      assert rest[n..] == "";
    } else {
      var w := WrittenOfRead(rest[n..]);
      m := Some(w);
    }
  }

  lemma SplitAtIndex(t: string, n: nat)
    requires n < |t|
    ensures t == t[..n] + ([t[n]] + t[n + 1..])
  {}

  /** Whatever the statblock reader splits is a die with a count, as written. */
  lemma DiceOfRead(expr: string) returns (x: DiceText)
    requires ReadExpression(expr).Some?
    ensures GoodDice(x) && x.count != "" && Trim(expr) == TextOf(x)
  {
    var t := Trim(expr);
    var n := DigitRun(t);
    var sides, m := SidesOfRead(t[..n + 1], t[n + 1..]);
    x := DiceText(t[..n], t[n], sides, m);
    SplitAtIndex(t, n);
    assert AfterD(x) == t[n + 1..];
  }

  // ------------------------------------------------------------------ display lines

  /** A type that is one word. */
  predicate Word(s: string) { s != "" && NoSpace(s) }

  lemma WordIsOneLine(s: string)
    requires NoSpace(s)
    ensures OneLine(s)
  {
    forall i | 0 <= i < |s| ensures !LineBreak(s[i]) { BreakIsSpace(s[i]); }
  }

  lemma BreakIsSpace(c: char)
    ensures LineBreak(c) ==> IsSpace(c)
  {}

  function MatchOfModifier(m: Option<Written>): Option<ModifierMatch> {
    if m.None? then None else Some(ModifierMatch(m.value.sign, m.value.digits, |WrittenText(m.value)|))
  }

  /** White space, at least one. */
  predicate Gap(g: string) { g != "" && StripSpaces(g) == "" }

  /** A type of one or more words; with white space in it, it does not start with a sign. */
  predicate TypeText(typ: string) {
    && typ != "" && OneLine(typ) && !IsSpace(typ[0]) && !IsSpace(typ[|typ| - 1])
    && (NoSpace(typ) || !IsSign(typ[0]))
  }

  lemma WordIsType(s: string)
    requires Word(s)
    ensures TypeText(s)
  {
    WordIsOneLine(s);
  }

  lemma GapThenType(g: string, typ: string)
    requires Gap(g) && TypeText(typ)
    ensures TrimStart(g + typ) == typ && IsSpace((g + typ)[0])
  {
    BlankStarts(g);
    TrimStartAfter(g, typ);
    assert (g + typ)[0] == g[0];
  }

  /** A type after white space is no modifier. */
  lemma TypeIsNoModifier(g: string, typ: string)
    requires Gap(g) && TypeText(typ)
    ensures MatchModifier(g + typ) == None
  {
    GapThenType(g, typ);
    if IsSign(typ[0]) {
      assert NoSpace(typ);
      var u := typ[1..];
      TrimStartOfTight(u);
      var k := DigitRun(u);
      if k < |u| { assert u[k] == typ[k + 1]; }
    }
  }

  lemma TrimStartOfTight(s: string)
    requires NoSpace(s)
    ensures TrimStart(s) == s
  {}

  lemma ModifierOfLine(m: Option<Written>, g: string, typ: string)
    requires (m.Some? ==> GoodWritten(m.value) && |m.value.digits| <= 3) && Gap(g) && TypeText(typ)
    ensures MatchModifier(ModifierText(m) + (g + typ)) == MatchOfModifier(m)
  {
    if m.Some? {
      GapThenType(g, typ);
      MatchOfWritten(m.value, g + typ);
    } else {
      TypeIsNoModifier(g, typ);
      assert "" + (g + typ) == g + typ;
    }
  }

  lemma TypeOfLine(count: string, d: char, sides: string, m: Option<Written>, g: string, typ: string)
    requires (m.Some? ==> GoodWritten(m.value) && |m.value.digits| <= 3) && Gap(g) && TypeText(typ)
    ensures MatchType(count, d, sides, ModifierText(m) + (g + typ)) ==
      Some(LineMatch(count, d, sides, MatchOfModifier(m), count + [d] + sides + ModifierText(m), typ))
  {
    var after := ModifierText(m) + (g + typ);
    ModifierOfLine(m, g, typ);
    var size := |ModifierText(m)|;
    GapThenType(g, typ);
    assert after[size] == (g + typ)[0] && after[..size] == ModifierText(m) && after[size..] == g + typ;
  }

  lemma AfterDOfLine(x: DiceText, g: string, typ: string)
    requires GoodDice(x) && ShortDice(x) && Gap(g) && TypeText(typ)
    ensures MatchAfterD(x.count, x.d, AfterD(x) + (g + typ)) ==
      Some(LineMatch(x.count, x.d, x.sides, MatchOfModifier(x.modifier), x.count + [x.d] + x.sides + ModifierText(x.modifier), typ))
  {
    var rest := AfterD(x) + (g + typ);
    var after := ModifierText(x.modifier) + (g + typ);
    assert rest == x.sides + after;
    ModifierStart(x.modifier);
    GapThenType(g, typ);
    SpaceIsNoDigit((g + typ)[0]);
    assert after[0] == if x.modifier.None? then (g + typ)[0] else ModifierText(x.modifier)[0];
    DigitRunOf(x.sides, after);
    assert rest[..|x.sides|] == x.sides && rest[|x.sides|..] == after;
    TypeOfLine(x.count, x.d, x.sides, x.modifier, g, typ);
  }

  lemma LineIsTrimmed(x: DiceText, g: string, typ: string)
    requires GoodDice(x) && Gap(g) && TypeText(typ)
    ensures Trim(TextOf(x) + (g + typ)) == TextOf(x) + (g + typ)
  {
    var t := TextOf(x) + (g + typ);
    DiceIsTrimmed(x);
    assert t[0] == TextOf(x)[0] && t[|t| - 1] == typ[|typ| - 1];
    if x.count != "" { DigitStarts(x.count); }
    assert TextOf(x)[0] == if x.count != "" then x.count[0] else x.d;
    TrimOfNoSpace(t);
  }

  /** Dice and a type are read off the display line as they were written. */
  lemma LineOfDice(x: DiceText, g: string, typ: string)
    requires GoodDice(x) && ShortDice(x) && Gap(g) && TypeText(typ)
    ensures MatchLine(TextOf(x) + (g + typ)) ==
      Some(LineMatch(x.count, x.d, x.sides, MatchOfModifier(x.modifier), x.count + [x.d] + x.sides + ModifierText(x.modifier), typ))
  {
    LineIsTrimmed(x, g, typ);
    Regrouped(x.count, x.d, AfterD(x), g + typ);
    CountRun(x, AfterD(x) + (g + typ));
    AfterDOfLine(x, g, typ);
  }

  lemma Regrouped(a: string, c: char, b: string, e: string)
    ensures a + ([c] + b) + e == a + ([c] + (b + e))
  {}

  // ------------------------------------------------------------------ lines read

  lemma TypeRead(count: string, d: char, sides: string, after: string) returns (m: Option<Written>)
    requires MatchType(count, d, sides, after).Some?
    ensures var l := MatchType(count, d, sides, after).value;
      && l.count == count && l.d == d && l.sides == sides
      && (m.Some? ==> GoodWritten(m.value) && |m.value.digits| <= 3) && l.modifier == MatchOfModifier(m)
      && l.expression == count + [d] + sides + ModifierText(m)
  {
    if MatchModifier(after).Some? {
      var w := WrittenOfMatch(after);
      m := Some(w);
      assert |after[..MatchModifier(after).value.size]| == |WrittenText(w)|;
    } else {
      m := None;
      assert after[..0] == "";
    }
  }

  lemma DiceAfterD(count: string, d: char, rest: string) returns (x: DiceText)
    requires MatchAfterD(count, d, rest).Some? && AllDigits(count) && |count| <= 2 && IsD(d)
    ensures var l := MatchAfterD(count, d, rest).value;
      && GoodDice(x) && ShortDice(x) && l.count == x.count && l.d == x.d && l.sides == x.sides
      && l.modifier == MatchOfModifier(x.modifier) && l.expression == TextOf(x)
  {
    var k := DigitRun(rest);
    var m := TypeRead(count, d, rest[..k], rest[k..]);
    x := DiceText(count, d, rest[..k], m);
    Regrouped2(x.count, x.d, x.sides, ModifierText(m));
  }

  /** Whatever a display line matches is a die and modifier as written; the count may be missing. */
  lemma DiceOfLine(line: string) returns (x: DiceText)
    requires MatchLine(line).Some?
    ensures var l := MatchLine(line).value;
      && GoodDice(x) && ShortDice(x) && l.count == x.count && l.d == x.d && l.sides == x.sides
      && l.modifier == MatchOfModifier(x.modifier) && l.expression == TextOf(x)
  {
    var t := Trim(line);
    var n := DigitRun(t);
    x := DiceAfterD(t[..n], t[n], t[n + 1..]);
  }

  lemma Regrouped2(a: string, c: char, b: string, e: string)
    ensures a + [c] + b + e == a + ([c] + (b + e))
  {}

  // ------------------------------------------------------------------ normalized

  /** The same dice with a count and without white space. */
  function Tightened(x: DiceText): DiceText {
    DiceText(if x.count == "" then "1" else x.count, if x.count == "" then 'd' else x.d, x.sides,
      if x.modifier.None? then None else Some(Written("", x.modifier.value.sign, "", x.modifier.value.digits)))
  }

  lemma TightenedIsGood(x: DiceText)
    requires GoodDice(x)
    ensures GoodDice(Tightened(x)) && Tightened(x).count != "" && FlatOfDice(Tightened(x)) == FlatOfDice(x)
  {}

  lemma StripOfDice(x: DiceText)
    requires GoodDice(x)
    ensures StripSpaces(TextOf(x)) == x.count + ([x.d] + (x.sides + StripSpaces(ModifierText(x.modifier))))
  {
    StripJoin(x.count, [x.d] + AfterD(x));
    StripJoin([x.d], AfterD(x));
    StripJoin(x.sides, ModifierText(x.modifier));
    StripDigits(x.count);
    StripDigits(x.sides);
    DIsNoSpace(x.d);
  }

  lemma DIsNoSpace(c: char)
    requires IsD(c)
    ensures StripSpaces([c]) == [c]
  {
    assert [c][1..] == "" && StripSpaces("") == "";
  }

  lemma StripOfModifierText(m: Option<Written>)
    requires m.Some? ==> GoodWritten(m.value)
    ensures StripSpaces(ModifierText(m)) ==
      ModifierText(if m.None? then None else Some(Written("", m.value.sign, "", m.value.digits)))
  {
    if m.Some? {
      StripOfWritten(m.value);
      assert "" + ([m.value.sign] + ("" + m.value.digits)) == [m.value.sign] + m.value.digits;
    }
  }

  lemma NormalizedFrom(e: string, s: string)
    requires StripSpaces(e) == s && s != ""
    ensures Normalized(e) == if IsD(s[0]) then "1d" + s[1..] else s
  {}

  lemma OneBefore(tail: string)
    ensures "1d" + tail == "1" + (['d'] + tail)
  {}

  /** Normalizing writes the same dice with a count and without white space. */
  lemma NormalizedIs(x: DiceText)
    requires GoodDice(x)
    ensures Normalized(TextOf(x)) == TextOf(Tightened(x))
  {
    StripOfDice(x);
    StripOfModifierText(x.modifier);
    var tail := x.sides + StripSpaces(ModifierText(x.modifier));
    var s := x.count + ([x.d] + tail);
    NormalizedFrom(TextOf(x), s);
    if x.count == "" {
      DropFirst(x.d, tail);
      assert s == [x.d] + tail;
      OneBefore(tail);
    } else {
      DigitStarts(x.count);
      assert s[0] == x.count[0];
    }
  }
}
