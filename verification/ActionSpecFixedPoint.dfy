/** When a spec is rebuilt, and which expanded attacks rebuild to themselves. */
module ActionSpecFixedPoint {
  import opened Text
  import opened Dice
  import opened DiceBounds
  import opened ActionSpec
  import opened ActionSpecText
  import opened ActionSpecAgreement

  // ------------------------------------------------------------------ what the schemas accept

  lemma {:induction false} TrimShortens(s: string)
    ensures |Trim(s)| <= |s|
  {
    TrimStartShrinks(s);
  }

  lemma ShortNumber(digits: string)
    requires AllDigits(digits) && |digits| <= 3
    ensures ParseDecimal(digits) <= 999
  {
    DigitsOfParse(digits);
    PowersGrow(|digits|);
  }

  lemma PowersGrow(w: nat)
    requires w <= 3
    ensures Pow10(w) <= 1000 && Pow10(3) == 1000
  {
    assert Pow10(0) == 1 && Pow10(1) == 10 && Pow10(2) == 100 && Pow10(3) == 1000;
  }

  lemma BonusIsShort(n: int)
    requires Abs(n) <= MAX_ATTACK_BONUS_ABS
    ensures |BonusText(n)| <= 4
  {
    PowersGrow(3);
    DecimalLength(Abs(n), 3);
  }

  lemma TightIsShort(x: DiceText)
    requires GoodDice(x) && ShortDice(x)
    ensures |TextOf(Tightened(x))| <= 10 && |BaseOf(Tightened(x))| <= 6 && -999 <= FlatOfDice(x) <= 999
  {
    if x.modifier.Some? { ShortNumber(x.modifier.value.digits); }
  }

  /** The part and the damage text of a readable line are within what the schemas accept. */
  lemma LinePartFits(lower: Lower, line: string)
    requires IsLowerCase(lower) && MatchLine(line).Some?
    requires |lower(Trim(MatchLine(line).value.typ))| <= MAX_DAMAGE_TYPE_LENGTH
    ensures var raw := RawOfLine(lower, MatchLine(line).value);
      Trim(raw.expression) != "" && PartFits(PartOf(lower, raw)) && |DamageBit(raw)| <= 80
  {
    var l := MatchLine(line).value;
    var x := DiceOfLine(line);
    var y := Tightened(x);
    NormalizedIs(x);
    TightenedIsGood(x);
    DiceIsTrimmed(y);
    ReadOfDice(y);
    TightIsShort(x);
    TrimShortens(TextOf(y) + " " + lower(Trim(l.typ)));
    TrimShortens(TextOf(y));
  }

  lemma OneBit(raw: RawDamage)
    ensures FormatDamageList([raw]) == DamageBit(raw)
  {
    assert [raw][..0] == [] && DamageBits([]) == [];
  }

  /** An attack with one part that fits is accepted by the schemas. */
  lemma OnePartExpands(lower: Lower, name: string, bonus: int, raw: RawDamage, desc: string, ruleSystem: string)
    requires Trim(raw.expression) != "" && PartFits(PartOf(lower, raw)) && |DamageBit(raw)| <= 80
    requires Abs(bonus) <= MAX_ATTACK_BONUS_ABS
    ensures ExpandAttack(lower, name, bonus, [raw], desc, ruleSystem).Some?
  {
    OnePart(lower, raw);
    OneBit(raw);
    BonusIsShort(bonus);
  }

  /** The spec given still stands. */
  predicate Stands(lower: Lower, edited: Action) { edited.spec.Some? && SpecAgreesWithFields(lower, edited) }

  lemma ReadableIsRebuilt(lower: Lower, edited: Action, ruleSystem: string, types: Option<seq<string>>)
    requires IsLowerCase(lower) && !Stands(lower, edited) && Rebuildable(lower, edited, types)
    ensures RebuildEditedActionSpec(lower, edited, ruleSystem, types)
      == edited.(spec := Some(FieldSpec(lower, edited, ruleSystem)))
  {
    LinePartFits(lower, edited.damage);
    var raw := RawOfLine(lower, MatchLine(edited.damage).value);
    OnePartExpands(lower, edited.name, BonusOf(edited.toHit).value, raw, edited.notes, ruleSystem);
    ExpandedSpec(lower, edited.name, BonusOf(edited.toHit).value, [raw], edited.notes, ruleSystem);
  }

  lemma OtherwiseNoSpec(lower: Lower, edited: Action, ruleSystem: string, types: Option<seq<string>>)
    requires !Stands(lower, edited) && !Rebuildable(lower, edited, types)
    ensures RebuildEditedActionSpec(lower, edited, ruleSystem, types) == edited.(spec := None)
  {}

  /** A rebuilt action has a spec exactly when the one given agreed with the fields, or the fields can be read. */
  lemma RebuiltHasSpecIff(lower: Lower, edited: Action, ruleSystem: string, types: Option<seq<string>>)
    requires IsLowerCase(lower)
    ensures RebuildEditedActionSpec(lower, edited, ruleSystem, types).spec.Some? <==>
      Stands(lower, edited) || Rebuildable(lower, edited, types)
  {
    if Stands(lower, edited) {
      RebuildAgreeing(lower, edited, ruleSystem, types);
    } else if Rebuildable(lower, edited, types) {
      ReadableIsRebuilt(lower, edited, ruleSystem, types);
    } else {
      OtherwiseNoSpec(lower, edited, ruleSystem, types);
    }
  }

  // ------------------------------------------------------------------ the display text

  lemma TrimEndSplit(s: string) returns (w: string)
    ensures s == TrimEnd(s) + w && StripSpaces(w) == ""
  {
    w := TrailingBlank(s);
    StripBlank(w);
  }

  lemma TrimSplit(s: string) returns (w0: string, w1: string)
    ensures s == w0 + (Trim(s) + w1) && StripSpaces(w0) == "" && StripSpaces(w1) == ""
  {
    w0 := TrimStartSplit(s);
    w1 := TrimEndSplit(TrimStart(s));
  }

  lemma TrimEndOfTight(s: string)
    requires s == "" || !IsSpace(s[|s| - 1])
    ensures TrimEnd(s) == s
  {}

  lemma LastOf(a: string, b: string)
    requires b != ""
    ensures (a + b)[|a + b| - 1] == b[|b| - 1]
  {}

  /** Taking the outer white space off dice followed by a word. */
  lemma TrimBit(w0: string, t: string, g: string, typ: string)
    requires StripSpaces(w0) == "" && t != "" && !IsSpace(t[0]) && Word(typ)
    ensures Trim(w0 + (t + (g + typ))) == t + (g + typ)
  {
    var s := t + (g + typ);
    assert s[0] == t[0];
    TrimStartAfter(w0, s);
    LastOf(g, typ);
    LastOf(t, g + typ);
    TrimEndOfTight(s);
  }

  lemma RegroupBit(w0: string, t: string, w1: string, typ: string)
    ensures w0 + (t + w1) + " " + typ == w0 + (t + (w1 + " " + typ))
  {}

  /** The damage text of dice and a one-word type: the trimmed dice, white space, the word. */
  lemma BitOf(raw: RawDamage) returns (g: string)
    requires Trim(raw.expression) != "" && Word(raw.typ)
    ensures Gap(g) && DamageBit(raw) == Trim(raw.expression) + (g + raw.typ)
  {
    var w0, w1 := TrimSplit(raw.expression);
    g := w1 + " ";
    StripJoin(w1, " ");
    assert " "[1..] == "";
    RegroupBit(w0, Trim(raw.expression), w1, raw.typ);
    TrimBit(w0, Trim(raw.expression), g, raw.typ);
  }

  // ------------------------------------------------------------------ rollable dice are short

  lemma CompactCount(c: string, d: char, s: string)
    requires AllDigits(c) && IsD(d) && MatchCompactDie(c + ([d] + s)).Some?
    ensures |c| <= 2 && |s| <= 3
  {
    DigitRunOf(c, [d] + s);
    assert (c + ([d] + s))[|c| + 1..] == s;
  }

  lemma BaseHasNoSign(c: string, d: char, s: string)
    requires AllDigits(c) && IsD(d) && AllDigits(s)
    ensures HasNoSign(c + ([d] + s))
  {
    DigitsHaveNoSigns(c);
    DigitsHaveNoSigns(s);
    SignsJoin([d], s);
    SignsJoin(c, [d] + s);
  }

  lemma DigitsHaveNoSigns(s: string)
    requires AllDigits(s)
    ensures HasNoSign(s)
  {
    forall i | 0 <= i < |s| ensures !IsSign(s[i]) { SignOrDigit(s[i]); }
  }

  lemma SignOrDigit(c: char)
    ensures IsDigit(c) ==> !IsSign(c)
  {}

  /** The count, sides and modifier of a rollable expression have as few digits as the roller takes. */
  lemma RollableIsShort(expr: string, x: DiceText)
    requires IsRollableDamageExpression(expr) && GoodDice(x) && Trim(expr) == TextOf(x)
    ensures ShortDice(x)
  {
    var base := x.count + ([x.d] + x.sides);
    StripOfDice(x);
    BaseHasNoSign(x.count, x.d, x.sides);
    if x.modifier.Some? {
      var m := x.modifier.value;
      StripOfWritten(m);
      RegroupCompact(x.count, x.d, x.sides, m.sign, m.digits);
      SplitAtSign(base, m.sign, m.digits);
    } else {
      assert x.sides + StripSpaces("") == x.sides;
      SplitUnsigned(base);
    }
    CompactCount(x.count, x.d, x.sides);
  }

  lemma RegroupCompact(a: string, d: char, b: string, c: char, e: string)
    ensures a + ([d] + (b + ([c] + e))) == a + ([d] + b) + [c] + e
  {}

  // ------------------------------------------------------------------ fixed points

  /** The action of one raw entry. */
  predicate ExpandsTo(lower: Lower, name: string, bonus: int, raw: RawDamage, desc: string, ruleSystem: string, a: Action) {
    ExpandAttack(lower, name, bonus, [raw], desc, ruleSystem) == Some(a)
  }

  lemma ExpandedFields(lower: Lower, name: string, bonus: int, raw: RawDamage, desc: string, ruleSystem: string, a: Action)
    requires ExpandsTo(lower, name, bonus, raw, desc, ruleSystem, a) && Trim(raw.expression) != ""
    ensures a.toHit == BonusText(bonus) && a.damage == DamageBit(raw)
    ensures a.spec == Some(AttackSpecOf(lower, bonus, [raw], ruleSystem))
    ensures PartsOf(a.spec.value.branches) == [PartOf(lower, raw)]
    ensures BonusOf(a.spec.value.bonus) == Some(bonus) == BonusOf(a.toHit)
  {
    OneBit(raw);
    SpecOfOne(lower, bonus, raw, ruleSystem);
  }

  /** Dice the statblock reader can split read back from the text that displays them. */
  lemma SplitDiceAgree(lower: Lower, raw: RawDamage)
    requires IsLowerCase(lower) && IsRollableDamageExpression(raw.expression) && Word(raw.typ)
    requires ReadExpression(raw.expression).Some?
    ensures Trim(raw.expression) != "" && DamageLineToPart(lower, DamageBit(raw)).Some?
    ensures SamePart(lower, PartOf(lower, raw), DamageLineToPart(lower, DamageBit(raw)).value)
  {
    var x := DiceOfRead(raw.expression);
    DiceIsTrimmed(x);
    RollableIsShort(raw.expression, x);
    var g := BitOf(raw);
    WordIsType(raw.typ);
    LineOfDice(x, g, raw.typ);
    LineIsGood(DamageBit(raw));
    ReadOfDice(x);
    TrimReads(raw.expression);
    WordIsTrimmed(raw.typ);
    LowerOfBase(lower, x.count, x.d, x.sides);
    LowerOfBase(lower, x.count, 'd', x.sides);
  }

  lemma WordIsTrimmed(s: string)
    requires Word(s)
    ensures Trim(s) == s
  {
    TrimOfNoSpace(s);
  }

  lemma TrimReads(expr: string)
    ensures ReadExpression(Trim(expr)) == ReadExpression(expr)
  {
    TrimTwice(expr);
  }

  // ------------------------------------------------------------------ dice that do not split

  lemma CharsOfCompact(h: string, i: nat)
    requires MatchCompactDie(h).Some? && i < |h|
    ensures IsDigit(h[i]) || IsD(h[i])
  {
    CompactChars(h, h[i]);
  }

  /** Every character of a rollable expression is a digit, a `d`, a sign or white space. */
  lemma RollableChars(expr: string)
    requires IsRollableDamageExpression(expr)
    ensures DiceChars(Trim(expr)) && Trim(expr) != ""
  {
    var t := Trim(expr);
    var s := StripSpaces(t);
    Rejoin(s);
    forall i | 0 <= i < |s| ensures DiceChar(s[i]) {
      if i < |Before(s)| {
        assert s[i] == Before(s)[i];
        CharsOfCompact(Before(s), i);
      } else if i > |Before(s)| {
        assert s[i] == After(s).value[i - |Before(s)| - 1];
      }
    }
    forall i | 0 <= i < |t| ensures DiceChar(t[i]) {
      if !IsSpace(t[i]) {
        StripKeepsChar(t, i);
        var j :| 0 <= j < |s| && s[j] == t[i];
      }
    }
    CompactIsTight(Before(s));
  }

  lemma LowerBack(t: string, i: nat)
    requires i < |t|
    ensures IsDigit(LowerDice(t)[i]) ==> t[i] == LowerDice(t)[i]
    ensures LowerDice(t)[i] == 'd' ==> IsD(t[i])
  {
    LowerDiceAt(t, i);
  }

  lemma CountBack(t: string, c: string, s: string, i: nat)
    requires LowerDice(t) == c + "d" + s && AllDigits(c) && i < |c|
    ensures t[i] == c[i]
  {
    assert LowerDice(t)[i] == c[i];
    LowerBack(t, i);
  }

  lemma SidesBack(t: string, c: string, s: string, i: nat)
    requires LowerDice(t) == c + "d" + s && AllDigits(s) && i < |s|
    ensures t[|c| + 1 + i] == s[i]
  {
    assert LowerDice(t)[|c| + 1 + i] == s[i];
    LowerBack(t, |c| + 1 + i);
  }

  lemma DieByIndex(t: string, c: string, s: string)
    requires |t| == |c| + 1 + |s| && forall i :: 0 <= i < |c| ==> t[i] == c[i]
    requires forall i :: 0 <= i < |s| ==> t[|c| + 1 + i] == s[i]
    ensures t == c + [t[|c|]] + s
  {
    assert t[..|c|] == c && t[|c| + 1..] == s;
    assert t == t[..|c|] + [t[|c|]] + t[|c| + 1..];
  }

  /** A text that is a die in lower case is a die. */
  lemma DieFromLower(t: string, c: string, s: string)
    requires LowerDice(t) == c + "d" + s && AllDigits(c) && AllDigits(s)
    ensures |t| == |c| + 1 + |s| && IsD(t[|c|]) && t == c + [t[|c|]] + s
  {
    assert LowerDice(t)[|c|] == 'd';
    LowerBack(t, |c|);
    forall i | 0 <= i < |c| ensures t[i] == c[i] { CountBack(t, c, s, i); }
    forall i | 0 <= i < |s| ensures t[|c| + 1 + i] == s[i] { SidesBack(t, c, s, i); }
    DieByIndex(t, c, s);
  }

  lemma DieSplits(c: string, d: char, s: string)
    requires c != "" && AllDigits(c) && IsD(d) && s != "" && AllDigits(s)
    ensures ReadExpression(c + [d] + s).Some?
  {
    var x := DiceText(c, d, s, None);
    assert s + "" == s && c + ([d] + s) == c + [d] + s;
    ReadOfDice(x);
  }

  /** Dice the statblock reader cannot split are displayed as something else. */
  lemma UnsplitDiceDisagree(lower: Lower, raw: RawDamage)
    requires IsLowerCase(lower) && IsRollableDamageExpression(raw.expression) && ReadExpression(raw.expression).None?
    ensures DamageLineToPart(lower, DamageBit(raw)).Some? ==>
      !SamePart(lower, PartOf(lower, raw), DamageLineToPart(lower, DamageBit(raw)).value)
  {
    RollableChars(raw.expression);
    TrimReads(raw.expression);
    if DamageLineToPart(lower, DamageBit(raw)).Some? {
      LineIsGood(DamageBit(raw));
      var l := MatchLine(DamageBit(raw)).value;
      var c := if l.count == "" then "1" else l.count;
      var t := Trim(raw.expression);
      LowerOfBase(lower, c, 'd', l.sides);
      if lower(t) == lower(c + "d" + l.sides) {
        DieFromLower(t, c, l.sides);
        DieSplits(c, t[|c|], l.sides);
      }
    }
  }

  /** No rebuilt part keeps dice the statblock reader cannot split. */
  lemma RebuiltIsSplit(lower: Lower, edited: Action)
    requires Readable(edited)
    ensures ReadExpression(PartOf(lower, RawOfLine(lower, MatchLine(edited.damage).value)).formula).Some?
  {
    var x := DiceOfLine(edited.damage);
    var y := Tightened(x);
    NormalizedIs(x);
    TightenedIsGood(x);
    ReadOfDice(y);
    DieSplits(y.count, y.d, y.sides);
  }

  /**
   * An action expanded from one rollable part with a one-word type rebuilds to itself exactly when the statblock
   * reader can split its dice, that is, when their count is written and white space stands around the sign only.
   */
  lemma FixedPointIff(lower: Lower, name: string, bonus: int, raw: RawDamage, desc: string, ruleSystem: string,
      types: Option<seq<string>>, a: Action)
    requires IsLowerCase(lower) && IsRollableDamageExpression(raw.expression) && Word(raw.typ)
    requires ExpandsTo(lower, name, bonus, raw, desc, ruleSystem, a)
    ensures RebuildEditedActionSpec(lower, a, ruleSystem, types) == a <==> ReadExpression(raw.expression).Some?
  {
    RollableChars(raw.expression);
    ExpandedFields(lower, name, bonus, raw, desc, ruleSystem, a);
    if ReadExpression(raw.expression).Some? {
      SplitDiceAgree(lower, raw);
      RebuildAgreeing(lower, a, ruleSystem, types);
    } else {
      UnsplitDiceDisagree(lower, raw);
      assert !SpecAgreesWithFields(lower, a);
      UnsplitChanges(lower, raw, a, ruleSystem, types);
    }
  }

  lemma FieldSpecDiffers(lower: Lower, raw: RawDamage, a: Action, ruleSystem: string)
    requires Readable(a) && ReadExpression(raw.expression).None?
    ensures PartsOf(FieldSpec(lower, a, ruleSystem).branches) != [PartOf(lower, raw)]
  {
    var line := RawOfLine(lower, MatchLine(a.damage).value);
    TrimReads(raw.expression);
    RebuiltIsSplit(lower, a);
    ReadableExpression(a);
    SpecOfOne(lower, BonusOf(a.toHit).value, line, ruleSystem);
    assert [PartOf(lower, line)][0] != [PartOf(lower, raw)][0];
  }

  lemma UnsplitChanges(lower: Lower, raw: RawDamage, a: Action, ruleSystem: string, types: Option<seq<string>>)
    requires !SpecAgreesWithFields(lower, a) && ReadExpression(raw.expression).None?
    requires a.spec.Some? && PartsOf(a.spec.value.branches) == [PartOf(lower, raw)]
    ensures RebuildEditedActionSpec(lower, a, ruleSystem, types) != a
  {
    RebuildIsOneOf(lower, a, ruleSystem, types);
    if Readable(a) { FieldSpecDiffers(lower, raw, a, ruleSystem); }
  }

  lemma ReadableExpression(a: Action)
    requires Readable(a)
    ensures Trim(Normalized(MatchLine(a.damage).value.expression)) != ""
  {
    var x := DiceOfLine(a.damage);
    NormalizedIs(x);
    TightenedIsGood(x);
    DiceIsTrimmed(Tightened(x));
  }

  /** `d6` is rollable, and the statblock reader cannot split it. */
  lemma BareDieGap()
    ensures IsRollableDamageExpression("d6") && ReadExpression("d6").None?
  {
    assert NoSpace("d6");
    TrimOfNoSpace("d6");
    StripOfNoSpace("d6");
    SplitUnsigned("d6");
    assert "d6"[..0] == "" && "d6"[1..] == "6" && "6"[..0] == "" && ParseDecimal("") == 0;
    assert MatchCompactDie("d6") == Some(DieMatch("", "6", ""));
    assert ParseDecimal("6") == 6;
  }

  lemma BareDieBit()
    ensures Trim("d6") == "d6" && Word("fire") && |DamageBit(RawDamage("d6", "fire"))| <= 80
  {
    TrimOfNoSpace("d6");
    assert Word("fire");
    var g := BitOf(RawDamage("d6", "fire"));
    TrimShortens("d6" + " " + "fire");
  }

  lemma BareDieFits(lower: Lower)
    requires |lower("fire")| <= MAX_DAMAGE_TYPE_LENGTH
    ensures PartFits(PartOf(lower, RawDamage("d6", "fire")))
  {
    BareDieGap();
    TrimOfNoSpace("d6");
  }

  /** An attack of +3 for `d6` fire damage expands to an action that does not rebuild to itself. */
  lemma BareDieChanges(lower: Lower, name: string, desc: string, ruleSystem: string, types: Option<seq<string>>) returns (a: Action)
    requires IsLowerCase(lower) && |lower("fire")| <= MAX_DAMAGE_TYPE_LENGTH
    ensures ExpandsTo(lower, name, 3, RawDamage("d6", "fire"), desc, ruleSystem, a)
    ensures RebuildEditedActionSpec(lower, a, ruleSystem, types) != a
  {
    var raw := RawDamage("d6", "fire");
    BareDieGap();
    BareDieBit();
    BareDieFits(lower);
    OnePartExpands(lower, name, 3, raw, desc, ruleSystem);
    a := ExpandAttack(lower, name, 3, [raw], desc, ruleSystem).value;
    FixedPointIff(lower, name, 3, raw, desc, ruleSystem, types, a);
  }
}
