/** A spec left on an edited action rolls what the action displays. */
module ActionSpecAgreement {
  import opened Text
  import opened Dice
  import opened ActionSpec
  import opened ActionSpecText

  // ------------------------------------------------------------------ lower case

  predicate DiceChar(c: char) { IsDigit(c) || IsD(c) || IsSign(c) || IsSpace(c) }

  predicate DiceChars(s: string) { forall i :: 0 <= i < |s| ==> DiceChar(s[i]) }

  function LowerDice(s: string): (r: string)
    ensures |r| == |s|
  {
    if s == "" then "" else [if s[0] == 'D' then 'd' else s[0]] + LowerDice(s[1..])
  }

  /** What is used of `toLowerCase`: it does nothing twice, and of a die's characters it changes `D` alone. */
  ghost predicate IsLowerCase(lower: Lower) {
    (forall s :: lower(lower(s)) == lower(s)) && (forall s :: DiceChars(s) ==> lower(s) == LowerDice(s))
  }

  lemma {:induction false} LowerDiceAt(s: string, i: nat)
    requires i < |s|
    ensures LowerDice(s)[i] == if s[i] == 'D' then 'd' else s[i]
  {
    if i > 0 { LowerDiceAt(s[1..], i - 1); }
  }

  lemma BaseChars(c: string, d: char, s: string)
    requires AllDigits(c) && IsD(d) && AllDigits(s)
    ensures DiceChars(c + [d] + s)
  {
    forall i | 0 <= i < |c + [d] + s| ensures DiceChar((c + [d] + s)[i]) {
      if i < |c| { assert (c + [d] + s)[i] == c[i]; } else if i > |c| { assert (c + [d] + s)[i] == s[i - |c| - 1]; }
    }
  }

  /** Lower case of a die is the die with a small `d`. */
  lemma LowerOfBase(lower: Lower, c: string, d: char, s: string)
    requires IsLowerCase(lower) && AllDigits(c) && IsD(d) && AllDigits(s)
    ensures lower(c + [d] + s) == c + "d" + s
  {
    var t := c + [d] + s;
    BaseChars(c, d, s);
    forall i | 0 <= i < |t| ensures LowerDice(t)[i] == (c + "d" + s)[i] {
      LowerDiceAt(t, i);
      if i < |c| { assert t[i] == c[i] && IsDigit(c[i]); } else if i > |c| { assert t[i] == s[i - |c| - 1] && IsDigit(s[i - |c| - 1]); }
    }
    assert LowerDice(t) == c + "d" + s;
  }

  // ------------------------------------------------------------------ bonuses

  lemma BonusOfText(n: int)
    ensures BonusOf(BonusText(n)) == Some(n)
  {
    var m: nat := if n >= 0 then n else -n;
    var t := BonusText(n);
    DecimalIsCanonical(m);
    ParseOfDecimal(m);
    assert t[1..] == Decimal(m) && IsSign(t[0]);
    LastDigit(Decimal(m));
    assert t[|t| - 1] == Decimal(m)[|Decimal(m)| - 1];
    SignStarts(t[0]);
    TrimOfNoSpace(t);
  }

  // ------------------------------------------------------------------ rebuilt specs

  lemma OnePart(lower: Lower, raw: RawDamage)
    requires Trim(raw.expression) != ""
    ensures DamagePartsFrom(lower, [raw]) == [PartOf(lower, raw)]
  {
    assert [raw][..0] == [] && DamagePartsFrom(lower, []) == [];
  }

  lemma OneBranch(outcome: string, parts: seq<Part>)
    ensures PartsOf([Branch(outcome, parts)]) == parts
  {
    assert [Branch(outcome, parts)][1..] == [];
  }

  /** The one part a spec of one raw entry rolls. */
  lemma SpecOfOne(lower: Lower, bonus: int, raw: RawDamage, ruleSystem: string)
    requires Trim(raw.expression) != ""
    ensures var s := AttackSpecOf(lower, bonus, [raw], ruleSystem);
      PartsOf(s.branches) == [PartOf(lower, raw)] && BonusOf(s.bonus) == Some(bonus)
  {
    OnePart(lower, raw);
    OneBranch("hit", [PartOf(lower, raw)]);
    BonusOfText(bonus);
  }

  /** The part of a display line, and the part its normalized expression expands to, are the same. */
  lemma LinePartSame(lower: Lower, line: string)
    requires IsLowerCase(lower) && MatchLine(line).Some?
    ensures var raw := RawOfLine(lower, MatchLine(line).value);
      && Trim(raw.expression) != "" && DamageLineToPart(lower, line).Some?
      && SamePart(lower, PartOf(lower, raw), DamageLineToPart(lower, line).value)
  {
    var l := MatchLine(line).value;
    LineIsGood(line);
    var x := DiceOfLine(line);
    var y := Tightened(x);
    NormalizedIs(x);
    TightenedIsGood(x);
    DiceIsTrimmed(y);
    ReadOfDice(y);
    LowerOfBase(lower, y.count, y.d, y.sides);
    LowerOfBase(lower, y.count, 'd', y.sides);
    assert FlatOf(l) == FlatOfDice(x);
  }

  predicate Readable(edited: Action) { BonusOf(edited.toHit).Some? && MatchLine(edited.damage).Some? }

  /** The spec the fields of an action stand for. */
  function FieldSpec(lower: Lower, edited: Action, ruleSystem: string): Spec
    requires Readable(edited)
  {
    AttackSpecOf(lower, BonusOf(edited.toHit).value, [RawOfLine(lower, MatchLine(edited.damage).value)], ruleSystem)
  }

  /** An action with the spec its fields stand for agrees with them. */
  lemma FieldSpecAgrees(lower: Lower, edited: Action, ruleSystem: string)
    requires IsLowerCase(lower) && Readable(edited)
    ensures SpecAgreesWithFields(lower, edited.(spec := Some(FieldSpec(lower, edited, ruleSystem))))
  {
    LinePartSame(lower, edited.damage);
    SpecOfOne(lower, BonusOf(edited.toHit).value, RawOfLine(lower, MatchLine(edited.damage).value), ruleSystem);
  }

  lemma ExpandedSpec(lower: Lower, name: string, bonus: int, raws: seq<RawDamage>, desc: string, ruleSystem: string)
    requires ExpandAttack(lower, name, bonus, raws, desc, ruleSystem).Some?
    ensures ExpandAttack(lower, name, bonus, raws, desc, ruleSystem).value.spec
      == Some(AttackSpecOf(lower, bonus, raws, ruleSystem))
  {}

  /** A rebuilt action is as it was, or has no spec, or the one its fields stand for. */
  lemma RebuildIsOneOf(lower: Lower, edited: Action, ruleSystem: string, types: Option<seq<string>>)
    ensures var r := RebuildEditedActionSpec(lower, edited, ruleSystem, types);
      || (r == edited && SpecAgreesWithFields(lower, edited))
      || r == edited.(spec := None)
      || (Readable(edited) && r == edited.(spec := Some(FieldSpec(lower, edited, ruleSystem))))
  {
    if Rebuildable(lower, edited, types) {
      var raw := RawOfLine(lower, MatchLine(edited.damage).value);
      if ExpandAttack(lower, edited.name, BonusOf(edited.toHit).value, [raw], edited.notes, ruleSystem).Some? {
        ExpandedSpec(lower, edited.name, BonusOf(edited.toHit).value, [raw], edited.notes, ruleSystem);
      }
    }
  }

  lemma NoSpecAgrees(lower: Lower, edited: Action)
    ensures SpecAgreesWithFields(lower, edited.(spec := None))
  {}

  /** Whatever is edited, a spec left on the result agrees with the fields beside it, which are as they were. */
  lemma LeftSpecAgrees(lower: Lower, edited: Action, ruleSystem: string, types: Option<seq<string>>)
    requires IsLowerCase(lower)
    ensures var r := RebuildEditedActionSpec(lower, edited, ruleSystem, types);
      SpecAgreesWithFields(lower, r) && r.(spec := None) == edited.(spec := None)
  {
    RebuildIsOneOf(lower, edited, ruleSystem, types);
    NoSpecAgrees(lower, edited);
    if Readable(edited) { FieldSpecAgrees(lower, edited, ruleSystem); }
  }

  /** An action without spec is rebuilt from its other fields alone. */
  lemma RebuildIgnoresStale(lower: Lower, edited: Action, ruleSystem: string, types: Option<seq<string>>)
    requires !SpecAgreesWithFields(lower, edited)
    ensures RebuildEditedActionSpec(lower, edited, ruleSystem, types)
      == RebuildEditedActionSpec(lower, edited.(spec := None), ruleSystem, types)
  {}

  lemma RebuildAgreeing(lower: Lower, edited: Action, ruleSystem: string, types: Option<seq<string>>)
    requires edited.spec.Some? && SpecAgreesWithFields(lower, edited)
    ensures RebuildEditedActionSpec(lower, edited, ruleSystem, types) == edited
  {}

  /** Rebuilding twice is rebuilding once. */
  lemma RebuildTwice(lower: Lower, edited: Action, ruleSystem: string, types: Option<seq<string>>)
    requires IsLowerCase(lower)
    ensures var once := RebuildEditedActionSpec(lower, edited, ruleSystem, types);
      RebuildEditedActionSpec(lower, once, ruleSystem, types) == once
  {
    var once := RebuildEditedActionSpec(lower, edited, ruleSystem, types);
    LeftSpecAgrees(lower, edited, ruleSystem, types);
    if once.spec.Some? {
      RebuildAgreeing(lower, once, ruleSystem, types);
    } else if !SpecAgreesWithFields(lower, edited) {
      RebuildIgnoresStale(lower, edited, ruleSystem, types);
      assert once == edited.(spec := None);
    } else if edited.spec.Some? {
      RebuildAgreeing(lower, edited, ruleSystem, types);
    } else {
      assert once == edited;
    }
  }
}
