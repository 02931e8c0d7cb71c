/** The damage of an attack derived from an equipped weapon (packages/schema/src/equipped-item-action.ts). */
module DerivedAttack {
  import opened Text
  import opened Dice
  import opened DiceBounds
  import opened ActionSpec
  import opened ActionSpecText
  import opened ActionSpecAgreement
  import opened ActionSpecFixedPoint

  /** The weapon's dice without white space: a die, and at most three digits after a sign. */
  predicate WeaponDice(s: string) {
    MatchCompactDie(Before(s)).Some? && (After(s).Some? ==> DigitsUpTo(After(s).value, 3))
  }

  /** The die with an explicit count. */
  function BaseDice(s: string): string
    requires WeaponDice(s)
  {
    var die := Before(s);
    if IsD(die[0]) then "1d" + die[1..] else die
  }

  function WeaponFlat(s: string): int
    requires WeaponDice(s)
  {
    if After(s).Some? then SignedValue(s[NextSign(s, 0)], After(s).value) else 0
  }

  function WithModifier(base: string, total: int): string { base + if total == 0 then "" else BonusText(total) }

  /** The die of a weapon, and its own modifier and the ability's as one number. */
  function WeaponBase(damageDice: string): string
    requires WeaponDice(StripSpaces(damageDice))
  {
    BaseDice(StripSpaces(damageDice))
  }

  function TotalFlat(damageDice: string, damageMod: int): int
    requires WeaponDice(StripSpaces(damageDice))
  {
    WeaponFlat(StripSpaces(damageDice)) + damageMod
  }

  function DamageExpression(damageDice: string, damageMod: int): Option<string> {
    if !WeaponDice(StripSpaces(damageDice)) then None
    else Some(WithModifier(WeaponBase(damageDice), TotalFlat(damageDice, damageMod)))
  }

  lemma DieParts(die: string) returns (c: string, d: char, s: string)
    requires MatchCompactDie(die).Some?
    ensures AllDigits(c) && IsD(d) && s != "" && AllDigits(s) && die == c + [d] + s && (IsD(die[0]) <==> c == "")
  {
    var n := DigitRun(die);
    c, d, s := die[..n], die[n], die[n + 1..];
    SplitAtIndex(die, n);
    if c != "" { DigitStarts(c); }
  }

  /** A signed number as a modifier without white space. */
  function TightModifier(n: int): Written
    requires n != 0
  {
    Written("", if n > 0 then '+' else '-', "", Decimal(Abs(n)))
  }

  lemma TightModifierIs(n: int)
    requires n != 0
    ensures GoodWritten(TightModifier(n)) && WrittenText(TightModifier(n)) == BonusText(n)
    ensures SignedValue(TightModifier(n).sign, TightModifier(n).digits) == n
  {
    ParseOfDecimal(Abs(n));
    assert "" + ([TightModifier(n).sign] + ("" + Decimal(Abs(n)))) == [TightModifier(n).sign] + Decimal(Abs(n));
  }

  /** A die with a count and a number added to it reads as the two. */
  lemma WithModifierReads(c: string, d: char, sides: string, total: int)
    requires c != "" && AllDigits(c) && IsD(d) && sides != "" && AllDigits(sides)
    ensures ReadExpression(WithModifier(c + [d] + sides, total)) == Some((c + [d] + sides, total))
  {
    var m := if total == 0 then None else Some(TightModifier(total));
    if total != 0 { TightModifierIs(total); }
    Regrouped2(c, d, sides, ModifierText(m));
    ReadOfDice(DiceText(c, d, sides, m));
  }

  /** The dice and modifier of a derived expression. */
  lemma DerivedReads(s: string, total: int)
    requires WeaponDice(s)
    ensures ReadExpression(WithModifier(BaseDice(s), total)) == Some((BaseDice(s), total))
  {
    var c, d, sides := DieParts(Before(s));
    BaseOfWeapon(s, c, d, sides);
    WithModifierReads(if c == "" then "1" else c, if c == "" then 'd' else d, sides, total);
  }

  lemma BaseOfWeapon(s: string, c: string, d: char, sides: string)
    requires WeaponDice(s) && Before(s) == c + [d] + sides && (IsD(Before(s)[0]) <==> c == "") && AllDigits(c)
    ensures BaseDice(s) == (if c == "" then "1" else c) + [if c == "" then 'd' else d] + sides
  {
    if c == "" {
      assert "" + [d] + sides == [d] + sides && ([d] + sides)[1..] == sides;
      assert "1d" + sides == "1" + ['d'] + sides;
    }
  }

  /** An expanded part that splits into dice and a number rolls these, and rebuilds to itself. */
  lemma SplitIsFixedPoint(lower: Lower, name: string, bonus: int, raw: RawDamage, base: string, flat: int,
      desc: string, ruleSystem: string, types: Option<seq<string>>, a: Action)
    requires IsLowerCase(lower) && Word(raw.typ) && IsRollableDamageExpression(raw.expression)
    requires ReadExpression(raw.expression) == Some((base, flat)) && ExpandsTo(lower, name, bonus, raw, desc, ruleSystem, a)
    ensures a.spec.Some? && PartsOf(a.spec.value.branches) == [Part(base, flat, lower(raw.typ))]
    ensures RebuildEditedActionSpec(lower, a, ruleSystem, types) == a
  {
    FixedPointIff(lower, name, bonus, raw, desc, ruleSystem, types, a);
    RollableChars(raw.expression);
    ExpandedFields(lower, name, bonus, raw, desc, ruleSystem, a);
  }

  lemma DerivedSplits(damageDice: string, damageMod: int, e: string)
    requires DamageExpression(damageDice, damageMod) == Some(e)
    ensures WeaponDice(StripSpaces(damageDice))
    ensures ReadExpression(e) == Some((WeaponBase(damageDice), TotalFlat(damageDice, damageMod)))
  {
    DerivedReads(StripSpaces(damageDice), TotalFlat(damageDice, damageMod));
  }

  /**
   * A derived attack rolls the weapon's dice alone and both modifiers as one flat number, and editing it without
   * a change gives it back.
   */
  lemma DerivedIsFixedPoint(lower: Lower, name: string, bonus: int, damageDice: string, damageMod: int, raw: RawDamage,
      desc: string, ruleSystem: string, types: Option<seq<string>>, a: Action)
    requires IsLowerCase(lower) && DamageExpression(damageDice, damageMod) == Some(raw.expression)
    requires Word(raw.typ) && IsRollableDamageExpression(raw.expression)
    requires ExpandsTo(lower, name, bonus, raw, desc, ruleSystem, a)
    ensures WeaponDice(StripSpaces(damageDice)) && a.spec.Some?
    ensures PartsOf(a.spec.value.branches) == [Part(WeaponBase(damageDice), TotalFlat(damageDice, damageMod), lower(raw.typ))]
    ensures RebuildEditedActionSpec(lower, a, ruleSystem, types) == a
  {
    DerivedSplits(damageDice, damageMod, raw.expression);
    SplitIsFixedPoint(lower, name, bonus, raw, WeaponBase(damageDice), TotalFlat(damageDice, damageMod), desc, ruleSystem,
      types, a);
  }

  // ------------------------------------------------------------------ what is derived

  function Number(sign: string, digits: string): int
    requires AllDigits(digits)
  {
    var value: int := ParseDecimal(digits);
    if sign == "-" then -1 * value else value
  }

  /** Weapon dice taken apart: at most two digits, `d`, one to three digits, and perhaps a signed number of one to three. */
  predicate WeaponParts(s: string, c: string, d: char, sides: string, sign: string, digits: string) {
    && s == c + [d] + sides + sign + digits && |c| <= 2 && AllDigits(c) && d in {'d', 'D'}
    && 1 <= |sides| <= 3 && AllDigits(sides) && AllDigits(digits)
    && (if sign == "" then digits == "" else (sign == "+" || sign == "-") && 1 <= |digits| <= 3)
  }

  lemma CompactOfParts(c: string, d: char, sides: string)
    requires |c| <= 2 && AllDigits(c) && IsD(d) && DigitsUpTo(sides, 3)
    ensures MatchCompactDie(c + [d] + sides) == Some(DieMatch(c, sides, "")) && HasNoSign(c + [d] + sides)
  {
    var h := c + [d] + sides;
    DigitRunOf(c, [d] + sides);
    assert h == c + ([d] + sides) && h[..|c|] == c && h[|c|] == d && h[|c| + 1..] == sides;
    forall i | 0 <= i < |h| ensures !IsSign(h[i]) {
      if i < |c| { assert IsDigit(c[i]); } else if i > |c| { assert h[i] == sides[i - |c| - 1]; }
    }
  }

  lemma PartsAreWeapon(s: string, c: string, d: char, sides: string, sign: string, digits: string)
    requires WeaponParts(s, c, d, sides, sign, digits)
    ensures WeaponDice(s) && Before(s) == c + [d] + sides && WeaponFlat(s) == Number(sign, digits)
  {
    var die := c + [d] + sides;
    CompactOfParts(c, d, sides);
    if sign == "" {
      assert s == die + "" + "" == die && ParseDecimal("") == 0;
      SplitUnsigned(die);
    } else {
      assert sign == [sign[0]];
      SplitAtSign(die, sign[0], digits);
      Rejoin(s);
    }
  }

  /** The derived damage: the die with its count, one when none is written, and both modifiers added, none written for 0. */
  lemma DerivedIs(damageDice: string, damageMod: int, c: string, d: char, sides: string, sign: string, digits: string)
    requires WeaponParts(StripSpaces(damageDice), c, d, sides, sign, digits)
    ensures var die, total := (if c == "" then "1d" else c + [d]) + sides, Number(sign, digits) + damageMod;
      DamageExpression(damageDice, damageMod) == Some(
        if total == 0 then die else if total < 0 then die + ("-" + Decimal(-total)) else die + ("+" + Decimal(total)))
  {
    var s := StripSpaces(damageDice);
    PartsAreWeapon(s, c, d, sides, sign, digits);
    BareDie(c, d, sides);
    BaseOfWeapon(s, c, d, sides);
    if c == "" { assert "1" + ['d'] == "1d"; }
    assert WithModifier(WeaponBase(damageDice), 0) == WeaponBase(damageDice) + "" == WeaponBase(damageDice);
  }

  lemma BareDie(c: string, d: char, sides: string)
    requires AllDigits(c) && IsD(d)
    ensures IsD((c + [d] + sides)[0]) <==> c == ""
  {
    if c != "" { assert (c + [d] + sides)[0] == c[0] && IsDigit(c[0]); }
  }

  /** Nothing is derived from a text that is no weapon dice. */
  lemma DerivedHas(damageDice: string, damageMod: int) returns (c: string, d: char, sides: string, sign: string, digits: string)
    requires DamageExpression(damageDice, damageMod).Some?
    ensures WeaponParts(StripSpaces(damageDice), c, d, sides, sign, digits)
  {
    var s := StripSpaces(damageDice);
    Rejoin(s);
    c, d, sides := CompactParts(Before(s));
    var die := Before(s);
    if After(s).Some? {
      sign, digits := [s[NextSign(s, 0)]], After(s).value;
    } else {
      sign, digits := "", "";
      assert die + "" + "" == die;
    }
  }

  lemma SplitThree(t: string, n: nat)
    requires n < |t|
    ensures t == t[..n] + [t[n]] + t[n + 1..]
  {}

  lemma CompactParts(die: string) returns (c: string, d: char, sides: string)
    requires MatchCompactDie(die).Some?
    ensures |c| <= 2 && AllDigits(c) && d in {'d', 'D'} && 1 <= |sides| <= 3 && AllDigits(sides) && die == c + [d] + sides
  {
    var n := DigitRun(die);
    SplitThree(die, n);
    c, d, sides := die[..n], die[n], die[n + 1..];
  }
}
