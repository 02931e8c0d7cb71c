/** What an edited action displays and what its spec rolls, in the terms of the fields (equipped-item-action.ts). */
module ActionSpecMeaning {
  import opened Text
  import opened Sequences
  import opened Dice
  import opened DiceBounds
  import opened ActionSpec
  import opened ActionSpecText
  import opened ActionSpecAgreement
  import opened ActionSpecFixedPoint

  // ------------------------------------------------------------------ reading the fields

  /** A bonus is a whole number in digits, with or without a sign, white space around it left out. */
  lemma BonusIs(text: string, sign: string, digits: string)
    requires Trim(text) == sign + digits && digits != "" && AllDigits(digits) && (sign == "" || sign == "+" || sign == "-")
    ensures BonusOf(text) == Some(if sign == "-" then -1 * ParseDecimal(digits) else ParseDecimal(digits))
  {
    var t := Trim(text);
    if sign == "" { assert t == digits && !IsSign(t[0]); } else { assert t[0] == sign[0] && t[1..] == digits; }
  }

  /** Nothing else is a bonus. */
  lemma BonusHas(text: string) returns (sign: string, digits: string)
    requires BonusOf(text).Some?
    ensures Trim(text) == sign + digits && digits != "" && AllDigits(digits) && (sign == "" || sign == "+" || sign == "-")
  {
    var t := Trim(text);
    if IsSign(t[0]) { sign, digits := [t[0]], t[1..]; } else { sign, digits := "", t; }
  }

  /** Dice and a type on a display line: the die with its count, one when none is written, the signed number, the type in lower case. */
  lemma LinePart(lower: Lower, line: string, x: DiceText, g: string, typ: string)
    requires GoodDice(x) && ShortDice(x) && Gap(g) && TypeText(typ) && line == TextOf(x) + (g + typ)
    ensures DamageLineToPart(lower, line) == Some(Part((if x.count == "" then "1" else x.count) + "d" + x.sides,
      match x.modifier
      case None => 0
      case Some(m) => (if m.sign == '-' then -1 * ParseDecimal(m.digits) else ParseDecimal(m.digits)),
      lower(typ)))
  {
    LineOfDice(x, g, typ);
    TrimOfNoSpace(typ);
  }

  // ------------------------------------------------------------------ the parts of a spec

  /** The damage of all branches, in order. */
  ghost function AllDamage(branches: seq<Branch>): seq<Part> {
    if branches == [] then [] else AllDamage(branches[..|branches| - 1]) + branches[|branches| - 1].damage
  }

  lemma {:induction false} PartsAppended(branches: seq<Branch>, b: Branch)
    ensures PartsOf(branches + [b]) == PartsOf(branches) + b.damage
  {
    if branches == [] {
      OneBranch(b.outcome, b.damage);
      assert branches + [b] == [b] && [] + b.damage == b.damage;
    } else {
      assert (branches + [b])[1..] == branches[1..] + [b];
      PartsAppended(branches[1..], b);
      Assoc(branches[0].damage, PartsOf(branches[1..]), b.damage);
    }
  }

  lemma {:induction false} PartsAreAllDamage(branches: seq<Branch>)
    ensures PartsOf(branches) == AllDamage(branches)
  {
    if branches != [] {
      SplitLast(branches);
      PartsAreAllDamage(branches[..|branches| - 1]);
      PartsAppended(branches[..|branches| - 1], branches[|branches| - 1]);
    }
  }

  // ------------------------------------------------------------------ a spec and the fields beside it

  /** A bonus that the spec states is the one displayed. */
  ghost predicate RollsBonus(s: Spec, toHit: string) { BonusOf(s.bonus).Some? ==> BonusOf(toHit) == BonusOf(s.bonus) }

  /**
   * Of a spec without damage the line shows none; the one part of a spec is the part that the line shows, or the line
   * says something else and the spec states no bonus; a spec of several parts is not compared.
   */
  ghost predicate RollsDamage(lower: Lower, s: Spec, damage: string) {
    var parts, shown := AllDamage(s.branches), DamageLineToPart(lower, damage);
    if |parts| == 0 then shown == None
    else if |parts| > 1 then true
    else
      match shown
      case Some(line) =>
        lower(parts[0].formula) == lower(line.formula) && parts[0].flat == line.flat && lower(parts[0].typ) == line.typ
      case None => Trim(damage) != "" && BonusOf(s.bonus) == None
  }

  ghost predicate RollsFields(lower: Lower, s: Spec, a: Action) {
    RollsBonus(s, a.toHit) && RollsDamage(lower, s, a.damage)
  }

  lemma AgreesIff(lower: Lower, a: Action)
    requires a.spec.Some?
    ensures SpecAgreesWithFields(lower, a) <==> RollsFields(lower, a.spec.value, a)
  {
    PartsAreAllDamage(a.spec.value.branches);
  }

  /** Whatever is edited, a spec left on the result rolls what the fields display. */
  lemma LeftSpecRollsFields(lower: Lower, edited: Action, ruleSystem: string, types: Option<seq<string>>)
    requires IsLowerCase(lower)
    ensures var r := RebuildEditedActionSpec(lower, edited, ruleSystem, types);
      && r.(spec := None) == edited.(spec := None)
      && (r.spec.Some? ==> RollsFields(lower, r.spec.value, edited))
  {
    var r := RebuildEditedActionSpec(lower, edited, ruleSystem, types);
    LeftSpecAgrees(lower, edited, ruleSystem, types);
    if r.spec.Some? { AgreesIff(lower, r); }
  }

  /** A spec that is supplied and rolls what the fields display is left as it is. */
  lemma SuppliedSpecStands(lower: Lower, edited: Action, ruleSystem: string, types: Option<seq<string>>)
    requires edited.spec.Some? && RollsFields(lower, edited.spec.value, edited)
    ensures RebuildEditedActionSpec(lower, edited, ruleSystem, types) == edited
  {
    AgreesIff(lower, edited);
    RebuildAgreeing(lower, edited, ruleSystem, types);
  }

  // ------------------------------------------------------------------ when a spec is rebuilt

  /** The system has no vocabulary, or the type is of it in some case. */
  ghost predicate InVocabulary(lower: Lower, types: Option<seq<string>>, typ: string) {
    match types
    case None => true
    case Some(known) => exists t :: t in known && lower(t) == typ
  }

  /** The fields state a bonus of at most 999 either way, and rollable dice with a known type of at most 24 characters. */
  ghost predicate FieldsReadable(lower: Lower, a: Action, types: Option<seq<string>>) {
    && BonusOf(a.toHit).Some? && -999 <= BonusOf(a.toHit).value <= 999
    && MatchLine(a.damage).Some? && IsRollableDamageExpression(MatchLine(a.damage).value.expression)
    && 1 <= |lower(Trim(MatchLine(a.damage).value.typ))| <= 24
    && InVocabulary(lower, types, lower(Trim(MatchLine(a.damage).value.typ)))
  }

  lemma ReadableIff(lower: Lower, a: Action, types: Option<seq<string>>)
    ensures Rebuildable(lower, a, types) <==> FieldsReadable(lower, a, types)
  {
    if MatchLine(a.damage).Some? {
      var typ := lower(Trim(MatchLine(a.damage).value.typ));
      VocabularyIff(lower, types, typ);
    }
  }

  lemma VocabularyIff(lower: Lower, types: Option<seq<string>>, typ: string)
    ensures KnownType(lower, types, typ) <==> InVocabulary(lower, types, typ)
  {
    if types.Some? && InVocabulary(lower, types, typ) {
      var t :| t in types.value && lower(t) == typ;
      var i :| 0 <= i < |types.value| && types.value[i] == t;
    }
  }

  /** An attack for one hit of one part, with the bonus and the dice that the fields display. */
  ghost predicate AttackOfFields(lower: Lower, s: Spec, a: Action, ruleSystem: string) {
    && s.mode == "attack" && s.ability == "" && s.ruleSystem == ruleSystem
    && |s.branches| == 1 && s.branches[0].outcome == "hit" && |s.branches[0].damage| == 1
    && BonusOf(s.bonus) == BonusOf(a.toHit) && RollsDamage(lower, s, a.damage) && DamageLineToPart(lower, a.damage).Some?
  }

  lemma FieldSpecIs(lower: Lower, a: Action, ruleSystem: string)
    requires IsLowerCase(lower) && Readable(a)
    ensures AttackOfFields(lower, FieldSpec(lower, a, ruleSystem), a, ruleSystem)
  {
    var raw, n := RawOfLine(lower, MatchLine(a.damage).value), BonusOf(a.toHit).value;
    LinePartSame(lower, a.damage);
    OnePart(lower, raw);
    SpecOfOne(lower, n, raw, ruleSystem);
    PartsAreAllDamage(FieldSpec(lower, a, ruleSystem).branches);
    assert FieldSpec(lower, a, ruleSystem).branches == [Branch("hit", [PartOf(lower, raw)])];
  }

  /**
   * Otherwise the spec is rebuilt as an attack from the fields when these can be read, and left out when they cannot.
   */
  lemma OtherwiseRebuilt(lower: Lower, edited: Action, ruleSystem: string, types: Option<seq<string>>)
    requires IsLowerCase(lower) && (edited.spec.Some? ==> !RollsFields(lower, edited.spec.value, edited))
    ensures var r := RebuildEditedActionSpec(lower, edited, ruleSystem, types);
      if FieldsReadable(lower, edited, types) then r.spec.Some? && AttackOfFields(lower, r.spec.value, edited, ruleSystem)
      else r.spec == None
  {
    if edited.spec.Some? { AgreesIff(lower, edited); }
    ReadableIff(lower, edited, types);
    if Rebuildable(lower, edited, types) {
      ReadableIsRebuilt(lower, edited, ruleSystem, types);
      FieldSpecIs(lower, edited, ruleSystem);
    } else {
      OtherwiseNoSpec(lower, edited, ruleSystem, types);
    }
  }

  // ------------------------------------------------------------------ damage lists

  lemma {:induction false} PartsJoin(lower: Lower, a: seq<RawDamage>, b: seq<RawDamage>)
    ensures DamagePartsFrom(lower, a + b) == DamagePartsFrom(lower, a) + DamagePartsFrom(lower, b)
  {
    if b == [] {
      assert a + b == a && DamagePartsFrom(lower, a) + [] == DamagePartsFrom(lower, a);
    } else {
      var init, last := b[..|b| - 1], b[|b| - 1];
      assert (a + b)[..|a + b| - 1] == a + init && (a + b)[|a + b| - 1] == last;
      PartsJoin(lower, a, init);
      Assoc(DamagePartsFrom(lower, a), DamagePartsFrom(lower, init), [PartOf(lower, last)]);
    }
  }

  /** Entries with an expression give a part each, in order; the others none. */
  lemma PartsOfList(lower: Lower, raws: seq<RawDamage>, raw: RawDamage)
    ensures DamagePartsFrom(lower, []) == []
    ensures DamagePartsFrom(lower, [raw] + raws) ==
      (if Trim(raw.expression) == "" then [] else [PartOf(lower, raw)]) + DamagePartsFrom(lower, raws)
  {
    PartsJoin(lower, [raw], raws);
    if Trim(raw.expression) != "" { OnePart(lower, raw); } else { assert [raw][..0] == []; }
  }

  lemma {:induction false} BitsJoin(a: seq<RawDamage>, b: seq<RawDamage>)
    ensures DamageBits(a + b) == DamageBits(a) + DamageBits(b)
  {
    if b == [] {
      assert a + b == a && DamageBits(a) + [] == DamageBits(a);
    } else {
      var init, last := b[..|b| - 1], b[|b| - 1];
      assert (a + b)[..|a + b| - 1] == a + init && (a + b)[|a + b| - 1] == last;
      BitsJoin(a, init);
      Assoc(DamageBits(a), DamageBits(init), [DamageBit(last)]);
    }
  }

  lemma OneBitOnly(raw: RawDamage)
    ensures DamageBits([raw]) == if DamageBit(raw) == "" then [] else [DamageBit(raw)]
  {
    assert [raw][..0] == [] && DamageBits([]) == [];
  }

  /** The display text: that of the first entry, and ` + ` before that of the others, unless one of them is empty. */
  lemma FormatOfList(raws: seq<RawDamage>, raw: RawDamage)
    ensures FormatDamageList([]) == ""
    ensures var first := Trim(if raw.typ == "" then raw.expression else raw.expression + " " + raw.typ);
      var rest := FormatDamageList(raws);
      FormatDamageList([raw] + raws) == if first == "" then rest else if rest == "" then first else first + " + " + rest
  {
    BitsJoin([raw], raws);
    OneBitOnly(raw);
    JoinEmpty(DamageBits(raws));
    BitsNotEmpty(raws);
    var bits := DamageBits(raws);
    if DamageBit(raw) == "" { assert [] + bits == bits; }
    else { assert ([DamageBit(raw)] + bits)[1..] == bits; }
  }

  lemma {:induction false} BitsNotEmpty(raws: seq<RawDamage>)
    ensures forall i :: 0 <= i < |DamageBits(raws)| ==> DamageBits(raws)[i] != ""
  {
    if raws != [] { BitsNotEmpty(raws[..|raws| - 1]); }
  }

  lemma JoinEmpty(bits: seq<string>)
    ensures (forall i :: 0 <= i < |bits| ==> bits[i] != "") ==> (JoinPlus(bits) == "" <==> bits == [])
  {
    if bits != [] && bits[0] != "" { assert |JoinPlus(bits)| >= |bits[0]|; }
  }

  /** The part of an entry: a die with a count and its signed number apart, anything else whole; the type in lower case. */
  lemma PartIs(lower: Lower, raw: RawDamage)
    ensures forall x: DiceText :: GoodDice(x) && x.count != "" && Trim(raw.expression) == TextOf(x) ==>
      PartOf(lower, raw) == Part(x.count + [x.d] + x.sides,
        match x.modifier
        case None => 0
        case Some(m) => (if m.sign == '-' then -1 * ParseDecimal(m.digits) else ParseDecimal(m.digits)),
        lower(raw.typ))
    ensures (forall x: DiceText :: GoodDice(x) && x.count != "" ==> Trim(raw.expression) != TextOf(x)) ==>
      PartOf(lower, raw) == Part(Trim(raw.expression), 0, lower(raw.typ))
  {
    forall x: DiceText | GoodDice(x) && x.count != "" && Trim(raw.expression) == TextOf(x)
      ensures ReadExpression(raw.expression) == Some((BaseOf(x), FlatOfDice(x)))
    {
      ReadOfDice(x);
      TrimReads(raw.expression);
    }
    if ReadExpression(raw.expression).Some? { var x := DiceOfRead(raw.expression); }
  }

  /** An expanded attack: the name, the signed bonus and the damage list as texts, the description cut, and the spec. */
  lemma ExpandedIs(lower: Lower, name: string, bonus: int, raws: seq<RawDamage>, desc: string, ruleSystem: string, a: Action)
    requires ExpandAttack(lower, name, bonus, raws, desc, ruleSystem) == Some(a)
    ensures Trim(name) == "" ==> a.name == "Action"
    ensures Trim(name) != "" ==> a.name <= Trim(name) && |a.name| == (if |Trim(name)| <= 120 then |Trim(name)| else 120)
    ensures BonusOf(a.toHit) == Some(bonus) && a.toHit != "" && IsSign(a.toHit[0])
    ensures a.kind == "attack" && a.targetAc == "AC" && a.damage == FormatDamageList(raws)
    ensures a.notes <= desc && |a.notes| == (if |desc| <= 500 then |desc| else 500)
    ensures a.spec.Some? && a.spec.value.mode == "attack" && a.spec.value.bonus == a.toHit && a.spec.value.ability == ""
    ensures a.spec.value.ruleSystem == ruleSystem && AllDamage(a.spec.value.branches) == DamagePartsFrom(lower, raws)
  {
    BonusOfText(bonus);
    var parts := DamagePartsFrom(lower, raws);
    if parts != [] {
      assert a.spec.value.branches == [Branch("hit", parts)];
      OneBranch("hit", parts);
    }
    PartsAreAllDamage(a.spec.value.branches);
  }

  /** An attack is expanded exactly when its bonus, its damage text and its parts are within the bounds of the schemas. */
  lemma ExpandsIff(lower: Lower, name: string, bonus: int, raws: seq<RawDamage>, desc: string, ruleSystem: string)
    ensures ExpandAttack(lower, name, bonus, raws, desc, ruleSystem).Some? <==>
      && |BonusText(bonus)| <= 20 && |FormatDamageList(raws)| <= 80 && |DamagePartsFrom(lower, raws)| <= 12
      && forall p :: p in DamagePartsFrom(lower, raws) ==> |p.formula| <= 60 && -999 <= p.flat <= 999 && |p.typ| <= 24
  {
    var parts, s := DamagePartsFrom(lower, raws), AttackSpecOf(lower, bonus, raws, ruleSystem);
    if parts != [] {
      assert s.branches == [Branch("hit", parts)] && s.branches[0] in s.branches;
    }
    forall p | p in parts ensures PartFits(p) <==> |p.formula| <= 60 && -999 <= p.flat <= 999 && |p.typ| <= 24 {}
  }
}
