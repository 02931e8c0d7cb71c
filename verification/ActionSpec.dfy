/** The display line of an attack and the spec that is rolled (equipped-item-action.ts, combatant-statblock.ts). */
module ActionSpec {
  import opened Text
  import opened Dice
  import opened DiceBounds

  datatype Part = Part(formula: string, flat: int, typ: string)

  datatype Branch = Branch(outcome: string, damage: seq<Part>)

  datatype Spec = Spec(mode: string, bonus: string, ability: string, branches: seq<Branch>, ruleSystem: string)

  datatype Action =
    Action(name: string, kind: string, toHit: string, damage: string, targetAc: string, notes: string, spec: Option<Spec>)

  /** One entry of a statblock's damage list. */
  datatype RawDamage = RawDamage(expression: string, typ: string)

  /** `toLowerCase`. */
  type Lower = string -> string

  const MAX_ATTACK_BONUS_ABS := 999
  const MAX_DAMAGE_TYPE_LENGTH := 24

  function SignedValue(sign: char, digits: string): int
    requires AllDigits(digits)
  {
    var value: int := ParseDecimal(digits);
    if sign == '-' then -1 * value else value
  }

  // ------------------------------------------------------------------ display line

  /** A character that `.` does not match. */
  predicate LineBreak(c: char) { c == '\n' || c == '\r' || c == '\U{2028}' || c == '\U{2029}' }

  predicate OneLine(s: string) { forall i :: 0 <= i < |s| ==> !LineBreak(s[i]) }

  /** A modifier at the start of a text, white space around its sign, and white space after it. */
  datatype ModifierMatch = ModifierMatch(sign: char, digits: string, size: nat)

  function MatchModifier(s: string): Option<ModifierMatch> {
    var u := TrimStart(s);
    if u == "" || !IsSign(u[0]) then None
    else
      var v := TrimStart(u[1..]);
      var k := DigitRun(v);
      TrimStartShrinks(s);
      TrimStartShrinks(u[1..]);
      if 1 <= k <= 3 && k < |v| && IsSpace(v[k]) then Some(ModifierMatch(u[0], v[..k], |s| - |v| + k)) else None
  }

  datatype LineMatch =
    LineMatch(count: string, d: char, sides: string, modifier: Option<ModifierMatch>, expression: string, typ: string)

  /** The patterns of `damageLineToPart` and of the editor: dice, an optional modifier, white space, a type. */
  function MatchLine(line: string): Option<LineMatch> {
    var t := Trim(line);
    var n := DigitRun(t);
    if n > 2 || n == |t| || !IsD(t[n]) then None else MatchAfterD(t[..n], t[n], t[n + 1..])
  }

  function MatchAfterD(count: string, d: char, rest: string): Option<LineMatch> {
    var m := DigitRun(rest);
    if m < 1 || m > 3 then None else MatchType(count, d, rest[..m], rest[m..])
  }

  function MatchType(count: string, d: char, sides: string, after: string): Option<LineMatch> {
    var modifier := MatchModifier(after);
    var size := if modifier.Some? then modifier.value.size else 0;
    if size >= |after| || !IsSpace(after[size]) then None
    else
      var typ := TrimStart(after[size..]);
      if typ == "" || !OneLine(typ) then None
      else Some(LineMatch(count, d, sides, modifier, count + [d] + sides + after[..size], typ))
  }

  predicate GoodLine(m: LineMatch) {
    && AllDigits(m.count) && |m.count| <= 2 && IsD(m.d) && DigitsUpTo(m.sides, 3) && m.typ != ""
    && (m.modifier.Some? ==> IsSign(m.modifier.value.sign) && DigitsUpTo(m.modifier.value.digits, 3))
  }

  lemma LineIsGood(line: string)
    requires MatchLine(line).Some?
    ensures GoodLine(MatchLine(line).value)
  {}

  function FlatOf(m: LineMatch): int
    requires GoodLine(m)
  {
    if m.modifier.Some? then SignedValue(m.modifier.value.sign, m.modifier.value.digits) else 0
  }

  /** `damageLineToPart`. */
  function DamageLineToPart(lower: Lower, line: string): Option<Part> {
    match MatchLine(line)
    case None => None
    case Some(m) =>
      LineIsGood(line);
      Some(Part((if m.count == "" then "1" else m.count) + "d" + m.sides, FlatOf(m), lower(Trim(m.typ))))
  }

  /** A signed whole number and nothing else. */
  function BonusOf(text: string): Option<int> {
    var t := Trim(text);
    if t != "" && IsSign(t[0]) then
      if t[1..] != "" && AllDigits(t[1..]) then Some(SignedValue(t[0], t[1..])) else None
    else if t != "" && AllDigits(t) then Some(ParseDecimal(t)) else None
  }

  function BonusText(n: int): string { if n >= 0 then "+" + Decimal(n) else "-" + Decimal(-n) }

  // ------------------------------------------------------------------ statblock expansion

  /** A die with an explicit count, and an optional modifier to the end. */
  function ReadExpression(expr: string): Option<(string, int)> {
    var t := Trim(expr);
    var n := DigitRun(t);
    if n == 0 || n == |t| || !IsD(t[n]) then None else ReadSides(t[..n + 1], t[n + 1..])
  }

  function ReadSides(head: string, rest: string): Option<(string, int)> {
    var m := DigitRun(rest);
    if m == 0 then None
    else if m == |rest| then Some((head + rest, 0))
    else
      match ReadModifier(rest[m..])
      case None => None
      case Some(flat) => Some((head + rest[..m], flat))
  }

  function ReadModifier(s: string): Option<int> {
    var u := TrimStart(s);
    if u == "" || !IsSign(u[0]) then None
    else
      var v := TrimStart(u[1..]);
      if v != "" && AllDigits(v) then Some(SignedValue(u[0], v)) else None
  }

  function PartOf(lower: Lower, raw: RawDamage): Part {
    match ReadExpression(raw.expression)
    case None => Part(Trim(raw.expression), 0, lower(raw.typ))
    case Some((base, flat)) => Part(base, flat, lower(raw.typ))
  }

  function DamagePartsFrom(lower: Lower, raws: seq<RawDamage>): seq<Part> {
    if raws == [] then []
    else
      var rest := DamagePartsFrom(lower, raws[..|raws| - 1]);
      if Trim(raws[|raws| - 1].expression) == "" then rest else rest + [PartOf(lower, raws[|raws| - 1])]
  }

  function DamageBit(raw: RawDamage): string {
    if raw.typ != "" then Trim(raw.expression + " " + raw.typ) else Trim(raw.expression)
  }

  function DamageBits(raws: seq<RawDamage>): seq<string> {
    if raws == [] then []
    else
      var rest := DamageBits(raws[..|raws| - 1]);
      var bit := DamageBit(raws[|raws| - 1]);
      if bit == "" then rest else rest + [bit]
  }

  function JoinPlus(bits: seq<string>): string {
    if bits == [] then "" else if |bits| == 1 then bits[0] else bits[0] + " + " + JoinPlus(bits[1..])
  }

  function FormatDamageList(raws: seq<RawDamage>): string { JoinPlus(DamageBits(raws)) }

  /** What the schemas of a spec and of an action accept. */
  predicate PartFits(p: Part) { |p.formula| <= 60 && -999 <= p.flat <= 999 && |p.typ| <= 24 }

  predicate SpecFits(s: Spec) {
    |s.bonus| <= 20 && forall b :: b in s.branches ==> |b.damage| <= 12 && forall p :: p in b.damage ==> PartFits(p)
  }

  predicate ActionFits(a: Action) {
    && 1 <= |a.name| <= 120 && |a.kind| <= 40 && |a.toHit| <= 20 && |a.damage| <= 80 && |a.targetAc| <= 20
    && |a.notes| <= 500 && (a.spec.Some? ==> SpecFits(a.spec.value))
  }

  function Take(s: string, n: nat): string { if |s| <= n then s else s[..n] }

  function AttackSpecOf(lower: Lower, bonus: int, raws: seq<RawDamage>, ruleSystem: string): Spec {
    var parts := DamagePartsFrom(lower, raws);
    Spec("attack", BonusText(bonus), "", if parts == [] then [] else [Branch("hit", parts)], ruleSystem)
  }

  /** The attack branch of `expandRawStatblockAction`; none when a schema refuses the result. */
  function ExpandAttack(lower: Lower, name: string, bonus: int, raws: seq<RawDamage>, desc: string, ruleSystem: string): Option<Action> {
    var named := Take(Trim(name), 120);
    var a := Action(if named == "" then "Action" else named, "attack", BonusText(bonus), FormatDamageList(raws), "AC",
      Take(desc, 500), Some(AttackSpecOf(lower, bonus, raws, ruleSystem)));
    if ActionFits(a) then Some(a) else None
  }

  // ------------------------------------------------------------------ agreement

  function PartsOf(branches: seq<Branch>): seq<Part> {
    if branches == [] then [] else branches[0].damage + PartsOf(branches[1..])
  }

  /** A part rolls what the display line says. */
  predicate SamePart(lower: Lower, p: Part, field: Part) {
    lower(p.formula) == lower(field.formula) && p.flat == field.flat && lower(p.typ) == field.typ
  }

  /** `specAgreesWithFields`. */
  predicate SpecAgreesWithFields(lower: Lower, edited: Action) {
    edited.spec.None? ||
      (var spec := edited.spec.value;
       var bonus, parts, field := BonusOf(spec.bonus), PartsOf(spec.branches), DamageLineToPart(lower, edited.damage);
       && (bonus.Some? ==> bonus == BonusOf(edited.toHit))
       && (|parts| == 0 ==> field.None?)
       && (|parts| == 1 && field.Some? ==> SamePart(lower, parts[0], field.value))
       && (|parts| == 1 && field.None? ==> Trim(edited.damage) != "" && bonus.None?))
  }

  /** Spaces out, and a bare `d` written as one die. */
  function Normalized(expression: string): string {
    var s := StripSpaces(expression);
    if s != "" && IsD(s[0]) then "1d" + s[1..] else s
  }

  function Abs(n: int): nat { if n < 0 then -n else n }

  predicate KnownType(lower: Lower, types: Option<seq<string>>, typ: string) {
    types.Some? ==> exists i :: 0 <= i < |types.value| && lower(types.value[i]) == typ
  }

  /** The fields can be read as a bonus and a rollable, typed damage expression. */
  predicate Rebuildable(lower: Lower, edited: Action, types: Option<seq<string>>) {
    var bonus, line := BonusOf(edited.toHit), MatchLine(edited.damage);
    && bonus.Some? && Abs(bonus.value) <= MAX_ATTACK_BONUS_ABS && line.Some?
    && IsRollableDamageExpression(line.value.expression)
    && (var typ := lower(Trim(line.value.typ));
        typ != "" && |typ| <= MAX_DAMAGE_TYPE_LENGTH && KnownType(lower, types, typ))
  }

  /** The statblock entry a display line is rebuilt from. */
  function RawOfLine(lower: Lower, line: LineMatch): RawDamage {
    RawDamage(Normalized(line.expression), lower(Trim(line.typ)))
  }

  /** `rebuildEditedActionSpec`. */
  function RebuildEditedActionSpec(lower: Lower, edited: Action, ruleSystem: string, types: Option<seq<string>>): Action {
    if edited.spec.Some? && SpecAgreesWithFields(lower, edited) then edited
    else if !Rebuildable(lower, edited, types) then edited.(spec := None)
    else
      var raw := RawOfLine(lower, MatchLine(edited.damage).value);
      match ExpandAttack(lower, edited.name, BonusOf(edited.toHit).value, [raw], edited.notes, ruleSystem)
      case None => edited.(spec := None)
      case Some(rebuilt) => edited.(spec := rebuilt.spec)
  }

  // ------------------------------------------------------------------ the loops

  method FormatDamage(raws: seq<RawDamage>) returns (s: string)
    ensures s == FormatDamageList(raws)
  {
    var parts: seq<string> := [];
    for i := 0 to |raws|
      invariant parts == DamageBits(raws[..i])
    {
      assert raws[..i + 1][..i] == raws[..i];
      var bit := DamageBit(raws[i]);
      if bit != "" { parts := parts + [bit]; }
    }
    assert raws[..|raws|] == raws;
    s := JoinPlus(parts);
  }

  method CollectParts(lower: Lower, raws: seq<RawDamage>) returns (out: seq<Part>)
    ensures out == DamagePartsFrom(lower, raws)
  {
    out := [];
    for i := 0 to |raws|
      invariant out == DamagePartsFrom(lower, raws[..i])
    {
      assert raws[..i + 1][..i] == raws[..i];
      if Trim(raws[i].expression) != "" { out := out + [PartOf(lower, raws[i])]; }
    }
    assert raws[..|raws|] == raws;
  }
}
