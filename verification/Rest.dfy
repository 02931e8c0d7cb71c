/** Planning short and long rests (packages/schema/src/rest.ts). */
module Rest {
  import opened Integers
  import opened Text

  datatype Kind = Short | Long

  datatype Cadence = OnShortRest | OnLongRest | OnRefocus | OnDawn | OnTurnStart | Special | Unknown

  datatype DeathState = Alive | Dying | Stable | Dead

  datatype Condition = Condition(name: string, stacks: int)

  datatype Slot = Slot(level: string, max: int, used: int)

  datatype Pool = Pool(key: string, max: int, used: int, recharge: Option<Cadence>)

  /** What the rule system says about rests. */
  datatype Rules = Rules(
    lower: string -> string, clearedByLong: seq<string>, clearedByShort: seq<string>, track: Option<string>,
    defaultHitDie: Option<int>, hitDiceFraction: real, clearsDeathSaves: bool)

  datatype Character = Character(
    id: int, hpCurrent: int, hpMax: int, hpTemp: int, death: DeathState, successes: int, failures: int, conMod: int,
    conditions: seq<Condition>, slots: seq<Slot>, pools: seq<Pool>)

  datatype Options = Options(spendHitDice: Option<int>, hitDie: Option<int>)

  datatype RestError = CharacterDead | HitDiceUnsupported | HitDieUnknown | InsufficientHitDice

  datatype Failure = Failure(id: int, error: RestError)

  datatype Decrement = Decrement(name: string, before: int, after: int)

  datatype Plan = Plan(
    id: int, hpBefore: int, hpAfter: int, hpTempAfter: int, deathAfter: DeathState, successesAfter: int, failuresAfter: int,
    slotsAfter: seq<Slot>, levelsRecovered: seq<string>, pools: PoolPlan, conditions: ConditionPlan,
    hitDiceSpent: nat, hitDiceRolls: seq<int>)

  datatype PoolPlan = PoolPlan(after: seq<Pool>, recovered: seq<string>, hitDiceRecovered: int)

  datatype ConditionPlan =
    ConditionPlan(after: seq<Condition>, cleared: seq<string>, kept: seq<string>, decremented: seq<Decrement>)

  datatype PartyPlan = PartyPlan(plans: seq<Plan>, failures: seq<Failure>)

  /** Face `k` of a run of rolls, for a die of so many sides. */
  type Faces = (nat, int) -> int

  const HIT_DICE := "hitDice"

  // ------------------------------------------------------------------ tables

  /** `RECHARGE_RECOVERED_BY_REST`, with an untagged resource read as a long-rest one. */
  predicate Recovers(kind: Kind, recharge: Option<Cadence>) {
    var cadence := if recharge.Some? then recharge.value else OnLongRest;
    match kind
    case Short => cadence == OnShortRest
    case Long => cadence == OnShortRest || cadence == OnLongRest || cadence == OnRefocus || cadence == OnDawn
  }

  datatype Outcome = Clear | Decrease | Keep

  function Normalize(rules: Rules, name: string): string { rules.lower(Trim(name)) }

  predicate Lists(rules: Rules, names: seq<string>, target: string) {
    exists i :: 0 <= i < |names| && Normalize(rules, names[i]) == target
  }

  function OutcomeOf(rules: Rules, kind: Kind, name: string): Outcome {
    var target := Normalize(rules, name);
    if target == "" then Keep
    else if Lists(rules, if kind == Long then rules.clearedByLong else rules.clearedByShort, target) then Clear
    else if kind == Long && rules.track.Some? && Normalize(rules, rules.track.value) == target then Decrease
    else Keep
  }

  // ------------------------------------------------------------------ hit dice

  /** The dice asked for and the die they are, or why they cannot be spent. */
  function HitDice(rules: Rules, c: Character, kind: Kind, o: Options): Result<(nat, int), RestError> {
    var requested := Max(0, if o.spendHitDice.Some? then o.spendHitDice.value else 0);
    var die := if o.hitDie.Some? then o.hitDie else rules.defaultHitDie;
    if requested == 0 then Ok((0, 0))
    else if kind != Short then Err(HitDiceUnsupported)
    else if die.None? then Err(HitDieUnknown)
    else if requested > Available(c.pools) then Err(InsufficientHitDice)
    else Ok((requested, die.value))
  }

  function Available(pools: seq<Pool>): int {
    if pools == [] then 0
    else if pools[0].key == HIT_DICE then Max(0, pools[0].max - pools[0].used)
    else Available(pools[1..])
  }

  function RollHitDice(face: Faces, at: nat, die: int, n: nat): (r: seq<int>)
    ensures |r| == n
  {
    if n == 0 then [] else RollHitDice(face, at, die, n - 1) + [face(at + n - 1, die)]
  }

  /** What the rolls heal: each face and the modifier, never less than nothing. */
  function Healing(rolls: seq<int>, conMod: int): (h: nat) {
    if rolls == [] then 0 else Healing(rolls[..|rolls| - 1], conMod) + Max(0, rolls[|rolls| - 1] + conMod)
  }

  // ------------------------------------------------------------------ one sheet

  function SlotAfter(kind: Kind, s: Slot): Slot { if kind == Long && s.used > 0 then s.(used := 0) else s }

  function SlotsAfter(kind: Kind, slots: seq<Slot>): (r: seq<Slot>)
    ensures |r| == |slots|
  {
    if slots == [] then [] else SlotsAfter(kind, slots[..|slots| - 1]) + [SlotAfter(kind, slots[|slots| - 1])]
  }

  function LevelsRecovered(kind: Kind, slots: seq<Slot>): seq<string> {
    if slots == [] then []
    else
      var rest := LevelsRecovered(kind, slots[..|slots| - 1]);
      if kind == Long && slots[|slots| - 1].used > 0 then rest + [slots[|slots| - 1].level] else rest
  }

  /** How many spent hit dice a long rest gives back. */
  function Restored(rules: Rules, p: Pool): int {
    Min(p.used, Max(if p.used > 0 then 1 else 0, (p.max as real * rules.hitDiceFraction).Floor))
  }

  function PoolAfter(rules: Rules, kind: Kind, spent: nat, p: Pool): Pool {
    if p.key == HIT_DICE then
      if kind == Short then p.(used := Min(p.max, p.used + spent))
      else if Recovers(kind, p.recharge) then p.(used := Max(0, p.used - Restored(rules, p)))
      else p
    else if Recovers(kind, p.recharge) && p.used > 0 then p.(used := 0)
    else p
  }

  /** Whether the plan lists the pool as recovered. */
  predicate PoolRecovers(rules: Rules, kind: Kind, p: Pool) {
    Recovers(kind, p.recharge) && (if p.key == HIT_DICE then kind == Long && Restored(rules, p) > 0 else p.used > 0)
  }

  function PoolsAfter(rules: Rules, kind: Kind, spent: nat, pools: seq<Pool>): PoolPlan {
    if pools == [] then PoolPlan([], [], 0)
    else
      var rest := PoolsAfter(rules, kind, spent, pools[..|pools| - 1]);
      var p := pools[|pools| - 1];
      PoolPlan(rest.after + [PoolAfter(rules, kind, spent, p)],
        if PoolRecovers(rules, kind, p) then rest.recovered + [p.key] else rest.recovered,
        if p.key == HIT_DICE && kind == Long && Recovers(kind, p.recharge) then Restored(rules, p) else rest.hitDiceRecovered)
  }

  function ConditionsAfter(rules: Rules, kind: Kind, cs: seq<Condition>): ConditionPlan {
    if cs == [] then ConditionPlan([], [], [], [])
    else AddCondition(rules, kind, ConditionsAfter(rules, kind, cs[..|cs| - 1]), cs[|cs| - 1])
  }

  function AddCondition(rules: Rules, kind: Kind, p: ConditionPlan, c: Condition): ConditionPlan {
    match OutcomeOf(rules, kind, c.name)
    case Clear => p.(cleared := p.cleared + [c.name])
    case Keep => p.(after := p.after + [c], kept := p.kept + [c.name])
    case Decrease =>
      var after := Max(0, c.stacks - 1);
      if after <= 0 then p.(cleared := p.cleared + [c.name])
      else p.(after := p.after + [Condition(c.name, after)], kept := p.kept + [c.name],
              decremented := p.decremented + [Decrement(c.name, c.stacks, after)])
  }

  function HpAfter(c: Character, kind: Kind, healing: nat): int {
    if kind == Long then c.hpMax else Min(c.hpMax, c.hpCurrent + healing)
  }

  /** Whether the rest ends dying and resets the death saves. */
  predicate Revives(rules: Rules, c: Character, kind: Kind, hpAfter: int) {
    (kind == Long && rules.clearsDeathSaves) || (hpAfter > 0 && (c.death == Dying || c.death == Stable))
  }

  function PlanCharacterRest(rules: Rules, c: Character, kind: Kind, o: Options, face: Faces, at: nat): Result<Plan, Failure> {
    if c.death == Dead then Err(Failure(c.id, CharacterDead))
    else
      match HitDice(rules, c, kind, o)
      case Err(e) => Err(Failure(c.id, e))
      case Ok((n, die)) => Ok(PlanOf(rules, c, kind, RollHitDice(face, at, die, n)))
  }

  function PlanOf(rules: Rules, c: Character, kind: Kind, rolls: seq<int>): Plan {
    var hpAfter := HpAfter(c, kind, Healing(rolls, c.conMod));
    var revives := Revives(rules, c, kind, hpAfter);
    Plan(c.id, c.hpCurrent, hpAfter, if kind == Long then 0 else c.hpTemp,
      if revives then Alive else c.death, if revives then 0 else c.successes, if revives then 0 else c.failures,
      SlotsAfter(kind, c.slots), LevelsRecovered(kind, c.slots),
      PoolsAfter(rules, kind, |rolls|, c.pools), ConditionsAfter(rules, kind, c.conditions), |rolls|, rolls)
  }

  /** Dice rolled in planning a character. */
  function DiceRolled(r: Result<Plan, Failure>): nat { if r.Ok? then r.value.hitDiceSpent else 0 }

  /** Dice rolled in planning the first `n` characters. */
  function RolledBy(rules: Rules, party: seq<Character>, kind: Kind, o: int -> Options, face: Faces, n: nat): nat
    requires n <= |party|
  {
    if n == 0 then 0
    else
      var at := RolledBy(rules, party, kind, o, face, n - 1);
      at + DiceRolled(PlanCharacterRest(rules, party[n - 1], kind, o(party[n - 1].id), face, at))
  }

  /** The result for character `n`, the dice of those before it having been rolled. */
  function ResultFor(rules: Rules, party: seq<Character>, kind: Kind, o: int -> Options, face: Faces, n: nat): Result<Plan, Failure>
    requires n < |party|
  {
    PlanCharacterRest(rules, party[n], kind, o(party[n].id), face, RolledBy(rules, party, kind, o, face, n))
  }

  function AddResult(p: PartyPlan, r: Result<Plan, Failure>): PartyPlan {
    if r.Ok? then p.(plans := p.plans + [r.value]) else p.(failures := p.failures + [r.error])
  }

  function PartyAfter(rules: Rules, party: seq<Character>, kind: Kind, o: int -> Options, face: Faces, n: nat): PartyPlan
    requires n <= |party|
  {
    if n == 0 then PartyPlan([], [])
    else AddResult(PartyAfter(rules, party, kind, o, face, n - 1), ResultFor(rules, party, kind, o, face, n - 1))
  }

  // ------------------------------------------------------------------ the loops

  method ResetSlots(slots: seq<Slot>, kind: Kind) returns (next: seq<Slot>, levels: seq<string>)
    ensures next == SlotsAfter(kind, slots) && levels == LevelsRecovered(kind, slots)
  {
    next, levels := [], [];
    for i := 0 to |slots|
      invariant next == SlotsAfter(kind, slots[..i]) && levels == LevelsRecovered(kind, slots[..i])
    {
      assert slots[..i + 1][..i] == slots[..i];
      if kind == Long && slots[i].used > 0 {
        levels := levels + [slots[i].level];
        next := next + [slots[i].(used := 0)];
      } else {
        next := next + [slots[i]];
      }
    }
    assert slots[..|slots|] == slots;
  }

  method RestPool(rules: Rules, kind: Kind, spent: nat, p: Pool) returns (next: Pool, back: int, recovered: bool)
    ensures next == PoolAfter(rules, kind, spent, p) && recovered == PoolRecovers(rules, kind, p)
    ensures back == if p.key == HIT_DICE && kind == Long && Recovers(kind, p.recharge) then Restored(rules, p) else 0
  {
    next, back, recovered := p, 0, false;
    var recovers := Recovers(kind, p.recharge);
    if p.key == HIT_DICE {
      var used := p.used;
      if kind == Short {
        used := Min(p.max, used + spent);
      } else if recovers {
        var restored := Max(if used > 0 then 1 else 0, (p.max as real * rules.hitDiceFraction).Floor);
        back := Min(used, restored);
        used := Max(0, used - back);
        recovered := back > 0;
      }
      next := next.(used := used);
    } else if recovers && p.used > 0 {
      recovered := true;
      next := next.(used := 0);
    }
  }

  method RestPools(rules: Rules, kind: Kind, spent: nat, pools: seq<Pool>) returns (r: PoolPlan)
    ensures r == PoolsAfter(rules, kind, spent, pools)
  {
    r := PoolPlan([], [], 0);
    for i := 0 to |pools|
      invariant r == PoolsAfter(rules, kind, spent, pools[..i])
    {
      assert pools[..i + 1][..i] == pools[..i];
      var next, back, recovered := RestPool(rules, kind, spent, pools[i]);
      r := PoolPlan(r.after + [next], if recovered then r.recovered + [pools[i].key] else r.recovered,
        if pools[i].key == HIT_DICE && kind == Long && Recovers(kind, pools[i].recharge) then back else r.hitDiceRecovered);
    }
    assert pools[..|pools|] == pools;
  }

  method RestConditions(rules: Rules, kind: Kind, cs: seq<Condition>) returns (r: ConditionPlan)
    ensures r == ConditionsAfter(rules, kind, cs)
  {
    r := ConditionPlan([], [], [], []);
    for i := 0 to |cs|
      invariant r == ConditionsAfter(rules, kind, cs[..i])
    {
      assert cs[..i + 1][..i] == cs[..i];
      var outcome := OutcomeOf(rules, kind, cs[i].name);
      if outcome == Clear {
        r := r.(cleared := r.cleared + [cs[i].name]);
      } else if outcome == Decrease {
        var stacksAfter := Max(0, cs[i].stacks - 1);
        if stacksAfter <= 0 {
          r := r.(cleared := r.cleared + [cs[i].name]);
        } else {
          r := r.(decremented := r.decremented + [Decrement(cs[i].name, cs[i].stacks, stacksAfter)]);
          r := r.(kept := r.kept + [cs[i].name], after := r.after + [Condition(cs[i].name, stacksAfter)]);
        }
      } else {
        r := r.(kept := r.kept + [cs[i].name], after := r.after + [cs[i]]);
      }
    }
    assert cs[..|cs|] == cs;
  }

  method RollDice(face: Faces, at: nat, die: int, n: nat, conMod: int) returns (rolls: seq<int>, healing: nat)
    ensures rolls == RollHitDice(face, at, die, n) && healing == Healing(rolls, conMod)
  {
    rolls, healing := [], 0;
    for i := 0 to n
      invariant rolls == RollHitDice(face, at, die, i) && healing == Healing(rolls, conMod)
    {
      var f := face(at + i, die);
      assert (rolls + [f])[..i] == rolls;
      rolls := rolls + [f];
      healing := healing + Max(0, f + conMod);
    }
  }

  method PlanOne(rules: Rules, c: Character, kind: Kind, o: Options, face: Faces, at: nat) returns (r: Result<Plan, Failure>)
    ensures r == PlanCharacterRest(rules, c, kind, o, face, at)
  {
    if c.death == Dead { return Err(Failure(c.id, CharacterDead)); }
    var dice := HitDice(rules, c, kind, o);
    if dice.Err? { return Err(Failure(c.id, dice.error)); }
    var rolls, healing := RollDice(face, at, dice.value.1, dice.value.0, c.conMod);
    var hpAfter := HpAfter(c, kind, healing);
    var revives := Revives(rules, c, kind, hpAfter);
    var slots, levels := ResetSlots(c.slots, kind);
    var pools := RestPools(rules, kind, |rolls|, c.pools);
    var conditions := RestConditions(rules, kind, c.conditions);
    r := Ok(Plan(c.id, c.hpCurrent, hpAfter, if kind == Long then 0 else c.hpTemp,
      if revives then Alive else c.death, if revives then 0 else c.successes, if revives then 0 else c.failures,
      slots, levels, pools, conditions, |rolls|, rolls));
  }

  method PlanParty(rules: Rules, party: seq<Character>, kind: Kind, o: int -> Options, face: Faces) returns (p: PartyPlan)
    ensures p == PartyAfter(rules, party, kind, o, face, |party|)
  {
    p := PartyPlan([], []);
    var at := 0;
    for i := 0 to |party|
      invariant p == PartyAfter(rules, party, kind, o, face, i) && at == RolledBy(rules, party, kind, o, face, i)
    {
      var result := PlanOne(rules, party[i], kind, o(party[i].id), face, at);
      at := at + DiceRolled(result);
      p := AddResult(p, result);
    }
  }
}
