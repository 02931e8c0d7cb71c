/** What a planned rest does, in the terms of the sheet and the rules (packages/schema/src/rest.ts). */
module RestMeaning {
  import opened Text
  import opened Sequences
  import opened Rest
  import opened RestTheorems

  // ------------------------------------------------------------------ hit dice and hit points

  /** How many hit dice the options ask for, and which die they are. */
  function Asked(o: Options): nat { if o.spendHitDice.Some? && o.spendHitDice.value > 0 then o.spendHitDice.value else 0 }

  function DieOf(rules: Rules, o: Options): Option<int> { if o.hitDie.Some? then o.hitDie else rules.defaultHitDie }

  /** Each roll with the modifier, none below nothing, added up. */
  ghost function Healed(rolls: seq<int>, conMod: int): int {
    if rolls == [] then 0
    else (if rolls[0] + conMod > 0 then rolls[0] + conMod else 0) + Healed(rolls[1..], conMod)
  }

  lemma {:induction false} HealedLast(rolls: seq<int>, roll: int, conMod: int)
    ensures Healed(rolls + [roll], conMod) == Healed(rolls, conMod) + if roll + conMod > 0 then roll + conMod else 0
  {
    if rolls == [] {
      assert rolls + [roll] == [roll] && [roll][1..] == [];
    } else {
      assert (rolls + [roll])[1..] == rolls[1..] + [roll];
      HealedLast(rolls[1..], roll, conMod);
    }
  }

  lemma {:induction false} HealingIs(rolls: seq<int>, conMod: int)
    ensures Healing(rolls, conMod) == Healed(rolls, conMod)
  {
    if rolls != [] {
      SplitLast(rolls);
      HealingIs(rolls[..|rolls| - 1], conMod);
      HealedLast(rolls[..|rolls| - 1], rolls[|rolls| - 1], conMod);
    }
  }

  lemma {:induction false} RollsAre(face: Faces, at: nat, die: int, n: nat, i: nat)
    requires i < n
    ensures RollHitDice(face, at, die, n)[i] == face(at + i, die)
  {
    if i < n - 1 { RollsAre(face, at, die, n - 1, i); }
  }

  /** The dice asked for are rolled, each the next face of the die given, or of the system's. */
  ghost predicate RollsAsked(rules: Rules, kind: Kind, o: Options, face: Faces, at: nat, rolls: seq<int>) {
    && |rolls| == Asked(o) && (rolls != [] ==> kind == Short && DieOf(rules, o).Some?)
    && forall i :: 0 <= i < |rolls| ==> rolls[i] == face(at + i, DieOf(rules, o).value)
  }

  // ------------------------------------------------------------------ pools and slots

  /** The table of recharges: what a short rest brings back, and what a long one does. */
  predicate ComesBack(kind: Kind, recharge: Option<Cadence>) {
    match recharge
    case None => kind == Long
    case Some(OnShortRest) => true
    case Some(OnLongRest) => kind == Long
    case Some(OnRefocus) => kind == Long
    case Some(OnDawn) => kind == Long
    case Some(_) => false
  }

  lemma RecoversIff(kind: Kind, recharge: Option<Cadence>)
    ensures Recovers(kind, recharge) <==> ComesBack(kind, recharge)
  {}

  /** The share of the hit dice that comes back, rounded down. */
  function Share(rules: Rules, max: int): int { (max as real * rules.hitDiceFraction).Floor }

  /** How many used hit dice come back: the share, one at least when any are used, and no more than are used. */
  function ShareBack(rules: Rules, used: int, max: int): int {
    var atLeast := if used > 0 && Share(rules, max) < 1 then 1 else if used <= 0 && Share(rules, max) < 0 then 0 else Share(rules, max);
    if used < atLeast then used else atLeast
  }

  /** How much of a pool is used after a rest on which so many hit dice are spent. */
  function UsedAfter(rules: Rules, kind: Kind, spent: nat, p: Pool): int {
    if p.key == "hitDice" then
      if kind == Short then (if p.used + spent > p.max then p.max else p.used + spent)
      else if !ComesBack(Long, p.recharge) then p.used
      else if p.used - ShareBack(rules, p.used, p.max) < 0 then 0
      else p.used - ShareBack(rules, p.used, p.max)
    else if ComesBack(kind, p.recharge) && p.used > 0 then 0
    else p.used
  }

  lemma PoolMeans(rules: Rules, kind: Kind, spent: nat, p: Pool)
    ensures PoolAfter(rules, kind, spent, p) == p.(used := UsedAfter(rules, kind, spent, p))
  {
    RecoversIff(kind, p.recharge);
  }

  ghost predicate PoolsMean(rules: Rules, kind: Kind, spent: nat, before: seq<Pool>, after: seq<Pool>) {
    |after| == |before| && forall i :: 0 <= i < |before| ==> after[i] == before[i].(used := UsedAfter(rules, kind, spent, before[i]))
  }

  lemma AllPoolsMean(rules: Rules, kind: Kind, spent: nat, pools: seq<Pool>)
    ensures PoolsMean(rules, kind, spent, pools, PoolsAfter(rules, kind, spent, pools).after)
  {
    var after := PoolsAfter(rules, kind, spent, pools).after;
    PoolsLength(rules, kind, spent, pools);
    forall i | 0 <= i < |pools| ensures after[i] == pools[i].(used := UsedAfter(rules, kind, spent, pools[i])) {
      PoolsAt(rules, kind, spent, pools, i);
      PoolMeans(rules, kind, spent, pools[i]);
    }
  }

  lemma {:induction false} NoneRecovered(rules: Rules, spent: nat, pools: seq<Pool>)
    ensures PoolsAfter(rules, Short, spent, pools).hitDiceRecovered == 0
  {
    if pools != [] { NoneRecovered(rules, spent, pools[..|pools| - 1]); }
  }

  ghost predicate SlotsMean(kind: Kind, before: seq<Slot>, after: seq<Slot>) {
    && |after| == |before|
    && forall i :: 0 <= i < |before| ==>
      after[i] == if kind == Long && before[i].used > 0 then before[i].(used := 0) else before[i]
  }

  lemma AllSlotsMean(kind: Kind, slots: seq<Slot>)
    ensures SlotsMean(kind, slots, SlotsAfter(kind, slots))
  {
    forall i | 0 <= i < |slots| ensures SlotsAfter(kind, slots)[i] == SlotAfter(kind, slots[i]) { SlotsAt(kind, slots, i); }
  }

  // ------------------------------------------------------------------ conditions

  /** The list that the kind of rest clears has the name, in some case and with white space around it. */
  ghost predicate Cleared(rules: Rules, kind: Kind, name: string) {
    var listed := if kind == Long then rules.clearedByLong else rules.clearedByShort;
    rules.lower(Trim(name)) != "" && exists n :: n in listed && rules.lower(Trim(n)) == rules.lower(Trim(name))
  }

  /** The name of the system's leveled condition, of which a long rest takes one stack. */
  ghost predicate Leveled(rules: Rules, kind: Kind, name: string) {
    && kind == Long && rules.track.Some? && rules.lower(Trim(name)) != ""
    && rules.lower(Trim(rules.track.value)) == rules.lower(Trim(name))
  }

  /** What is left of a condition. */
  ghost function LeftOf(rules: Rules, kind: Kind, c: Condition): Option<Condition> {
    if Cleared(rules, kind, c.name) then None
    else if !Leveled(rules, kind, c.name) then Some(c)
    else if c.stacks > 1 then Some(Condition(c.name, c.stacks - 1))
    else None
  }

  lemma OutcomeIs(rules: Rules, kind: Kind, name: string)
    ensures OutcomeOf(rules, kind, name) == Clear <==> Cleared(rules, kind, name)
    ensures OutcomeOf(rules, kind, name) == Decrease <==> Leveled(rules, kind, name) && !Cleared(rules, kind, name)
  {
    var target := rules.lower(Trim(name));
    ListsIff(rules, rules.clearedByLong, target);
    ListsIff(rules, rules.clearedByShort, target);
  }

  lemma ListsIff(rules: Rules, names: seq<string>, target: string)
    ensures Lists(rules, names, target) <==> exists n :: n in names && rules.lower(Trim(n)) == target
  {
    if n :| n in names && rules.lower(Trim(n)) == target {
      var i :| 0 <= i < |names| && names[i] == n;
      assert Normalize(rules, names[i]) == target;
    }
  }

  ghost function StillThere(rules: Rules, kind: Kind, cs: seq<Condition>): seq<Condition> {
    if cs == [] then []
    else (match LeftOf(rules, kind, cs[0]) case None => [] case Some(c) => [c]) + StillThere(rules, kind, cs[1..])
  }

  ghost function GoneOne(rules: Rules, kind: Kind, c: Condition): seq<string> {
    if LeftOf(rules, kind, c) == None then [c.name] else []
  }

  ghost function Gone(rules: Rules, kind: Kind, cs: seq<Condition>): seq<string> {
    if cs == [] then [] else GoneOne(rules, kind, cs[0]) + Gone(rules, kind, cs[1..])
  }

  ghost function LoweredOne(rules: Rules, kind: Kind, c: Condition): seq<Decrement> {
    if LeftOf(rules, kind, c).Some? && Leveled(rules, kind, c.name) then [Decrement(c.name, c.stacks, c.stacks - 1)] else []
  }

  ghost function Lowered(rules: Rules, kind: Kind, cs: seq<Condition>): seq<Decrement> {
    if cs == [] then [] else LoweredOne(rules, kind, cs[0]) + Lowered(rules, kind, cs[1..])
  }

  lemma {:induction false} StillThereLast(rules: Rules, kind: Kind, cs: seq<Condition>, c: Condition)
    ensures StillThere(rules, kind, cs + [c]) ==
      StillThere(rules, kind, cs) + (match LeftOf(rules, kind, c) case None => [] case Some(d) => [d])
  {
    if cs == [] {
      assert cs + [c] == [c] && [c][1..] == [];
    } else {
      assert (cs + [c])[1..] == cs[1..] + [c];
      StillThereLast(rules, kind, cs[1..], c);
    }
  }

  lemma {:induction false} GoneLast(rules: Rules, kind: Kind, cs: seq<Condition>, c: Condition)
    ensures Gone(rules, kind, cs + [c]) == Gone(rules, kind, cs) + GoneOne(rules, kind, c)
  {
    if cs == [] {
      assert cs + [c] == [c] && [c][1..] == [];
    } else {
      assert (cs + [c])[1..] == cs[1..] + [c];
      GoneLast(rules, kind, cs[1..], c);
    }
  }

  lemma {:induction false} LoweredLast(rules: Rules, kind: Kind, cs: seq<Condition>, c: Condition)
    ensures Lowered(rules, kind, cs + [c]) == Lowered(rules, kind, cs) + LoweredOne(rules, kind, c)
  {
    if cs == [] {
      assert cs + [c] == [c] && [c][1..] == [];
    } else {
      assert (cs + [c])[1..] == cs[1..] + [c];
      LoweredLast(rules, kind, cs[1..], c);
    }
  }

  /** Cleared are the conditions of which nothing is left; the others stay in order, each kept by name. */
  ghost predicate ConditionsMean(rules: Rules, kind: Kind, cs: seq<Condition>, p: ConditionPlan) {
    && p.after == StillThere(rules, kind, cs) && p.cleared == Gone(rules, kind, cs)
    && p.kept == NamesOf(p.after) && p.decremented == Lowered(rules, kind, cs)
  }

  lemma OneConditionMeans(rules: Rules, kind: Kind, cs: seq<Condition>, p: ConditionPlan, c: Condition)
    requires ConditionsMean(rules, kind, cs, p)
    ensures ConditionsMean(rules, kind, cs + [c], AddCondition(rules, kind, p, c))
  {
    OutcomeIs(rules, kind, c.name);
    StillThereLast(rules, kind, cs, c);
    GoneLast(rules, kind, cs, c);
    LoweredLast(rules, kind, cs, c);
    match LeftOf(rules, kind, c)
    case None =>
    case Some(d) => NamesGrow(p.after, d);
  }

  lemma {:induction false} AllConditionsMean(rules: Rules, kind: Kind, cs: seq<Condition>)
    ensures ConditionsMean(rules, kind, cs, ConditionsAfter(rules, kind, cs))
  {
    if cs != [] {
      SplitLast(cs);
      AllConditionsMean(rules, kind, cs[..|cs| - 1]);
      OneConditionMeans(rules, kind, cs[..|cs| - 1], ConditionsAfter(rules, kind, cs[..|cs| - 1]), cs[|cs| - 1]);
    }
  }

  // ------------------------------------------------------------------ the whole plan

  /** Hit points: all of them on a long rest, else those the dice heal; temporary ones are lost on a long rest. */
  ghost predicate HitPointsMean(c: Character, kind: Kind, p: Plan) {
    && p.hpBefore == c.hpCurrent && p.hpTempAfter == (if kind == Long then 0 else c.hpTemp)
    && p.hpAfter == (if kind == Long then c.hpMax
                     else if c.hpCurrent + Healed(p.hitDiceRolls, c.conMod) > c.hpMax then c.hpMax
                     else c.hpCurrent + Healed(p.hitDiceRolls, c.conMod))
  }

  /** A long rest that clears death saves, or hit points for the dying or stable, end the dying and its counters. */
  ghost predicate DeathMeans(rules: Rules, c: Character, kind: Kind, p: Plan) {
    if (kind == Long && rules.clearsDeathSaves) || ((c.death == Dying || c.death == Stable) && p.hpAfter > 0)
    then p.deathAfter == Alive && p.successesAfter == 0 && p.failuresAfter == 0
    else p.deathAfter == c.death && p.successesAfter == c.successes && p.failuresAfter == c.failures
  }

  ghost predicate PlanMeans(rules: Rules, c: Character, kind: Kind, o: Options, face: Faces, at: nat, p: Plan) {
    && p.id == c.id && p.hitDiceSpent == |p.hitDiceRolls| && RollsAsked(rules, kind, o, face, at, p.hitDiceRolls)
    && HitPointsMean(c, kind, p) && DeathMeans(rules, c, kind, p)
    && SlotsMean(kind, c.slots, p.slotsAfter)
    && PoolsMean(rules, kind, |p.hitDiceRolls|, c.pools, p.pools.after) && (kind == Short ==> p.pools.hitDiceRecovered == 0)
    && ConditionsMean(rules, kind, c.conditions, p.conditions)
  }

  lemma DiceMean(rules: Rules, c: Character, kind: Kind, o: Options, face: Faces, at: nat)
    requires HitDice(rules, c, kind, o).Ok?
    ensures var d := HitDice(rules, c, kind, o).value; RollsAsked(rules, kind, o, face, at, RollHitDice(face, at, d.1, d.0))
  {
    var d := HitDice(rules, c, kind, o).value;
    forall i | 0 <= i < d.0 ensures RollHitDice(face, at, d.1, d.0)[i] == face(at + i, d.1) { RollsAre(face, at, d.1, d.0, i); }
  }

  /** A plan, whatever the sheet holds. */
  lemma PlanIs(rules: Rules, c: Character, kind: Kind, o: Options, face: Faces, at: nat)
    requires PlanCharacterRest(rules, c, kind, o, face, at).Ok?
    ensures PlanMeans(rules, c, kind, o, face, at, PlanCharacterRest(rules, c, kind, o, face, at).value)
  {
    var p := PlanCharacterRest(rules, c, kind, o, face, at).value;
    DiceMean(rules, c, kind, o, face, at);
    HealingIs(p.hitDiceRolls, c.conMod);
    AllSlotsMean(kind, c.slots);
    AllPoolsMean(rules, kind, |p.hitDiceRolls|, c.pools);
    if kind == Short { NoneRecovered(rules, |p.hitDiceRolls|, c.pools); }
    AllConditionsMean(rules, kind, c.conditions);
  }

  /** The first pool of hit dice, and what is left of it. */
  function Unspent(pools: seq<Pool>): int {
    if pools == [] then 0
    else if pools[0].key == "hitDice" then (if pools[0].max > pools[0].used then pools[0].max - pools[0].used else 0)
    else Unspent(pools[1..])
  }

  lemma {:induction false} AvailableIs(pools: seq<Pool>)
    ensures Available(pools) == Unspent(pools)
  {
    if pools != [] && pools[0].key != HIT_DICE { AvailableIs(pools[1..]); }
  }

  /** A failed plan: the first reason that holds, for this character. */
  lemma FailureIs(rules: Rules, c: Character, kind: Kind, o: Options, face: Faces, at: nat)
    ensures var r := PlanCharacterRest(rules, c, kind, o, face, at);
      var asks := c.death != Dead && Asked(o) > 0;
      && (r.Err? ==> r.error.id == c.id)
      && (r == Err(Failure(c.id, CharacterDead)) <==> c.death == Dead)
      && (r == Err(Failure(c.id, HitDiceUnsupported)) <==> asks && kind == Long)
      && (r == Err(Failure(c.id, HitDieUnknown)) <==> asks && kind == Short && DieOf(rules, o) == None)
      && (r == Err(Failure(c.id, InsufficientHitDice)) <==>
           asks && kind == Short && DieOf(rules, o).Some? && Asked(o) > Unspent(c.pools))
  {
    AvailableIs(c.pools);
  }

  // ------------------------------------------------------------------ the party

  /** The dice rolled for plans. */
  ghost function DiceOf(ps: seq<Plan>): nat {
    if ps == [] then 0 else DiceOf(ps[..|ps| - 1]) + ps[|ps| - 1].hitDiceSpent
  }

  /** One member more: planned with its own options and the dice after those of the plans before, or failed. */
  ghost predicate Turn(rules: Rules, c: Character, kind: Kind, o: Options, face: Faces, before: PartyPlan, p: PartyPlan) {
    match PlanCharacterRest(rules, c, kind, o, face, DiceOf(before.plans))
    case Ok(plan) => p == PartyPlan(before.plans + [plan], before.failures)
    case Err(f) => p == PartyPlan(before.plans, before.failures + [f])
  }

  lemma {:induction false} RolledIs(rules: Rules, party: seq<Character>, kind: Kind, o: int -> Options, face: Faces, n: nat)
    requires n <= |party|
    ensures RolledBy(rules, party, kind, o, face, n) == DiceOf(PartyAfter(rules, party, kind, o, face, n).plans)
  {
    if n > 0 {
      RolledIs(rules, party, kind, o, face, n - 1);
      var before, r := PartyAfter(rules, party, kind, o, face, n - 1), ResultFor(rules, party, kind, o, face, n - 1);
      if r.Ok? { assert (before.plans + [r.value])[..|before.plans|] == before.plans; }
    }
  }

  /** A party is planned from nothing, one member after the other. */
  lemma PartyInTurn(rules: Rules, party: seq<Character>, kind: Kind, o: int -> Options, face: Faces, n: nat)
    requires n < |party|
    ensures PartyAfter(rules, party, kind, o, face, 0) == PartyPlan([], [])
    ensures Turn(rules, party[n], kind, o(party[n].id), face, PartyAfter(rules, party, kind, o, face, n),
      PartyAfter(rules, party, kind, o, face, n + 1))
  {
    RolledIs(rules, party, kind, o, face, n);
  }
}
