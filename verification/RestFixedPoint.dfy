/** Repeated long rests come to rest. */
module RestFixedPoint {
  import opened Integers
  import opened Text
  import opened Sequences
  import opened Rest
  import opened RestTheorems

  const NO_OPTIONS := Options(None, None)

  /** The sheet after the plan of a long rest is applied; a sheet whose rest fails stays as it is. */
  function AfterRest(rules: Rules, c: Character): Character {
    match PlanCharacterRest(rules, c, Long, NO_OPTIONS, (k: nat, sides: int) => 0, 0)
    case Err(_) => c
    case Ok(p) => c.(hpCurrent := p.hpAfter, hpTemp := p.hpTempAfter, death := p.deathAfter, successes := p.successesAfter,
      failures := p.failuresAfter, slots := p.slotsAfter, pools := p.pools.after, conditions := p.conditions.after)
  }

  function Repeat(rules: Rules, c: Character, n: nat): Character {
    if n == 0 then c else AfterRest(rules, Repeat(rules, c, n - 1))
  }

  // ------------------------------------------------------------------ pools

  function RestedPools(rules: Rules, pools: seq<Pool>): seq<Pool> { PoolsAfter(rules, Long, 0, pools).after }

  /** A hit-dice pool that a long rest refills in part. */
  predicate Refills(p: Pool) { p.key == HIT_DICE && Recovers(Long, p.recharge) }

  /** Hit dice still to come back. */
  function DiceLeft(pools: seq<Pool>): int {
    if pools == [] then 0
    else DiceLeft(pools[..|pools| - 1]) + (if Refills(pools[|pools| - 1]) then pools[|pools| - 1].used else 0)
  }

  /** A long rest leaves every pool as it is, but for hit dice. */
  predicate PoolsSettled(rules: Rules, pools: seq<Pool>) {
    forall i :: 0 <= i < |pools| ==> Refills(pools[i]) || PoolAfter(rules, Long, 0, pools[i]) == pools[i]
  }

  lemma PoolSettles(rules: Rules, p: Pool)
    requires GoodRules(rules) && PoolIn(p)
    ensures var q := PoolAfter(rules, Long, 0, p);
      && PoolIn(q) && (Refills(q) <==> Refills(p)) && (Refills(p) || PoolAfter(rules, Long, 0, q) == q)
      && (Refills(p) ==> 0 <= q.used <= Max(0, p.used - 1)) && (Refills(p) && p.used == 0 ==> q == p)
  {
    RestoredWithin(rules, p);
  }

  lemma PoolsSplit(rules: Rules, pools: seq<Pool>, p: Pool)
    ensures RestedPools(rules, pools + [p]) == RestedPools(rules, pools) + [PoolAfter(rules, Long, 0, p)]
    ensures DiceLeft(pools + [p]) == DiceLeft(pools) + if Refills(p) then p.used else 0
  {
    assert (pools + [p])[..|pools|] == pools;
  }

  /** One long rest settles the pools and brings hit dice back while any are spent. */
  lemma {:induction false} PoolsRest(rules: Rules, pools: seq<Pool>)
    requires GoodRules(rules) && PoolsIn(pools)
    ensures PoolsIn(RestedPools(rules, pools)) && PoolsSettled(rules, RestedPools(rules, pools))
    ensures 0 <= DiceLeft(RestedPools(rules, pools)) <= DiceLeft(pools)
    ensures DiceLeft(pools) > 0 ==> DiceLeft(RestedPools(rules, pools)) < DiceLeft(pools)
  {
    if pools != [] {
      var init, last := pools[..|pools| - 1], pools[|pools| - 1];
      SplitLast(pools);
      PoolsRest(rules, init);
      PoolSettles(rules, last);
      PoolsSplit(rules, init, last);
      DiceOfLast(RestedPools(rules, init), PoolAfter(rules, Long, 0, last));
    }
  }

  lemma DiceOfLast(pools: seq<Pool>, p: Pool)
    ensures DiceLeft(pools + [p]) == DiceLeft(pools) + if Refills(p) then p.used else 0
  {
    assert (pools + [p])[..|pools|] == pools;
  }

  /** Settled pools with no hit dice to come back are left as they are. */
  lemma {:induction false} PoolsFixed(rules: Rules, pools: seq<Pool>)
    requires GoodRules(rules) && PoolsIn(pools) && PoolsSettled(rules, pools) && DiceLeft(pools) <= 0
    ensures RestedPools(rules, pools) == pools
  {
    if pools != [] {
      var init, last := pools[..|pools| - 1], pools[|pools| - 1];
      SplitLast(pools);
      DiceNotNegative(init);
      PoolsFixed(rules, init);
      PoolSettles(rules, last);
      PoolsSplit(rules, init, last);
    }
  }

  lemma {:induction false} DiceNotNegative(pools: seq<Pool>)
    requires PoolsIn(pools)
    ensures DiceLeft(pools) >= 0
  {
    if pools != [] { DiceNotNegative(pools[..|pools| - 1]); }
  }

  // ------------------------------------------------------------------ conditions

  function RestedConditions(rules: Rules, cs: seq<Condition>): seq<Condition> { ConditionsAfter(rules, Long, cs).after }

  predicate Decreases(rules: Rules, c: Condition) { OutcomeOf(rules, Long, c.name) == Decrease }

  /** Stacks of leveled conditions still to go. */
  function StacksLeft(rules: Rules, cs: seq<Condition>): int {
    if cs == [] then 0
    else StacksLeft(rules, cs[..|cs| - 1]) + (if Decreases(rules, cs[|cs| - 1]) then cs[|cs| - 1].stacks else 0)
  }

  /** A long rest clears none of the conditions outright. */
  predicate ConditionsSettled(rules: Rules, cs: seq<Condition>) {
    forall i :: 0 <= i < |cs| ==> OutcomeOf(rules, Long, cs[i].name) != Clear
  }

  /** What stays of one condition. */
  function RestedOne(rules: Rules, c: Condition): seq<Condition> {
    match OutcomeOf(rules, Long, c.name)
    case Clear => []
    case Keep => [c]
    case Decrease => if c.stacks <= 1 then [] else [Condition(c.name, c.stacks - 1)]
  }

  lemma ConditionsGrow(rules: Rules, cs: seq<Condition>, c: Condition)
    ensures RestedConditions(rules, cs + [c]) == RestedConditions(rules, cs) + RestedOne(rules, c)
  {
    assert (cs + [c])[..|cs|] == cs;
    assert RestedConditions(rules, cs) + [] == RestedConditions(rules, cs);
  }

  lemma StacksGrow(rules: Rules, cs: seq<Condition>, c: Condition)
    ensures StacksLeft(rules, cs + [c]) == StacksLeft(rules, cs) + if Decreases(rules, c) then c.stacks else 0
  {
    assert (cs + [c])[..|cs|] == cs;
  }

  lemma AppendOne(rules: Rules, cs: seq<Condition>, d: Condition)
    requires StacksIn(cs) && ConditionsSettled(rules, cs) && d.stacks >= 1 && OutcomeOf(rules, Long, d.name) != Clear
    ensures StacksIn(cs + [d]) && ConditionsSettled(rules, cs + [d])
    ensures StacksLeft(rules, cs + [d]) == StacksLeft(rules, cs) + if Decreases(rules, d) then d.stacks else 0
  {
    StacksGrow(rules, cs, d);
  }

  lemma AppendNone<T>(s: seq<T>)
    ensures s + [] == s
  {}

  /** Adding what stays of one condition. */
  lemma RestOne(rules: Rules, cs: seq<Condition>, c: Condition)
    requires c.stacks >= 1 && StacksIn(cs) && ConditionsSettled(rules, cs)
    ensures StacksIn(cs + RestedOne(rules, c)) && ConditionsSettled(rules, cs + RestedOne(rules, c))
    ensures StacksLeft(rules, cs + RestedOne(rules, c)) ==
      StacksLeft(rules, cs) + if Decreases(rules, c) then c.stacks - 1 else 0
  {
    AppendNone(cs);
    match OutcomeOf(rules, Long, c.name)
    case Clear =>
    case Keep => AppendOne(rules, cs, c);
    case Decrease => if c.stacks > 1 { AppendOne(rules, cs, Condition(c.name, c.stacks - 1)); }
  }

  /** One long rest clears what it can and takes a stack off every leveled condition. */
  lemma {:induction false} ConditionsRest(rules: Rules, cs: seq<Condition>)
    requires StacksIn(cs)
    ensures StacksIn(RestedConditions(rules, cs)) && ConditionsSettled(rules, RestedConditions(rules, cs))
    ensures 0 <= StacksLeft(rules, RestedConditions(rules, cs)) <= StacksLeft(rules, cs)
    ensures StacksLeft(rules, cs) > 0 ==> StacksLeft(rules, RestedConditions(rules, cs)) < StacksLeft(rules, cs)
  {
    if cs != [] {
      var init, last := cs[..|cs| - 1], cs[|cs| - 1];
      SplitLast(cs);
      ConditionsRest(rules, init);
      ConditionsGrow(rules, init, last);
      StacksGrow(rules, init, last);
      RestOne(rules, RestedConditions(rules, init), last);
    }
  }

  lemma {:induction false} StacksNotNegative(rules: Rules, cs: seq<Condition>)
    requires StacksIn(cs)
    ensures StacksLeft(rules, cs) >= 0
  {
    if cs != [] { StacksNotNegative(rules, cs[..|cs| - 1]); }
  }

  lemma {:induction false} ConditionsFixed(rules: Rules, cs: seq<Condition>)
    requires StacksIn(cs) && ConditionsSettled(rules, cs) && StacksLeft(rules, cs) <= 0
    ensures RestedConditions(rules, cs) == cs
  {
    if cs != [] {
      var init, last := cs[..|cs| - 1], cs[|cs| - 1];
      SplitLast(cs);
      StacksNotNegative(rules, init);
      StacksGrow(rules, init, last);
      ConditionsFixed(rules, init);
      ConditionsGrow(rules, init, last);
    }
  }

  // ------------------------------------------------------------------ the whole sheet

  /** A sheet on which a long rest has nothing left to do but hit dice and leveled conditions. */
  predicate Settled(rules: Rules, c: Character) {
    c.death == Dead ||
      (&& c.hpCurrent == c.hpMax && c.hpTemp == 0
       && (Revives(rules, c, Long, c.hpMax) ==> c.death == Alive && c.successes == 0 && c.failures == 0)
       && SlotsAfter(Long, c.slots) == c.slots && PoolsSettled(rules, c.pools) && ConditionsSettled(rules, c.conditions))
  }

  /** Spent hit dice and leveled stacks. */
  function Measure(rules: Rules, c: Character): int {
    if c.death == Dead then 0 else DiceLeft(c.pools) + StacksLeft(rules, c.conditions)
  }

  lemma AfterRestIs(rules: Rules, c: Character)
    requires c.death != Dead
    ensures var r := AfterRest(rules, c);
      var revives := Revives(rules, c, Long, c.hpMax);
      && r.hpMax == c.hpMax && r.hpCurrent == c.hpMax && r.hpTemp == 0
      && r.death == (if revives then Alive else c.death) && r.successes == (if revives then 0 else c.successes)
      && r.failures == (if revives then 0 else c.failures)
      && r.slots == SlotsAfter(Long, c.slots) && r.pools == RestedPools(rules, c.pools)
      && r.conditions == RestedConditions(rules, c.conditions) && r.id == c.id && r.conMod == c.conMod
  {}

  lemma SlotsTwice(slots: seq<Slot>)
    ensures SlotsAfter(Long, SlotsAfter(Long, slots)) == SlotsAfter(Long, slots)
  {
    var once := SlotsAfter(Long, slots);
    forall i | 0 <= i < |slots| ensures SlotsAfter(Long, once)[i] == once[i] {
      SlotsAt(Long, slots, i);
      SlotsAt(Long, once, i);
    }
  }

  /** A rest settles the sheet, keeps it well formed, and lowers the measure while it is positive. */
  lemma RestLowers(rules: Rules, c: Character)
    requires GoodRules(rules) && WellFormed(c)
    ensures WellFormed(AfterRest(rules, c)) && Settled(rules, AfterRest(rules, c))
    ensures 0 <= Measure(rules, AfterRest(rules, c)) <= Max(0, Measure(rules, c) - 1)
  {
    if c.death != Dead {
      AfterRestIs(rules, c);
      PoolsRest(rules, c.pools);
      ConditionsRest(rules, c.conditions);
      RestedKeysOnce(rules, c.pools);
      SlotsKept(Long, c.slots);
      SlotsTwice(c.slots);
      DiceNotNegative(c.pools);
      StacksNotNegative(rules, c.conditions);
    }
  }

  lemma RestedKeysOnce(rules: Rules, pools: seq<Pool>)
    requires GoodRules(rules) && PoolsIn(pools) && KeysOnce(pools)
    ensures KeysOnce(RestedPools(rules, pools))
  {
    PoolsKept(rules, Long, 0, pools);
  }

  /** On a settled sheet a rest changes nothing once no hit die and no leveled stack is left. */
  lemma SettledIsFixed(rules: Rules, c: Character)
    requires GoodRules(rules) && WellFormed(c) && Settled(rules, c) && Measure(rules, c) <= 0
    ensures AfterRest(rules, c) == c
  {
    if c.death != Dead {
      AfterRestIs(rules, c);
      DiceNotNegative(c.pools);
      StacksNotNegative(rules, c.conditions);
      PoolsFixed(rules, c.pools);
      ConditionsFixed(rules, c.conditions);
    }
  }

  lemma {:induction false} RepeatLowers(rules: Rules, c: Character, n: nat)
    requires GoodRules(rules) && WellFormed(c) && n >= 1
    ensures WellFormed(Repeat(rules, c, n)) && Settled(rules, Repeat(rules, c, n))
    ensures 0 <= Measure(rules, Repeat(rules, c, n)) <= Max(0, Measure(rules, c) - n)
  {
    if n > 1 {
      RepeatLowers(rules, c, n - 1);
      RestLowers(rules, Repeat(rules, c, n - 1));
    } else {
      assert Repeat(rules, c, 0) == c;
      RestLowers(rules, c);
    }
  }

  /** After as many long rests as hit dice and leveled stacks are spent, and at least one, a further rest changes nothing. */
  lemma RestsComeToRest(rules: Rules, c: Character, n: nat)
    requires GoodRules(rules) && WellFormed(c) && n >= 1 && n >= Measure(rules, c)
    ensures AfterRest(rules, Repeat(rules, c, n)) == Repeat(rules, c, n)
  {
    RepeatLowers(rules, c, n);
    SettledIsFixed(rules, Repeat(rules, c, n));
  }
}
