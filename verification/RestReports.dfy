/** What a rest plan reports is what it changes. */
module RestReports {
  import opened Rest
  import opened RestTheorems

  // ------------------------------------------------------------------ pools and slots

  /** The keys of the pools of which less is used afterwards, in order. */
  function KeysFreed(before: seq<Pool>, after: seq<Pool>): seq<string>
    requires |before| == |after|
  {
    if before == [] then []
    else
      var n := |before| - 1;
      KeysFreed(before[..n], after[..n]) + (if after[n].used < before[n].used then [before[n].key] else [])
  }

  lemma PoolFreed(rules: Rules, kind: Kind, spent: nat, p: Pool)
    requires GoodRules(rules) && PoolIn(p)
    ensures PoolRecovers(rules, kind, p) <==> PoolAfter(rules, kind, spent, p).used < p.used
  {
    RestoredWithin(rules, p);
  }

  /** The pools a plan lists as recovered are those of which it frees something. */
  lemma {:induction false} RecoveredAreFreed(rules: Rules, kind: Kind, spent: nat, pools: seq<Pool>)
    requires GoodRules(rules) && PoolsIn(pools)
    ensures |PoolsAfter(rules, kind, spent, pools).after| == |pools|
    ensures PoolsAfter(rules, kind, spent, pools).recovered == KeysFreed(pools, PoolsAfter(rules, kind, spent, pools).after)
  {
    PoolsLength(rules, kind, spent, pools);
    if pools != [] {
      var init, last := pools[..|pools| - 1], pools[|pools| - 1];
      RecoveredAreFreed(rules, kind, spent, init);
      PoolFreed(rules, kind, spent, last);
      var rest := PoolsAfter(rules, kind, spent, init);
      assert PoolsAfter(rules, kind, spent, pools).after[..|init|] == rest.after;
      assert KeysFreed(init, rest.after) + [] == KeysFreed(init, rest.after);
    }
  }

  /** The levels of the slots of which fewer are used afterwards, in order. */
  function LevelsFreed(before: seq<Slot>, after: seq<Slot>): seq<string>
    requires |before| == |after|
  {
    if before == [] then []
    else
      var n := |before| - 1;
      LevelsFreed(before[..n], after[..n]) + (if after[n].used < before[n].used then [before[n].level] else [])
  }

  /** The slot levels a plan lists as recovered are those of which it frees something. */
  lemma {:induction false} LevelsAreFreed(kind: Kind, slots: seq<Slot>)
    ensures LevelsRecovered(kind, slots) == LevelsFreed(slots, SlotsAfter(kind, slots))
  {
    if slots != [] {
      var init := slots[..|slots| - 1];
      LevelsAreFreed(kind, init);
      assert SlotsAfter(kind, slots)[..|init|] == SlotsAfter(kind, init);
      assert LevelsRecovered(kind, init) + [] == LevelsRecovered(kind, init);
    }
  }

  // ------------------------------------------------------------------ conditions

  /** A rest ends the condition: it is listed as cleared, or is at its last stack. */
  predicate Ends(rules: Rules, kind: Kind, c: Condition) {
    var outcome := OutcomeOf(rules, kind, c.name);
    outcome == Clear || (outcome == Decrease && c.stacks <= 1)
  }

  /** What a rest leaves of a condition that it does not end. */
  function Left(rules: Rules, kind: Kind, c: Condition): Condition {
    if OutcomeOf(rules, kind, c.name) == Decrease then c.(stacks := c.stacks - 1) else c
  }

  /** The names of the conditions that a rest ends, in order. */
  function Ended(rules: Rules, kind: Kind, cs: seq<Condition>): seq<string> {
    if cs == [] then []
    else
      var last := cs[|cs| - 1];
      Ended(rules, kind, cs[..|cs| - 1]) + if Ends(rules, kind, last) then [last.name] else []
  }

  /** What it leaves of the others, in order. */
  function Staying(rules: Rules, kind: Kind, cs: seq<Condition>): seq<Condition> {
    if cs == [] then []
    else
      var last := cs[|cs| - 1];
      Staying(rules, kind, cs[..|cs| - 1]) + if Ends(rules, kind, last) then [] else [Left(rules, kind, last)]
  }

  lemma AddedIs(rules: Rules, kind: Kind, p: ConditionPlan, c: Condition)
    requires c.stacks >= 1
    ensures AddCondition(rules, kind, p, c).cleared == p.cleared + if Ends(rules, kind, c) then [c.name] else []
    ensures AddCondition(rules, kind, p, c).after == p.after + if Ends(rules, kind, c) then [] else [Left(rules, kind, c)]
  {}

  /** A rest clears the conditions it ends and leaves the others in their order, a leveled one a stack lower. */
  lemma {:induction false} ConditionsEndOrStay(rules: Rules, kind: Kind, cs: seq<Condition>)
    requires StacksIn(cs)
    ensures ConditionsAfter(rules, kind, cs).cleared == Ended(rules, kind, cs)
    ensures ConditionsAfter(rules, kind, cs).after == Staying(rules, kind, cs)
  {
    if cs != [] {
      var init, last := cs[..|cs| - 1], cs[|cs| - 1];
      ConditionsEndOrStay(rules, kind, init);
      AddedIs(rules, kind, ConditionsAfter(rules, kind, init), last);
    }
  }

  // ------------------------------------------------------------------ failing

  /** A rest fails exactly for the dead, and for hit dice asked for on a long rest, of no known size, or over what is left. */
  lemma FailsIff(rules: Rules, c: Character, kind: Kind, o: Options, face: Faces, at: nat)
    requires WellFormed(c)
    ensures PlanCharacterRest(rules, c, kind, o, face, at).Err? <==>
      || c.death == Dead
      || (o.spendHitDice.Some? && o.spendHitDice.value > 0 &&
          (kind == Long || (o.hitDie.None? && rules.defaultHitDie.None?) || o.spendHitDice.value > DiceLeft(c.pools)))
  {
    if HasDice(c.pools) {
      var i :| 0 <= i < |c.pools| && c.pools[i].key == HIT_DICE;
      AvailableAt(c.pools, i);
      UsedAt(c.pools, i);
      MaxAt(c.pools, i);
    } else {
      NoneAvailable(c.pools);
    }
  }

  /** How many hit dice there are. */
  function MaxDice(pools: seq<Pool>): int {
    if pools == [] then 0
    else if pools[|pools| - 1].key == HIT_DICE then pools[|pools| - 1].max
    else MaxDice(pools[..|pools| - 1])
  }

  /** How many of them are not spent. */
  function DiceLeft(pools: seq<Pool>): int { if HasDice(pools) then MaxDice(pools) - UsedDice(pools) else 0 }

  lemma {:induction false} MaxAt(pools: seq<Pool>, i: nat)
    requires i < |pools| && pools[i].key == HIT_DICE && KeysOnce(pools)
    ensures MaxDice(pools) == pools[i].max
  {
    if i < |pools| - 1 { MaxAt(pools[..|pools| - 1], i); }
  }
}
