/** What a planned rest keeps, accounts for, and comes to when it is repeated. */
module RestTheorems {
  import opened Integers
  import opened Text
  import opened Rest

  // ------------------------------------------------------------------ well-formed sheets

  predicate PoolIn(p: Pool) { 0 <= p.used <= p.max }

  predicate SlotIn(s: Slot) { 0 <= s.used <= s.max }

  predicate PoolsIn(pools: seq<Pool>) { forall i :: 0 <= i < |pools| ==> PoolIn(pools[i]) }

  predicate SlotsIn(slots: seq<Slot>) { forall i :: 0 <= i < |slots| ==> SlotIn(slots[i]) }

  /** No key twice. */
  predicate KeysOnce(pools: seq<Pool>) { forall i, j :: 0 <= i < j < |pools| ==> pools[i].key != pools[j].key }

  predicate StacksIn(cs: seq<Condition>) { forall i :: 0 <= i < |cs| ==> cs[i].stacks >= 1 }

  predicate WellFormed(c: Character) {
    0 <= c.hpCurrent <= c.hpMax && PoolsIn(c.pools) && KeysOnce(c.pools) && SlotsIn(c.slots) && StacksIn(c.conditions)
  }

  predicate GoodRules(rules: Rules) { 0.0 <= rules.hitDiceFraction <= 1.0 }

  // ------------------------------------------------------------------ pools and slots

  /** The same pool but for how much of it is used. */
  predicate SamePool(p: Pool, q: Pool) { p.(used := 0) == q.(used := 0) }

  lemma ShareWithin(max: int, fraction: real)
    requires 0 <= max && 0.0 <= fraction
    ensures (max as real * fraction).Floor >= 0
  {
    assert max as real * fraction >= 0.0;
  }

  /** A long rest gives back no more hit dice than are spent, and one at least when any are. */
  lemma RestoredWithin(rules: Rules, p: Pool)
    requires GoodRules(rules) && PoolIn(p)
    ensures 0 <= Restored(rules, p) <= p.used && (p.used > 0 ==> Restored(rules, p) >= 1)
  {
    ShareWithin(p.max, rules.hitDiceFraction);
  }

  lemma PoolKept(rules: Rules, kind: Kind, spent: nat, p: Pool)
    requires GoodRules(rules) && PoolIn(p)
    ensures PoolIn(PoolAfter(rules, kind, spent, p)) && SamePool(PoolAfter(rules, kind, spent, p), p)
  {
    RestoredWithin(rules, p);
  }

  lemma {:induction false} PoolsAt(rules: Rules, kind: Kind, spent: nat, pools: seq<Pool>, i: nat)
    requires i < |pools|
    ensures |PoolsAfter(rules, kind, spent, pools).after| == |pools|
    ensures PoolsAfter(rules, kind, spent, pools).after[i] == PoolAfter(rules, kind, spent, pools[i])
  {
    if i < |pools| - 1 {
      PoolsAt(rules, kind, spent, pools[..|pools| - 1], i);
    } else {
      PoolsLength(rules, kind, spent, pools[..|pools| - 1]);
    }
  }

  lemma {:induction false} PoolsLength(rules: Rules, kind: Kind, spent: nat, pools: seq<Pool>)
    ensures |PoolsAfter(rules, kind, spent, pools).after| == |pools|
  {
    if pools != [] { PoolsLength(rules, kind, spent, pools[..|pools| - 1]); }
  }

  /** Every pool stays, in place, between nothing and its maximum. */
  lemma PoolsKept(rules: Rules, kind: Kind, spent: nat, pools: seq<Pool>)
    requires GoodRules(rules) && PoolsIn(pools)
    ensures var after := PoolsAfter(rules, kind, spent, pools).after;
      |after| == |pools| && PoolsIn(after) && forall i :: 0 <= i < |pools| ==> SamePool(after[i], pools[i])
  {
    PoolsLength(rules, kind, spent, pools);
    forall i | 0 <= i < |pools|
      ensures PoolIn(PoolsAfter(rules, kind, spent, pools).after[i])
      ensures SamePool(PoolsAfter(rules, kind, spent, pools).after[i], pools[i])
    {
      PoolsAt(rules, kind, spent, pools, i);
      PoolKept(rules, kind, spent, pools[i]);
    }
  }

  lemma {:induction false} SlotsAt(kind: Kind, slots: seq<Slot>, i: nat)
    requires i < |slots|
    ensures SlotsAfter(kind, slots)[i] == SlotAfter(kind, slots[i])
  {
    if i < |slots| - 1 { SlotsAt(kind, slots[..|slots| - 1], i); }
  }

  lemma SlotsKept(kind: Kind, slots: seq<Slot>)
    requires SlotsIn(slots)
    ensures SlotsIn(SlotsAfter(kind, slots))
    ensures forall i :: 0 <= i < |slots| ==> SlotsAfter(kind, slots)[i].(used := 0) == slots[i].(used := 0)
    ensures kind == Long ==> forall i :: 0 <= i < |slots| ==> SlotsAfter(kind, slots)[i].used == 0
  {
    forall i | 0 <= i < |slots|
      ensures SlotsAfter(kind, slots)[i] == SlotAfter(kind, slots[i])
    {
      SlotsAt(kind, slots, i);
    }
  }

  /** A planned rest keeps hit points, pools and slots within bounds and in place, never costs hit points, and frees all slots when long. */
  lemma RestKeepsBounds(rules: Rules, c: Character, kind: Kind, o: Options, face: Faces, at: nat)
    requires WellFormed(c) && GoodRules(rules) && PlanCharacterRest(rules, c, kind, o, face, at).Ok?
    ensures var p := PlanCharacterRest(rules, c, kind, o, face, at).value;
      && c.hpCurrent <= p.hpAfter <= c.hpMax
      && |p.pools.after| == |c.pools| && PoolsIn(p.pools.after) && SlotsIn(p.slotsAfter)
      && (forall i :: 0 <= i < |c.pools| ==> SamePool(p.pools.after[i], c.pools[i]))
      && |p.slotsAfter| == |c.slots|
      && (forall i :: 0 <= i < |c.slots| ==> p.slotsAfter[i].(used := 0) == c.slots[i].(used := 0))
      && (kind == Long ==> forall i :: 0 <= i < |c.slots| ==> p.slotsAfter[i].used == 0)
  {
    var dice := HitDice(rules, c, kind, o).value;
    PoolsKept(rules, kind, dice.0, c.pools);
    SlotsKept(kind, c.slots);
  }

  // ------------------------------------------------------------------ hit dice

  /** How many hit dice are spent. */
  function UsedDice(pools: seq<Pool>): int {
    if pools == [] then 0
    else if pools[|pools| - 1].key == HIT_DICE then pools[|pools| - 1].used
    else UsedDice(pools[..|pools| - 1])
  }

  predicate HasDice(pools: seq<Pool>) { exists i :: 0 <= i < |pools| && pools[i].key == HIT_DICE }

  lemma {:induction false} NoneAvailable(pools: seq<Pool>)
    requires !HasDice(pools)
    ensures Available(pools) == 0
  {
    if pools != [] {
      assert pools[0].key != HIT_DICE;
      forall i | 0 <= i < |pools[1..]| ensures pools[1..][i].key != HIT_DICE { assert pools[1..][i] == pools[i + 1]; }
      NoneAvailable(pools[1..]);
    }
  }

  lemma {:induction false} AvailableAt(pools: seq<Pool>, i: nat)
    requires i < |pools| && pools[i].key == HIT_DICE && KeysOnce(pools)
    ensures Available(pools) == Max(0, pools[i].max - pools[i].used)
  {
    if i > 0 {
      assert pools[0].key != HIT_DICE;
      forall a, b | 0 <= a < b < |pools[1..]| ensures pools[1..][a].key != pools[1..][b].key {
        assert pools[1..][a] == pools[a + 1] && pools[1..][b] == pools[b + 1];
      }
      AvailableAt(pools[1..], i - 1);
    }
  }

  lemma {:induction false} UsedAt(pools: seq<Pool>, i: nat)
    requires i < |pools| && pools[i].key == HIT_DICE && KeysOnce(pools)
    ensures UsedDice(pools) == pools[i].used
  {
    if i < |pools| - 1 { UsedAt(pools[..|pools| - 1], i); }
  }

  lemma LacksDice(pools: seq<Pool>)
    requires !HasDice(pools) && pools != []
    ensures pools[|pools| - 1].key != HIT_DICE && !HasDice(pools[..|pools| - 1])
  {
    var init := pools[..|pools| - 1];
    forall i | 0 <= i < |init| ensures init[i].key != HIT_DICE { assert init[i] == pools[i]; }
  }

  lemma {:induction false} UsedNone(pools: seq<Pool>)
    requires !HasDice(pools)
    ensures UsedDice(pools) == 0
  {
    if pools != [] {
      LacksDice(pools);
      UsedNone(pools[..|pools| - 1]);
    }
  }

  lemma {:induction false} BackNone(rules: Rules, pools: seq<Pool>)
    requires !HasDice(pools)
    ensures PoolsAfter(rules, Long, 0, pools).hitDiceRecovered == 0
  {
    if pools != [] {
      LacksDice(pools);
      BackNone(rules, pools[..|pools| - 1]);
    }
  }

  lemma UsedGrow(pools: seq<Pool>, p: Pool)
    ensures UsedDice(pools + [p]) == if p.key == HIT_DICE then p.used else UsedDice(pools)
  {
    assert (pools + [p])[..|pools|] == pools;
  }

  /** What a long rest reports as recovered is what comes off the used hit dice. */
  lemma {:induction false} DiceBack(rules: Rules, pools: seq<Pool>)
    requires GoodRules(rules) && PoolsIn(pools) && KeysOnce(pools)
    ensures PoolsAfter(rules, Long, 0, pools).hitDiceRecovered
      == UsedDice(pools) - UsedDice(PoolsAfter(rules, Long, 0, pools).after)
  {
    if pools != [] {
      var init, last := pools[..|pools| - 1], pools[|pools| - 1];
      assert pools == init + [last];
      DiceBack(rules, init);
      if last.key == HIT_DICE {
        forall i | 0 <= i < |init| ensures init[i].key != HIT_DICE { assert init[i] == pools[i]; }
        BackNone(rules, init);
      }
      RestoredWithin(rules, last);
      UsedGrow(init, last);
      UsedGrow(PoolsAfter(rules, Long, 0, init).after, PoolAfter(rules, Long, 0, last));
    }
  }

  /** Dice spent are the rolls listed and the rise in used hit dice; a long rest spends none and reports the fall. */
  lemma DiceAccounted(rules: Rules, c: Character, kind: Kind, o: Options, face: Faces, at: nat)
    requires WellFormed(c) && GoodRules(rules) && PlanCharacterRest(rules, c, kind, o, face, at).Ok?
    ensures var p := PlanCharacterRest(rules, c, kind, o, face, at).value;
      && p.hitDiceSpent == |p.hitDiceRolls|
      && (kind == Short ==> p.hitDiceSpent == UsedDice(p.pools.after) - UsedDice(c.pools))
      && (kind == Long ==> p.hitDiceSpent == 0 && p.pools.hitDiceRecovered == UsedDice(c.pools) - UsedDice(p.pools.after))
  {
    var spent := HitDice(rules, c, kind, o).value.0;
    if kind == Long { DiceBack(rules, c.pools); } else { DiceSpent(rules, spent, c.pools); }
  }

  lemma SameKeys(a: seq<Pool>, b: seq<Pool>)
    requires |a| == |b| && forall i :: 0 <= i < |a| ==> a[i].key == b[i].key
    ensures KeysOnce(a) ==> KeysOnce(b)
    ensures HasDice(a) <==> HasDice(b)
  {
    if HasDice(a) {
      var i :| 0 <= i < |a| && a[i].key == HIT_DICE;
      assert b[i].key == HIT_DICE;
    }
  }

  lemma DiceSpent(rules: Rules, spent: nat, pools: seq<Pool>)
    requires PoolsIn(pools) && KeysOnce(pools) && (spent > 0 ==> spent <= Available(pools))
    ensures spent == UsedDice(PoolsAfter(rules, Short, spent, pools).after) - UsedDice(pools)
  {
    var after := PoolsAfter(rules, Short, spent, pools).after;
    PoolsLength(rules, Short, spent, pools);
    forall i | 0 <= i < |pools| ensures after[i].key == pools[i].key && after[i] == PoolAfter(rules, Short, spent, pools[i]) {
      PoolsAt(rules, Short, spent, pools, i);
    }
    SameKeys(pools, after);
    if HasDice(pools) {
      var i :| 0 <= i < |pools| && pools[i].key == HIT_DICE;
      AvailableAt(pools, i);
      UsedAt(pools, i);
      UsedAt(after, i);
    } else {
      NoneAvailable(pools);
      UsedNone(pools);
      UsedNone(after);
    }
  }

  // ------------------------------------------------------------------ conditions

  function NamesOf(cs: seq<Condition>): (r: seq<string>)
    ensures |r| == |cs|
  {
    seq(|cs|, i requires 0 <= i < |cs| => cs[i].name)
  }

  lemma NamesGrow(cs: seq<Condition>, c: Condition)
    ensures NamesOf(cs + [c]) == NamesOf(cs) + [c.name]
  {}

  lemma NamesLast(cs: seq<Condition>)
    requires cs != []
    ensures NamesOf(cs) == NamesOf(cs[..|cs| - 1]) + [cs[|cs| - 1].name]
  {}

  /** The names are dealt to cleared and kept; the kept ones are those that stay, with at least one stack each. */
  predicate Dealt(p: ConditionPlan, names: seq<string>) {
    multiset(p.cleared) + multiset(p.kept) == multiset(names) && p.kept == NamesOf(p.after) && StacksIn(p.after)
  }

  lemma DealCleared(p: ConditionPlan, names: seq<string>, name: string)
    requires Dealt(p, names)
    ensures Dealt(p.(cleared := p.cleared + [name]), names + [name])
  {}

  lemma DealKept(p: ConditionPlan, names: seq<string>, c: Condition, ds: seq<Decrement>)
    requires Dealt(p, names) && c.stacks >= 1
    ensures Dealt(p.(after := p.after + [c], kept := p.kept + [c.name], decremented := ds), names + [c.name])
  {
    NamesGrow(p.after, c);
  }

  lemma DealOne(rules: Rules, kind: Kind, p: ConditionPlan, names: seq<string>, c: Condition)
    requires Dealt(p, names) && c.stacks >= 1
    ensures Dealt(AddCondition(rules, kind, p, c), names + [c.name])
  {
    match OutcomeOf(rules, kind, c.name)
    case Clear => DealCleared(p, names, c.name);
    case Keep => DealKept(p, names, c, p.decremented);
    case Decrease =>
      if c.stacks == 1 {
        DealCleared(p, names, c.name);
      } else {
        DealKept(p, names, Condition(c.name, c.stacks - 1),
          p.decremented + [Decrement(c.name, c.stacks, c.stacks - 1)]);
      }
  }

  /** Every condition lands in exactly one of cleared and kept, and what stays keeps at least one stack. */
  lemma {:induction false} ConditionsSplit(rules: Rules, kind: Kind, cs: seq<Condition>)
    requires StacksIn(cs)
    ensures Dealt(ConditionsAfter(rules, kind, cs), NamesOf(cs))
  {
    if cs != [] {
      var init, last := cs[..|cs| - 1], cs[|cs| - 1];
      ConditionsSplit(rules, kind, init);
      DealOne(rules, kind, ConditionsAfter(rules, kind, init), NamesOf(init), last);
      NamesLast(cs);
    }
  }

  // ------------------------------------------------------------------ the party

  function PlanIds(ps: seq<Plan>): (r: seq<int>)
    ensures |r| == |ps|
  {
    seq(|ps|, i requires 0 <= i < |ps| => ps[i].id)
  }

  function FailureIds(fs: seq<Failure>): (r: seq<int>)
    ensures |r| == |fs|
  {
    seq(|fs|, i requires 0 <= i < |fs| => fs[i].id)
  }

  function PartyIds(cs: seq<Character>): (r: seq<int>)
    ensures |r| == |cs|
  {
    seq(|cs|, i requires 0 <= i < |cs| => cs[i].id)
  }

  function IdOf(r: Result<Plan, Failure>): int { if r.Ok? then r.value.id else r.error.id }

  lemma ResultHasId(rules: Rules, c: Character, kind: Kind, o: Options, face: Faces, at: nat)
    ensures IdOf(PlanCharacterRest(rules, c, kind, o, face, at)) == c.id
  {}

  /** The members with these ids have been planned or failed, once each. */
  predicate Covers(p: PartyPlan, ids: seq<int>) {
    multiset(PlanIds(p.plans)) + multiset(FailureIds(p.failures)) == multiset(ids)
  }

  lemma CoverOne(p: PartyPlan, ids: seq<int>, r: Result<Plan, Failure>)
    requires Covers(p, ids)
    ensures Covers(AddResult(p, r), ids + [IdOf(r)])
  {
    if r.Ok? {
      assert PlanIds(p.plans + [r.value]) == PlanIds(p.plans) + [r.value.id];
    } else {
      assert FailureIds(p.failures + [r.error]) == FailureIds(p.failures) + [r.error.id];
    }
  }

  lemma IdsGrow(party: seq<Character>, n: nat)
    requires n < |party|
    ensures PartyIds(party[..n + 1]) == PartyIds(party[..n]) + [party[n].id]
  {}

  lemma MemberHasId(rules: Rules, party: seq<Character>, kind: Kind, o: int -> Options, face: Faces, n: nat)
    requires n < |party|
    ensures IdOf(ResultFor(rules, party, kind, o, face, n)) == party[n].id
  {
    ResultHasId(rules, party[n], kind, o(party[n].id), face, RolledBy(rules, party, kind, o, face, n));
  }

  /** Each member of the party is planned or failed, exactly once. */
  lemma {:induction false} EachMemberOnce(rules: Rules, party: seq<Character>, kind: Kind, o: int -> Options, face: Faces, n: nat)
    requires n <= |party|
    ensures Covers(PartyAfter(rules, party, kind, o, face, n), PartyIds(party[..n]))
  {
    if n > 0 {
      EachMemberOnce(rules, party, kind, o, face, n - 1);
      CoverOne(PartyAfter(rules, party, kind, o, face, n - 1), PartyIds(party[..n - 1]),
        ResultFor(rules, party, kind, o, face, n - 1));
      MemberHasId(rules, party, kind, o, face, n - 1);
      IdsGrow(party, n - 1);
    }
  }
}
