/** Rolling an expression (apps/server/src/common/dice.ts, `rollDice`); the faces are an input. */
module DiceRolls {
  import opened Text
  import opened Dice
  import opened Sorting
  import opened KeptDice
  import opened DiceText

  /** Face `k` of a run of rolls, for a die of so many sides. */
  type Faces = (nat, nat) -> nat

  ghost predicate Fair(face: Faces) {
    forall k: nat, sides: nat :: sides > 0 ==> 1 <= face(k, sides) <= sides
  }

  datatype Breakdown = Breakdown(term: string, value: int, rolls: Option<seq<nat>>, kept: Option<seq<nat>>)

  datatype RollResult =
    RollResult(expr: string, rolls: seq<nat>, total: int, kept: Option<seq<nat>>, terms: Option<seq<Breakdown>>)

  function RollDie(face: Faces, at: nat, sides: nat, count: nat): (r: seq<nat>)
    ensures |r| == count
  {
    if count == 0 then [] else RollDie(face, at, sides, count - 1) + [face(at + count - 1, sides)]
  }

  function Sum(s: seq<nat>): nat {
    if s == [] then 0 else s[0] + Sum(s[1..])
  }

  function At(rolls: seq<nat>, ks: seq<nat>): (r: seq<nat>)
    requires forall i :: 0 <= i < |ks| ==> ks[i] < |rolls|
    ensures |r| == |ks|
  {
    if ks == [] then [] else [rolls[ks[0]]] + At(rolls, ks[1..])
  }

  function Mul(sign: Sign): int { if sign == Minus then -1 else 1 }

  lemma KeptInRange(rolls: seq<nat>, keep: KeepSpec)
    requires keep.n <= |rolls|
    ensures forall i :: 0 <= i < |KeptIndices(rolls, keep)| ==> KeptIndices(rolls, keep)[i] < |rolls|
  {
    KeptInRollOrder(rolls, keep);
    forall i | 0 <= i < |KeptIndices(rolls, keep)| ensures KeptIndices(rolls, keep)[i] < |rolls| {
      assert KeptIndices(rolls, keep)[i] in Kept(rolls, keep);
    }
  }

  function KeptFaces(rolls: seq<nat>, keep: KeepSpec): (r: seq<nat>)
    requires keep.n <= |rolls|
    ensures |r| == KeptCount(keep, |rolls|)
  {
    KeptInRange(rolls, keep);
    At(rolls, KeptIndices(rolls, keep))
  }

  /** What one term contributes, `at` dice having been rolled before it. */
  function TermBreakdown(t: DiceTerm, text: string, face: Faces, at: nat): Breakdown
    requires InBounds(t)
  {
    match t
    case Modifier(value) => Breakdown(text, value, None, None)
    case Die(count, sides, keep, sign) =>
      var rolls := RollDie(face, at, sides, count);
      if keep == None then Breakdown(text, Mul(sign) * Sum(rolls), Some(rolls), None)
      else
        var kept := KeptFaces(rolls, keep.value);
        Breakdown(text, Mul(sign) * Sum(kept), Some(rolls), Some(kept))
  }

  function DiceOf(t: DiceTerm): nat { if t.Die? then t.count else 0 }

  /** The contributions of the first `n` terms, and how many dice they roll. */
  function Rolled(ts: seq<DiceTerm>, n: nat): nat
    requires n <= |ts|
  {
    if n == 0 then 0 else Rolled(ts, n - 1) + DiceOf(ts[n - 1])
  }

  function Breakdowns(ts: seq<DiceTerm>, texts: seq<string>, face: Faces, n: nat): (bs: seq<Breakdown>)
    requires AllInBounds(ts) && |texts| == |ts| && n <= |ts|
    ensures |bs| == n
  {
    if n == 0 then []
    else Breakdowns(ts, texts, face, n - 1) + [TermBreakdown(ts[n - 1], texts[n - 1], face, Rolled(ts, n - 1))]
  }

  function RollsIn(b: Breakdown): seq<nat> { if b.rolls.Some? then b.rolls.value else [] }

  function KeptIn(b: Breakdown): seq<nat> { if b.kept.Some? then b.kept.value else [] }

  function RollsOf(bs: seq<Breakdown>): seq<nat> {
    if bs == [] then []
    else RollsOf(bs[..|bs| - 1]) + RollsIn(bs[|bs| - 1])
  }

  function KeptOf(bs: seq<Breakdown>): seq<nat> {
    if bs == [] then []
    else KeptOf(bs[..|bs| - 1]) + KeptIn(bs[|bs| - 1])
  }

  function TotalOf(bs: seq<Breakdown>): int {
    if bs == [] then 0 else TotalOf(bs[..|bs| - 1]) + bs[|bs| - 1].value
  }

  function DieTerms(ts: seq<DiceTerm>): nat {
    if ts == [] then 0 else DieTerms(ts[..|ts| - 1]) + (if ts[|ts| - 1].Die? then 1 else 0)
  }

  predicate HasKeep(t: DiceTerm) { t.Die? && t.keep.Some? }

  predicate AnyKeep(ts: seq<DiceTerm>) { exists i :: 0 <= i < |ts| && HasKeep(ts[i]) }

  /** The result for an expression: the flat `kept` only for a lone die term, `terms` only for several terms. */
  function ResultOf(expr: string, ts: seq<DiceTerm>, bs: seq<Breakdown>): RollResult {
    RollResult(expr, RollsOf(bs), TotalOf(bs), if AnyKeep(ts) && DieTerms(ts) == 1 then Some(KeptOf(bs)) else None,
      if |ts| > 1 then Some(bs) else None)
  }

  lemma Pushed(bs: seq<Breakdown>, b: Breakdown)
    ensures RollsOf(bs + [b]) == RollsOf(bs) + RollsIn(b)
    ensures KeptOf(bs + [b]) == KeptOf(bs) + KeptIn(b)
    ensures TotalOf(bs + [b]) == TotalOf(bs) + b.value
  {
    assert (bs + [b])[..|bs|] == bs;
  }

  lemma TermRolls(t: DiceTerm, text: string, face: Faces, at: nat)
    requires InBounds(t)
    ensures RollsIn(TermBreakdown(t, text, face, at)) ==
      if t.Die? then RollDie(face, at, t.sides, t.count) else []
    ensures |RollsIn(TermBreakdown(t, text, face, at))| == DiceOf(t)
  {}

  function RollsTo(ts: seq<DiceTerm>, texts: seq<string>, face: Faces, n: nat): seq<nat>
    requires AllInBounds(ts) && |texts| == |ts| && n <= |ts|
  {
    RollsOf(Breakdowns(ts, texts, face, n))
  }

  lemma RollsGrow(ts: seq<DiceTerm>, texts: seq<string>, face: Faces, n: nat)
    requires AllInBounds(ts) && |texts| == |ts| && n < |ts|
    ensures RollsTo(ts, texts, face, n + 1) == RollsTo(ts, texts, face, n) +
      if ts[n].Die? then RollDie(face, Rolled(ts, n), ts[n].sides, ts[n].count) else []
  {
    Pushed(Breakdowns(ts, texts, face, n), TermBreakdown(ts[n], texts[n], face, Rolled(ts, n)));
    TermRolls(ts[n], texts[n], face, Rolled(ts, n));
  }

  lemma {:induction false} RollsLength(ts: seq<DiceTerm>, texts: seq<string>, face: Faces, n: nat)
    requires AllInBounds(ts) && |texts| == |ts| && n <= |ts|
    ensures |RollsTo(ts, texts, face, n)| == Rolled(ts, n)
  {
    if n > 0 {
      RollsLength(ts, texts, face, n - 1);
      RollsGrow(ts, texts, face, n - 1);
    }
  }

  // --------------------------------------------------------------------- the loop

  /** The loop's variables. */
  datatype Tally = Tally(bs: seq<Breakdown>, rolls: seq<nat>, kept: seq<nat>, anyKeep: bool, total: int)

  /** One more term's contribution. */
  function Add(s: Tally, b: Breakdown, keep: bool): Tally {
    Tally(s.bs + [b], s.rolls + RollsIn(b), s.kept + KeptIn(b), s.anyKeep || keep, s.total + b.value)
  }

  /** Their values after the first `n` terms. */
  ghost function TallyOf(ts: seq<DiceTerm>, texts: seq<string>, face: Faces, n: nat): Tally
    requires AllInBounds(ts) && |texts| == |ts| && n <= |ts|
  {
    var bs := Breakdowns(ts, texts, face, n);
    Tally(bs, RollsTo(ts, texts, face, n), KeptOf(bs), AnyKeep(ts[..n]), TotalOf(bs))
  }

  lemma AnyKeepGrows(ts: seq<DiceTerm>, n: nat)
    requires n < |ts|
    ensures AnyKeep(ts[..n + 1]) <==> AnyKeep(ts[..n]) || HasKeep(ts[n])
  {
    if AnyKeep(ts[..n]) {
      var i :| 0 <= i < n && HasKeep(ts[..n][i]);
      assert HasKeep(ts[..n + 1][i]);
    }
    if HasKeep(ts[n]) { assert HasKeep(ts[..n + 1][n]); }
    if AnyKeep(ts[..n + 1]) {
      var i :| 0 <= i < n + 1 && HasKeep(ts[..n + 1][i]);
      if i < n { assert HasKeep(ts[..n][i]); }
    }
  }

  ghost predicate CanRoll(ts: seq<DiceTerm>, texts: seq<string>, n: nat) {
    AllInBounds(ts) && |texts| == |ts| && n < |ts|
  }

  lemma Step(ts: seq<DiceTerm>, texts: seq<string>, face: Faces, n: nat, s: Tally, b: Breakdown)
    requires CanRoll(ts, texts, n) && s == TallyOf(ts, texts, face, n)
    requires b == TermBreakdown(ts[n], texts[n], face, |s.rolls|)
    ensures TallyOf(ts, texts, face, n + 1) == Add(s, b, HasKeep(ts[n]))
  {
    RollsLength(ts, texts, face, n);
    Pushed(s.bs, b);
    AnyKeepGrows(ts, n);
  }

  lemma Finished(expr: string, ts: seq<DiceTerm>, texts: seq<string>, face: Faces, s: Tally)
    requires AllInBounds(ts) && |texts| == |ts| && s == TallyOf(ts, texts, face, |ts|)
    ensures ResultOf(expr, ts, Breakdowns(ts, texts, face, |ts|)) ==
      RollResult(expr, s.rolls, s.total, if s.anyKeep && DieTerms(ts) == 1 then Some(s.kept) else None,
        if |ts| > 1 then Some(s.bs) else None)
  {
    assert ts[..|ts|] == ts;
  }

  /** The loop's body: roll every die of the term, then keep or drop. */
  method RollTerm(t: DiceTerm, text: string, face: Faces, at: nat) returns (b: Breakdown)
    requires InBounds(t)
    ensures b == TermBreakdown(t, text, face, at)
  {
    match t {
      case Modifier(value) => b := Breakdown(text, value, None, None);
      case Die(count, sides, keep, sign) =>
        var rolls := RollDie(face, at, sides, count);
        if keep == None {
          b := Breakdown(text, Mul(sign) * Sum(rolls), Some(rolls), None);
        } else {
          var kept := KeptFaces(rolls, keep.value);
          b := Breakdown(text, Mul(sign) * Sum(kept), Some(rolls), Some(kept));
        }
    }
  }

  method RollTerms(expr: string, ts: seq<DiceTerm>, texts: seq<string>, face: Faces) returns (r: RollResult)
    requires AllInBounds(ts) && |texts| == |ts|
    ensures r == ResultOf(expr, ts, Breakdowns(ts, texts, face, |ts|))
  {
    var all := Tally([], [], [], false, 0);
    var i := 0;
    while i < |ts|
      invariant i <= |ts| && all == TallyOf(ts, texts, face, i)
    {
      var b := RollTerm(ts[i], texts[i], face, |all.rolls|);
      Step(ts, texts, face, i, all, b);
      all := Add(all, b, HasKeep(ts[i]));
      i := i + 1;
    }
    Finished(expr, ts, texts, face, all);
    r := RollResult(expr, all.rolls, all.total, if all.anyKeep && DieTerms(ts) == 1 then Some(all.kept) else None,
      if |ts| > 1 then Some(all.bs) else None);
  }

  // ------------------------------------------------------------------ what a roll is

  lemma {:induction false} DieAt(face: Faces, at: nat, sides: nat, count: nat, k: nat)
    requires at <= k < at + count
    ensures RollDie(face, at, sides, count)[k - at] == face(k, sides)
  {
    if k < at + count - 1 { DieAt(face, at, sides, count - 1, k); }
  }

  lemma {:induction false} BreakdownAt(ts: seq<DiceTerm>, texts: seq<string>, face: Faces, n: nat, i: nat)
    requires AllInBounds(ts) && |texts| == |ts| && i < n <= |ts|
    ensures Breakdowns(ts, texts, face, n)[i] == TermBreakdown(ts[i], texts[i], face, Rolled(ts, i))
  {
    if i < n - 1 { BreakdownAt(ts, texts, face, n - 1, i); }
  }

  /** Every die of term `t`, rolled when `at` dice have been, is the face of its own number. */
  ghost predicate RolledInOrder(rolls: seq<nat>, face: Faces, at: nat, sides: nat, count: nat) {
    at + count <= |rolls| && forall k :: at <= k < at + count ==> rolls[k] == face(k, sides)
  }

  lemma StaysInOrder(a: seq<nat>, b: seq<nat>, face: Faces, at: nat, sides: nat, count: nat)
    requires RolledInOrder(a, face, at, sides, count)
    ensures RolledInOrder(a + b, face, at, sides, count)
  {}

  lemma RolledLast(a: seq<nat>, face: Faces, sides: nat, count: nat)
    ensures RolledInOrder(a + RollDie(face, |a|, sides, count), face, |a|, sides, count)
  {
    var b := RollDie(face, |a|, sides, count);
    forall k | |a| <= k < |a| + count ensures (a + b)[k] == face(k, sides) { DieAt(face, |a|, sides, count, k); }
  }

  /** The rolls are the faces in order, each rolled once, each for the die whose turn it was. */
  lemma {:induction false} RollsAreTheFaces(ts: seq<DiceTerm>, texts: seq<string>, face: Faces, n: nat, i: nat)
    requires AllInBounds(ts) && |texts| == |ts| && i < n <= |ts| && ts[i].Die?
    ensures RolledInOrder(RollsTo(ts, texts, face, n), face, Rolled(ts, i), ts[i].sides, ts[i].count)
    ensures |RollsTo(ts, texts, face, n)| == Rolled(ts, n)
  {
    RollsGrow(ts, texts, face, n - 1);
    RollsLength(ts, texts, face, n);
    if i < n - 1 {
      RollsAreTheFaces(ts, texts, face, n - 1, i);
      var more := if ts[n - 1].Die? then RollDie(face, Rolled(ts, n - 1), ts[n - 1].sides, ts[n - 1].count) else [];
      StaysInOrder(RollsTo(ts, texts, face, n - 1), more, face, Rolled(ts, i), ts[i].sides, ts[i].count);
    } else {
      RollsLength(ts, texts, face, i);
      RolledLast(RollsTo(ts, texts, face, i), face, ts[i].sides, ts[i].count);
    }
  }

  // ---------------------------------------------------------------------- bounds

  /** How many dice of a term count. */
  function Counted(t: DiceTerm): nat
    requires t.Die? && InBounds(t)
  {
    if t.keep == None then t.count else KeptCount(t.keep.value, t.count)
  }

  function Low(t: DiceTerm): int
    requires InBounds(t)
  {
    match t
    case Modifier(value) => value
    case Die(_, sides, _, sign) => if sign == Minus then -1 * (Counted(t) * sides) else Counted(t)
  }

  function High(t: DiceTerm): int
    requires InBounds(t)
  {
    match t
    case Modifier(value) => value
    case Die(_, sides, _, sign) => if sign == Minus then -1 * Counted(t) else Counted(t) * sides
  }

  function LowTotal(ts: seq<DiceTerm>, n: nat): int
    requires AllInBounds(ts) && n <= |ts|
  {
    if n == 0 then 0 else LowTotal(ts, n - 1) + Low(ts[n - 1])
  }

  function HighTotal(ts: seq<DiceTerm>, n: nat): int
    requires AllInBounds(ts) && n <= |ts|
  {
    if n == 0 then 0 else HighTotal(ts, n - 1) + High(ts[n - 1])
  }

  ghost predicate FacesOf(s: seq<nat>, sides: nat) { forall i :: 0 <= i < |s| ==> 1 <= s[i] <= sides }

  lemma {:induction false} SumWithin(s: seq<nat>, sides: nat)
    requires FacesOf(s, sides)
    ensures |s| <= Sum(s) <= |s| * sides
  {
    if s != [] {
      SumWithin(s[1..], sides);
      OneMore(|s| - 1, sides);
    }
  }

  lemma OneMore(a: nat, b: nat)
    ensures (a + 1) * b == a * b + b
  {}

  lemma {:induction false} RolledFaces(face: Faces, at: nat, sides: nat, count: nat)
    requires Fair(face) && sides > 0
    ensures FacesOf(RollDie(face, at, sides, count), sides)
  {
    if count > 0 { RolledFaces(face, at, sides, count - 1); }
  }

  lemma {:induction false} PickedFaces(rolls: seq<nat>, ks: seq<nat>, sides: nat)
    requires FacesOf(rolls, sides) && forall i :: 0 <= i < |ks| ==> ks[i] < |rolls|
    ensures FacesOf(At(rolls, ks), sides)
  {
    if ks != [] { PickedFaces(rolls, ks[1..], sides); }
  }

  lemma KeptWithin(rolls: seq<nat>, keep: KeepSpec, sides: nat)
    requires FacesOf(rolls, sides) && keep.n <= |rolls|
    ensures KeptCount(keep, |rolls|) <= Sum(KeptFaces(rolls, keep)) <= KeptCount(keep, |rolls|) * sides
  {
    KeptInRange(rolls, keep);
    PickedFaces(rolls, KeptIndices(rolls, keep), sides);
    SumWithin(KeptFaces(rolls, keep), sides);
  }

  lemma TermWithin(t: DiceTerm, text: string, face: Faces, at: nat)
    requires InBounds(t) && Fair(face)
    ensures Low(t) <= TermBreakdown(t, text, face, at).value <= High(t)
  {
    if t.Die? {
      var rolls := RollDie(face, at, t.sides, t.count);
      RolledFaces(face, at, t.sides, t.count);
      if t.keep == None { SumWithin(rolls, t.sides); } else { KeptWithin(rolls, t.keep.value, t.sides); }
    }
  }

  /** With fair dice the total lies between the bounds its terms imply. */
  lemma {:induction false} TotalWithin(ts: seq<DiceTerm>, texts: seq<string>, face: Faces, n: nat)
    requires AllInBounds(ts) && |texts| == |ts| && n <= |ts| && Fair(face)
    ensures LowTotal(ts, n) <= TotalOf(Breakdowns(ts, texts, face, n)) <= HighTotal(ts, n)
  {
    if n > 0 {
      TotalWithin(ts, texts, face, n - 1);
      TermWithin(ts[n - 1], texts[n - 1], face, Rolled(ts, n - 1));
      Pushed(Breakdowns(ts, texts, face, n - 1), TermBreakdown(ts[n - 1], texts[n - 1], face, Rolled(ts, n - 1)));
    }
  }

  // ------------------------------------------------------------------- kept dice

  lemma {:induction false} SumAtWith(rolls: seq<nat>, s: set<nat>, x: nat, m: nat)
    requires m <= |rolls| && x < |rolls| && x !in s
    ensures SumAt(rolls, {x} + s, m) == SumAt(rolls, s, m) + if x < m then rolls[x] else 0
  {
    if m > 0 { SumAtWith(rolls, s, x, m - 1); }
  }

  lemma {:induction false} SumAtNone(rolls: seq<nat>, m: nat)
    requires m <= |rolls|
    ensures SumAt(rolls, {}, m) == 0
  {
    if m > 0 { SumAtNone(rolls, m - 1); }
  }

  /** Adding up the faces at distinct positions is adding up the faces at their set. */
  lemma {:induction false} SumOfPicked(rolls: seq<nat>, ks: seq<nat>)
    requires Distinct(ks) && forall i :: 0 <= i < |ks| ==> ks[i] < |rolls|
    ensures Sum(At(rolls, ks)) == SumAt(rolls, Elements(ks), |rolls|)
  {
    if ks == [] {
      assert Elements(ks) == {};
      SumAtNone(rolls, |rolls|);
    } else {
      SumOfPicked(rolls, ks[1..]);
      ElementsSplit(ks);
      assert ks[0] !in Elements(ks[1..]);
      SumAtWith(rolls, Elements(ks[1..]), ks[0], |rolls|);
      assert At(rolls, ks)[1..] == At(rolls, ks[1..]);
    }
  }

  /** What a clause adds up: at least any other choice of as many dice when it favours high ones, else at most. */
  lemma KeptSumIsExtreme(rolls: seq<nat>, keep: KeepSpec, s: set<nat>)
    requires keep.n <= |rolls| && s <= Positions(rolls) && |s| == KeptCount(keep, |rolls|)
    ensures keep.mode in {KH, DL} ==> SumAt(rolls, s, |rolls|) <= Sum(KeptFaces(rolls, keep))
    ensures keep.mode in {KL, DH} ==> Sum(KeptFaces(rolls, keep)) <= SumAt(rolls, s, |rolls|)
  {
    KeptInRange(rolls, keep);
    KeptInRollOrder(rolls, keep);
    SumOfPicked(rolls, KeptIndices(rolls, keep));
    var n := KeptCount(keep, |rolls|);
    KeepIsDrop(rolls, n);
    if keep.mode in {KH, DL} { HighestIsBest(rolls, n, s); } else { LowestIsLeast(rolls, n, s); }
  }

  lemma {:induction false} NoDieNoKept(ts: seq<DiceTerm>, texts: seq<string>, face: Faces, n: nat)
    requires AllInBounds(ts) && |texts| == |ts| && n <= |ts| && DieTerms(ts[..n]) == 0
    ensures KeptOf(Breakdowns(ts, texts, face, n)) == []
  {
    if n > 0 {
      assert ts[..n][..n - 1] == ts[..n - 1];
      NoDieNoKept(ts, texts, face, n - 1);
      Pushed(Breakdowns(ts, texts, face, n - 1), TermBreakdown(ts[n - 1], texts[n - 1], face, Rolled(ts, n - 1)));
    }
  }

  /** With one die term among the first `n`, the flat list of kept dice is that term's. */
  lemma {:induction false} LoneDieKept(ts: seq<DiceTerm>, texts: seq<string>, face: Faces, n: nat, i: nat)
    requires AllInBounds(ts) && |texts| == |ts| && i < n <= |ts| && DieTerms(ts[..n]) == 1 && ts[i].Die?
    ensures KeptOf(Breakdowns(ts, texts, face, n)) == KeptIn(Breakdowns(ts, texts, face, n)[i])
  {
    var b := TermBreakdown(ts[n - 1], texts[n - 1], face, Rolled(ts, n - 1));
    assert ts[..n][..n - 1] == ts[..n - 1];
    Pushed(Breakdowns(ts, texts, face, n - 1), b);
    if i == n - 1 {
      NoDieNoKept(ts, texts, face, n - 1);
    } else {
      DieIsCounted(ts[..n - 1], i);
      LoneDieKept(ts, texts, face, n - 1, i);
    }
  }

  lemma {:induction false} DieIsCounted(ts: seq<DiceTerm>, i: nat)
    requires i < |ts| && ts[i].Die?
    ensures DieTerms(ts) >= 1
  {
    if i < |ts| - 1 { DieIsCounted(ts[..|ts| - 1], i); }
  }
}
