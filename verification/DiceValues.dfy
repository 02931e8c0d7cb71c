/** What each term of a roll is worth, and what the result adds up to (apps/server/src/common/dice.ts). */
module DiceValues {
  import opened Text
  import opened Sequences
  import opened Dice
  import opened Sorting
  import opened KeptDice
  import opened DiceText
  import opened DiceRolls

  // ------------------------------------------------------------------ sums

  /** The faces that `n` dice show from the `at`-th on, added up. */
  ghost function FaceSum(face: Faces, at: nat, sides: nat, n: nat): int {
    if n == 0 then 0 else FaceSum(face, at, sides, n - 1) + face(at + n - 1, sides)
  }

  ghost function ListSum(s: seq<nat>): int {
    if s == [] then 0 else ListSum(s[..|s| - 1]) + s[|s| - 1]
  }

  ghost function ValueSum(bs: seq<Breakdown>): int {
    if bs == [] then 0 else bs[0].value + ValueSum(bs[1..])
  }

  lemma {:induction false} SumOfAppended(s: seq<nat>, x: nat)
    ensures Sum(s + [x]) == Sum(s) + x
  {
    if s == [] {
      assert s + [x] == [x] && [x][1..] == [];
    } else {
      assert (s + [x])[1..] == s[1..] + [x];
      SumOfAppended(s[1..], x);
    }
  }

  lemma {:induction false} SumIsListSum(s: seq<nat>)
    ensures Sum(s) == ListSum(s)
  {
    if s != [] {
      SplitLast(s);
      SumIsListSum(s[..|s| - 1]);
      SumOfAppended(s[..|s| - 1], s[|s| - 1]);
    }
  }

  lemma {:induction false} SumOfRolls(face: Faces, at: nat, sides: nat, n: nat)
    ensures Sum(RollDie(face, at, sides, n)) == FaceSum(face, at, sides, n)
  {
    if n > 0 {
      SumOfRolls(face, at, sides, n - 1);
      SumOfAppended(RollDie(face, at, sides, n - 1), face(at + n - 1, sides));
    }
  }

  lemma {:induction false} ValuesAppended(bs: seq<Breakdown>, b: Breakdown)
    ensures ValueSum(bs + [b]) == ValueSum(bs) + b.value
  {
    if bs == [] {
      assert bs + [b] == [b] && [b][1..] == [];
    } else {
      assert (bs + [b])[1..] == bs[1..] + [b];
      ValuesAppended(bs[1..], b);
    }
  }

  lemma {:induction false} TotalIsValueSum(bs: seq<Breakdown>)
    ensures TotalOf(bs) == ValueSum(bs)
  {
    if bs != [] {
      SplitLast(bs);
      TotalIsValueSum(bs[..|bs| - 1]);
      ValuesAppended(bs[..|bs| - 1], bs[|bs| - 1]);
    }
  }

  // ------------------------------------------------------------------ one term

  /** The rolls of a term are the faces of its own dice. */
  ghost predicate OwnFaces(rolls: seq<nat>, face: Faces, at: nat, sides: nat, count: nat) {
    |rolls| == count && forall k :: 0 <= k < count ==> rolls[k] == face(at + k, sides)
  }

  /** Some of the rolls, in roll order, by their positions. */
  ghost predicate TakenFrom(kept: seq<nat>, rolls: seq<nat>, ks: seq<nat>) {
    && |kept| == |ks| && (forall i, j :: 0 <= i < j < |ks| ==> ks[i] < ks[j])
    && forall i :: 0 <= i < |ks| ==> ks[i] < |rolls| && kept[i] == rolls[ks[i]]
  }

  /** No choice of as many dice adds up to more, or to less. */
  ghost predicate Extreme(mode: KeepMode, kept: seq<nat>, rolls: seq<nat>) {
    forall s: set<nat> :: s <= Positions(rolls) && |s| == |kept| ==>
      if mode == KH || mode == DL then SumAt(rolls, s, |rolls|) <= ListSum(kept) else ListSum(kept) <= SumAt(rolls, s, |rolls|)
  }

  /** What a term shows: a modifier its number, a die the signed sum of its faces, or of those that its clause keeps. */
  ghost predicate Means(b: Breakdown, t: DiceTerm, text: string, face: Faces, at: nat) {
    && b.term == text
    && match t
       case Modifier(value) => b.value == value && b.rolls == None && b.kept == None
       case Die(count, sides, keep, sign) =>
         && b.rolls.Some? && OwnFaces(b.rolls.value, face, at, sides, count)
         && match keep
            case None =>
              b.kept == None && b.value == (if sign == Minus then -FaceSum(face, at, sides, count) else FaceSum(face, at, sides, count))
            case Some(clause) =>
              && b.kept.Some? && b.value == (if sign == Minus then -ListSum(b.kept.value) else ListSum(b.kept.value))
              && |b.kept.value| == (if clause.mode == KH || clause.mode == KL then clause.n else count - clause.n)
              && (exists ks :: TakenFrom(b.kept.value, b.rolls.value, ks))
              && Extreme(clause.mode, b.kept.value, b.rolls.value)
  }

  lemma {:induction false} AtIs(rolls: seq<nat>, ks: seq<nat>, i: nat)
    requires (forall j :: 0 <= j < |ks| ==> ks[j] < |rolls|) && i < |ks|
    ensures At(rolls, ks)[i] == rolls[ks[i]]
  {
    if i > 0 { AtIs(rolls, ks[1..], i - 1); }
  }

  lemma KeptTaken(rolls: seq<nat>, keep: KeepSpec)
    requires keep.n <= |rolls|
    ensures TakenFrom(KeptFaces(rolls, keep), rolls, KeptIndices(rolls, keep))
  {
    var ks := KeptIndices(rolls, keep);
    KeptInRange(rolls, keep);
    KeptInRollOrder(rolls, keep);
    forall i, j | 0 <= i < j < |ks| ensures ks[i] < ks[j] { SortedPair(Ascending(), ks, i, j); }
    forall i | 0 <= i < |ks| ensures KeptFaces(rolls, keep)[i] == rolls[ks[i]] { AtIs(rolls, ks, i); }
  }

  lemma KeptExtreme(rolls: seq<nat>, keep: KeepSpec)
    requires keep.n <= |rolls|
    ensures Extreme(keep.mode, KeptFaces(rolls, keep), rolls)
  {
    SumIsListSum(KeptFaces(rolls, keep));
    forall s: set<nat> | s <= Positions(rolls) && |s| == |KeptFaces(rolls, keep)|
      ensures if keep.mode == KH || keep.mode == DL then SumAt(rolls, s, |rolls|) <= ListSum(KeptFaces(rolls, keep))
        else ListSum(KeptFaces(rolls, keep)) <= SumAt(rolls, s, |rolls|)
    {
      KeptSumIsExtreme(rolls, keep, s);
    }
  }

  lemma TermMeans(t: DiceTerm, text: string, face: Faces, at: nat)
    requires InBounds(t)
    ensures Means(TermBreakdown(t, text, face, at), t, text, face, at)
  {
    if t.Die? {
      var rolls := RollDie(face, at, t.sides, t.count);
      forall k | 0 <= k < t.count ensures rolls[k] == face(at + k, t.sides) { DieAt(face, at, t.sides, t.count, at + k); }
      SumOfRolls(face, at, t.sides, t.count);
      if t.keep.Some? {
        KeptTaken(rolls, t.keep.value);
        KeptExtreme(rolls, t.keep.value);
        SumIsListSum(KeptFaces(rolls, t.keep.value));
      }
    }
  }

  // ------------------------------------------------------------------ the whole roll

  /** The dice that the terms before the `i`-th roll. */
  ghost function DiceBefore(ts: seq<DiceTerm>, i: nat): nat
    requires i <= |ts|
  {
    if i == 0 then 0 else DiceBefore(ts, i - 1) + if ts[i - 1].Die? then ts[i - 1].count else 0
  }

  ghost predicate AllMean(bs: seq<Breakdown>, ts: seq<DiceTerm>, texts: seq<string>, face: Faces) {
    |bs| == |ts| == |texts| && forall i :: 0 <= i < |ts| ==> Means(bs[i], ts[i], texts[i], face, DiceBefore(ts, i))
  }

  /** The only die term of the list, with a keep clause. */
  ghost predicate LoneClause(ts: seq<DiceTerm>, i: nat) {
    i < |ts| && ts[i].Die? && ts[i].keep.Some? && forall j :: 0 <= j < |ts| && j != i ==> ts[j].Modifier?
  }

  /**
   * The total of what the terms are worth, every face rolled once in order, the kept dice of a lone die term with a clause,
   * and the terms only of an expression with several.
   */
  ghost predicate AddsUp(r: RollResult, ts: seq<DiceTerm>, bs: seq<Breakdown>, face: Faces)
    requires |bs| == |ts|
  {
    && r.total == ValueSum(bs)
    && |r.rolls| == DiceBefore(ts, |ts|)
    && (forall i :: 0 <= i < |ts| && ts[i].Die? ==> RolledInOrder(r.rolls, face, DiceBefore(ts, i), ts[i].sides, ts[i].count))
    && r.terms == (if |ts| > 1 then Some(bs) else None)
    && KeepsLone(r.kept, ts, bs)
  }

  ghost predicate KeepsLone(kept: Option<seq<nat>>, ts: seq<DiceTerm>, bs: seq<Breakdown>)
    requires |bs| == |ts|
  {
    && (forall i :: 0 <= i < |ts| && LoneClause(ts, i) ==> kept == bs[i].kept)
    && ((forall i :: 0 <= i < |ts| ==> !LoneClause(ts, i)) ==> kept == None)
  }

  /** A result: its terms mean what they show, and it adds them up. */
  ghost predicate ResultMeans(r: RollResult, expr: string, ts: seq<DiceTerm>, texts: seq<string>, face: Faces) {
    r.expr == expr && exists bs: seq<Breakdown> :: AllMean(bs, ts, texts, face) && AddsUp(r, ts, bs, face)
  }

  lemma {:induction false} RolledIsBefore(ts: seq<DiceTerm>, i: nat)
    requires i <= |ts|
    ensures Rolled(ts, i) == DiceBefore(ts, i)
  {
    if i > 0 { RolledIsBefore(ts, i - 1); }
  }

  lemma BreakdownsMean(ts: seq<DiceTerm>, texts: seq<string>, face: Faces)
    requires AllInBounds(ts) && |texts| == |ts|
    ensures AllMean(Breakdowns(ts, texts, face, |ts|), ts, texts, face)
  {
    forall i | 0 <= i < |ts| ensures Means(Breakdowns(ts, texts, face, |ts|)[i], ts[i], texts[i], face, DiceBefore(ts, i)) {
      BreakdownAt(ts, texts, face, |ts|, i);
      RolledIsBefore(ts, i);
      TermMeans(ts[i], texts[i], face, DiceBefore(ts, i));
    }
  }

  lemma {:induction false} OneDieTerm(ts: seq<DiceTerm>, i: nat)
    requires i < |ts| && ts[i].Die?
    ensures DieTerms(ts) == 1 <==> forall j :: 0 <= j < |ts| && j != i ==> ts[j].Modifier?
  {
    var init := ts[..|ts| - 1];
    SplitLast(ts);
    if i < |ts| - 1 {
      OneDieTerm(init, i);
      DieIsCounted(init, i);
    } else {
      NoDieTerm(init);
    }
  }

  lemma {:induction false} NoDieTerm(ts: seq<DiceTerm>)
    ensures DieTerms(ts) == 0 <==> forall j :: 0 <= j < |ts| ==> ts[j].Modifier?
  {
    if ts != [] {
      SplitLast(ts);
      NoDieTerm(ts[..|ts| - 1]);
    }
  }

  /** A lone die term with a clause is exactly when the result has a flat list of kept dice. */
  lemma LoneClauseIff(ts: seq<DiceTerm>, i: nat)
    requires i < |ts| && LoneClause(ts, i)
    ensures AnyKeep(ts) && DieTerms(ts) == 1
  {
    OneDieTerm(ts, i);
    assert HasKeep(ts[i]);
  }

  lemma NoLoneClause(ts: seq<DiceTerm>)
    requires forall i :: 0 <= i < |ts| ==> !LoneClause(ts, i)
    ensures !(AnyKeep(ts) && DieTerms(ts) == 1)
  {
    if AnyKeep(ts) && DieTerms(ts) == 1 {
      var i :| 0 <= i < |ts| && HasKeep(ts[i]);
      OneDieTerm(ts, i);
      assert LoneClause(ts, i);
    }
  }

  lemma KeptOfResult(expr: string, ts: seq<DiceTerm>, texts: seq<string>, face: Faces, i: nat)
    requires AllInBounds(ts) && |texts| == |ts| && i < |ts| && LoneClause(ts, i)
    ensures ResultOf(expr, ts, Breakdowns(ts, texts, face, |ts|)).kept == Breakdowns(ts, texts, face, |ts|)[i].kept
  {
    LoneClauseIff(ts, i);
    assert ts[..|ts|] == ts;
    LoneDieKept(ts, texts, face, |ts|, i);
    BreakdownAt(ts, texts, face, |ts|, i);
  }

  lemma KeptRight(expr: string, ts: seq<DiceTerm>, texts: seq<string>, face: Faces)
    requires AllInBounds(ts) && |texts| == |ts|
    ensures KeepsLone(ResultOf(expr, ts, Breakdowns(ts, texts, face, |ts|)).kept, ts, Breakdowns(ts, texts, face, |ts|))
  {
    var bs := Breakdowns(ts, texts, face, |ts|);
    forall i | 0 <= i < |ts| && LoneClause(ts, i) ensures ResultOf(expr, ts, bs).kept == bs[i].kept {
      KeptOfResult(expr, ts, texts, face, i);
    }
    if forall i :: 0 <= i < |ts| ==> !LoneClause(ts, i) { NoLoneClause(ts); }
  }

  lemma RollsOfResult(ts: seq<DiceTerm>, texts: seq<string>, face: Faces)
    requires AllInBounds(ts) && |texts| == |ts|
    ensures var rolls := RollsOf(Breakdowns(ts, texts, face, |ts|));
      && |rolls| == DiceBefore(ts, |ts|)
      && forall i :: 0 <= i < |ts| && ts[i].Die? ==> RolledInOrder(rolls, face, DiceBefore(ts, i), ts[i].sides, ts[i].count)
  {
    RollsLength(ts, texts, face, |ts|);
    RolledIsBefore(ts, |ts|);
    forall i | 0 <= i < |ts| && ts[i].Die?
      ensures RolledInOrder(RollsOf(Breakdowns(ts, texts, face, |ts|)), face, DiceBefore(ts, i), ts[i].sides, ts[i].count)
    {
      RolledIsBefore(ts, i);
      RollsAreTheFaces(ts, texts, face, |ts|, i);
    }
  }

  /** What the roller returns for a parsed expression. */
  lemma ResultOfMeans(expr: string, ts: seq<DiceTerm>, texts: seq<string>, face: Faces)
    requires AllInBounds(ts) && |texts| == |ts|
    ensures ResultMeans(ResultOf(expr, ts, Breakdowns(ts, texts, face, |ts|)), expr, ts, texts, face)
  {
    var bs := Breakdowns(ts, texts, face, |ts|);
    BreakdownsMean(ts, texts, face);
    TotalIsValueSum(bs);
    RollsOfResult(ts, texts, face);
    KeptRight(expr, ts, texts, face);
    assert AddsUp(ResultOf(expr, ts, bs), ts, bs, face);
  }

  /** `rollDice`: an accepted expression gives what its terms mean, any other the parser's error. */
  method RollDice(expr: string, face: Faces) returns (r: Result<RollResult, DiceError>)
    ensures r.Err? <==> ParseCompoundDiceExpr(expr).Err?
    ensures r.Err? ==> r.error == ParseCompoundDiceExpr(expr).error
    ensures r.Ok? ==> var ts := ParseCompoundDiceExpr(expr).value;
      AllInBounds(ts) && |TermSourceTexts(expr)| == |ts|
      && r.value == ResultOf(expr, ts, Breakdowns(ts, TermSourceTexts(expr), face, |ts|))
      && ResultMeans(r.value, expr, ts, TermSourceTexts(expr), face)
  {
    var parsed := ParseCompoundDiceExpr(expr);
    match parsed {
      case Err(e) => r := Err(e);
      case Ok(ts) =>
        ParsedInBounds(expr);
        var rolled := RollTerms(expr, ts, TermSourceTexts(expr), face);
        ResultOfMeans(expr, ts, TermSourceTexts(expr), face);
        r := Ok(rolled);
    }
  }
}
