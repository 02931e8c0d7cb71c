/** The undo stack of the fog editor (packages/schema/src/fog-editor.ts) and the editor that drives it
    (apps/web/src/features/encounters/map/BattleMap.tsx). */
module FogUndo {
  import opened Text
  import opened Fog

  /** A fog state, or `None` for a map whose fog was never configured. */
  type Snapshot = Option<FogState>

  const UNDO_MAX: nat := 50

  function IdText(r: FogRect): string { if r.id.Some? then r.id.value else "" }

  predicate RectsEqual(a: FogRect, b: FogRect) {
    a.x == b.x && a.y == b.y && a.w == b.w && a.h == b.h && IdText(a) == IdText(b)
  }

  predicate FogStatesEqual(a: Snapshot, b: Snapshot) {
    if a.None? || b.None? then a.None? && b.None?
    else
      && a.value.enabled == b.value.enabled
      && |a.value.revealed| == |b.value.revealed|
      && forall i :: 0 <= i < |a.value.revealed| ==> RectsEqual(a.value.revealed[i], b.value.revealed[i])
  }

  /** Pushing one more snapshot shifts out the oldest beyond the limit. */
  function Pushed(past: seq<Snapshot>, s: Snapshot): seq<Snapshot> {
    if |past| + 1 > UNDO_MAX then (past + [s])[1..] else past + [s]
  }

  class FogUndoStack {
    var past: seq<Snapshot>
    var future: seq<Snapshot>

    constructor ()
      ensures past == [] && future == []
    {
      past, future := [], [];
    }

    method Reset()
      modifies this
      ensures past == [] && future == []
    {
      past, future := [], [];
    }

    method Commit(previous: Snapshot, next: Snapshot)
      modifies this
      ensures past == if FogStatesEqual(previous, next) then old(past) else Pushed(old(past), previous)
      ensures future == if FogStatesEqual(previous, next) then old(future) else []
    {
      if FogStatesEqual(previous, next) { return; }
      past := past + [previous];
      if |past| > UNDO_MAX { past := past[1..]; }
      future := [];
    }

    predicate CanUndo() reads this { |past| > 0 }

    predicate CanRedo() reads this { |future| > 0 }

    method Undo(current: Snapshot) returns (r: Snapshot)
      modifies this
      ensures old(!CanUndo()) ==> r == None && past == old(past) && future == old(future)
      ensures old(CanUndo()) ==> past + [r] == old(past) && future == old(future) + [current]
    {
      if !CanUndo() { return None; }
      r := past[|past| - 1];
      past := past[..|past| - 1];
      future := future + [current];
    }

    method Redo(current: Snapshot) returns (r: Snapshot)
      modifies this
      ensures old(!CanRedo()) ==> r == None && past == old(past) && future == old(future)
      ensures old(CanRedo()) ==> future + [r] == old(future) && past == old(past) + [current]
    {
      if !CanRedo() { return None; }
      r := future[|future| - 1];
      future := future[..|future| - 1];
      past := past + [current];
    }
  }

  // ------------------------------------------------------------ the editing session

  datatype EditorOp = CommitEdit(next: Snapshot) | UndoEdit | RedoEdit

  /** The stack together with the fog that the editor shows. */
  datatype Session = Session(past: seq<Snapshot>, current: Snapshot, future: seq<Snapshot>)
  {
    function Do(op: EditorOp): Session {
      match op
      case CommitEdit(next) =>
        if FogStatesEqual(current, next) then this.(current := next)
        else Session(Pushed(past, current), next, [])
      case UndoEdit =>
        if past == [] then this else Session(past[..|past| - 1], past[|past| - 1], future + [current])
      case RedoEdit =>
        if future == [] then this else Session(past + [current], future[|future| - 1], future[..|future| - 1])
    }

    function Run(ops: seq<EditorOp>): Session
      decreases ops
    {
      if ops == [] then this else Do(ops[0]).Run(ops[1..])
    }

    /** Past, then current, then reversed future. */
    function Timeline(): seq<Snapshot> { past + [current] + Reverse(future) }

    predicate Bounded() { |past| + |future| <= UNDO_MAX }
  }

  function Reverse<T>(s: seq<T>): seq<T> {
    if s == [] then [] else [s[|s| - 1]] + Reverse(s[..|s| - 1])
  }

  /** The editor's three callbacks apply whatever the stack answers. */
  class FogEditor {
    const stack: FogUndoStack
    var lastLocalFog: Snapshot

    function Abs(): Session reads this, stack { Session(stack.past, lastLocalFog, stack.future) }

    constructor (fog: Snapshot)
      ensures Abs() == Session([], fog, []) && fresh(stack)
    {
      stack := new FogUndoStack();
      lastLocalFog := fog;
    }

    method CommitFogEdit(next: Snapshot)
      modifies this, stack
      ensures Abs() == old(Abs()).Do(CommitEdit(next))
    {
      stack.Commit(lastLocalFog, next);
      lastLocalFog := next;
    }

    method UndoFogEdit()
      modifies this, stack
      ensures Abs() == old(Abs()).Do(UndoEdit)
    {
      if !stack.CanUndo() { return; }
      ghost var past := stack.past;
      var prev := stack.Undo(lastLocalFog);
      assert past == stack.past + [prev] && past[..|past| - 1] == stack.past;
      lastLocalFog := prev;
    }

    method RedoFogEdit()
      modifies this, stack
      ensures Abs() == old(Abs()).Do(RedoEdit)
    {
      if !stack.CanRedo() { return; }
      ghost var future := stack.future;
      var next := stack.Redo(lastLocalFog);
      assert future == stack.future + [next] && future[..|future| - 1] == stack.future;
      lastLocalFog := next;
    }

    /** Any run of edits keeps the editor in step with the session. */
    method RunEdits(ops: seq<EditorOp>)
      modifies this, stack
      ensures Abs() == old(Abs()).Run(ops)
    {
      ghost var start := Abs();
      for i := 0 to |ops|
        invariant Abs().Run(ops[i..]) == start.Run(ops)
      {
        assert ops[i..][0] == ops[i] && ops[i..][1..] == ops[i + 1..];
        match ops[i]
        case CommitEdit(next) => CommitFogEdit(next);
        case UndoEdit => UndoFogEdit();
        case RedoEdit => RedoFogEdit();
      }
      assert ops[|ops|..] == [];
    }
  }

  // ------------------------------------------------------------------ one timeline

  /** The simple form: a list of states and a cursor on the one shown. */
  datatype History = History(line: seq<Snapshot>, cursor: nat)
  {
    predicate Valid() { cursor < |line| }

    function Do(op: EditorOp): History
      requires Valid()
    {
      match op
      case CommitEdit(next) =>
        if FogStatesEqual(line[cursor], next) then this.(line := line[cursor := next])
        else
          // Everything after the cursor goes, and what is more than the limit behind it.
          var kept := line[..cursor + 1];
          var recent := if |kept| > UNDO_MAX then kept[1..] else kept;
          History(recent + [next], |recent|)
      case UndoEdit => if cursor == 0 then this else this.(cursor := cursor - 1)
      case RedoEdit => if cursor + 1 == |line| then this else this.(cursor := cursor + 1)
    }

    function Run(ops: seq<EditorOp>): History
      requires Valid()
      decreases ops
    {
      if ops == [] then this else Do(ops[0]).Run(ops[1..])
    }
  }

  function HistoryOf(s: Session): (h: History)
    ensures h.Valid()
  {
    History(s.Timeline(), |s.past|)
  }

  lemma {:induction false} ReverseAppend<T>(s: seq<T>, x: T)
    ensures Reverse(s + [x]) == [x] + Reverse(s)
  {
    assert (s + [x])[..|s|] == s;
  }

  lemma {:induction false} ReverseLength<T>(s: seq<T>)
    ensures |Reverse(s)| == |s|
  {
    if s != [] { ReverseLength(s[..|s| - 1]); }
  }

  lemma MoveCursor(s: Session)
    ensures HistoryOf(s.Do(UndoEdit)) == HistoryOf(s).Do(UndoEdit)
    ensures HistoryOf(s.Do(RedoEdit)) == HistoryOf(s).Do(RedoEdit)
  {
    ReverseLength(s.future);
    if s.past != [] {
      var n := |s.past|;
      ReverseAppend(s.future, s.current);
      assert s.past == s.past[..n - 1] + [s.past[n - 1]];
      assert s.Do(UndoEdit).Timeline() == s.Timeline();
    }
    if s.future != [] {
      var n := |s.future|;
      assert s.future == s.future[..n - 1] + [s.future[n - 1]];
      ReverseAppend(s.future[..n - 1], s.future[n - 1]);
      assert s.Do(RedoEdit).Timeline() == s.Timeline();
    }
  }

  lemma CommitCuts(s: Session, next: Snapshot)
    ensures HistoryOf(s.Do(CommitEdit(next))) == HistoryOf(s).Do(CommitEdit(next))
  {
    var line, n := s.Timeline(), |s.past|;
    assert line[n] == s.current && line[..n + 1] == s.past + [s.current];
    if FogStatesEqual(s.current, next) {
      assert line[n := next] == s.past + [next] + Reverse(s.future);
    } else {
      assert Pushed(s.past, s.current) + [next] + Reverse([]) == Pushed(s.past, s.current) + [next];
    }
  }

  /** Over any run, the two stacks and the shown state are one timeline with a cursor: undo and redo
      move only the cursor, and a commit drops the future and what is beyond the last fifty. */
  lemma {:induction false} RunIsOneTimeline(s: Session, ops: seq<EditorOp>)
    ensures HistoryOf(s.Run(ops)) == HistoryOf(s).Run(ops)
    decreases ops
  {
    if ops != [] {
      MoveCursor(s);
      match ops[0] {
        case CommitEdit(next) => CommitCuts(s, next);
        case _ =>
      }
      RunIsOneTimeline(s.Do(ops[0]), ops[1..]);
    }
  }

  /** Past and future together never exceed fifty. */
  lemma {:induction false} RunStaysBounded(s: Session, ops: seq<EditorOp>)
    requires s.Bounded()
    ensures s.Run(ops).Bounded()
    decreases ops
  {
    if ops != [] { RunStaysBounded(s.Do(ops[0]), ops[1..]); }
  }

  function Times(op: EditorOp, k: nat): seq<EditorOp> { seq(k, i => op) }

  lemma {:induction false} RunConcat(s: Session, a: seq<EditorOp>, b: seq<EditorOp>)
    ensures s.Run(a + b) == s.Run(a).Run(b)
    decreases a
  {
    if a == [] { assert a + b == b; }
    else {
      assert (a + b)[1..] == a[1..] + b;
      RunConcat(s.Do(a[0]), a[1..], b);
    }
  }

  lemma BackAndForth(s: Session)
    ensures s.past != [] ==> s.Do(UndoEdit).Do(RedoEdit) == s && |s.Do(UndoEdit).past| == |s.past| - 1
    ensures s.future != [] ==> s.Do(RedoEdit).Do(UndoEdit) == s && |s.Do(RedoEdit).future| == |s.future| - 1
  {}

  /** As many redos as undos restore the whole session. */
  lemma {:induction false} UndosThenRedos(s: Session, k: nat)
    requires k <= |s.past|
    ensures s.Run(Times(UndoEdit, k)).Run(Times(RedoEdit, k)) == s
    decreases k
  {
    if k > 0 {
      BackAndForth(s);
      UndosThenRedos(s.Do(UndoEdit), k - 1);
      ThereAndBack(s, UndoEdit, RedoEdit, k);
    }
  }

  /** As many undos as redos restore the whole session. */
  lemma {:induction false} RedosThenUndos(s: Session, k: nat)
    requires k <= |s.future|
    ensures s.Run(Times(RedoEdit, k)).Run(Times(UndoEdit, k)) == s
    decreases k
  {
    if k > 0 {
      BackAndForth(s);
      RedosThenUndos(s.Do(RedoEdit), k - 1);
      ThereAndBack(s, RedoEdit, UndoEdit, k);
    }
  }

  lemma ThereAndBack(s: Session, there: EditorOp, back: EditorOp, k: nat)
    requires k > 0
    ensures s.Run(Times(there, k)).Run(Times(back, k))
         == s.Do(there).Run(Times(there, k - 1)).Run(Times(back, k - 1)).Do(back)
  {
    assert Times(there, k)[1..] == Times(there, k - 1);
    assert Times(back, k) == Times(back, k - 1) + [back];
    var t := s.Run(Times(there, k));
    RunConcat(t, Times(back, k - 1), [back]);
    var u := t.Run(Times(back, k - 1));
    assert u.Run([back]) == u.Do(back).Run([]) by { assert [back][1..] == []; }
  }

  /** A region for the comparison: an empty id is none. */
  function Compared(r: FogRect): FogRect { if r.id == Some("") then r.(id := None) else r }

  predicate SameRegions(a: seq<FogRect>, b: seq<FogRect>) {
    |a| == |b| && forall i :: 0 <= i < |a| ==> Compared(a[i]) == Compared(b[i])
  }

  lemma RectsEqualIff(a: FogRect, b: FogRect)
    ensures RectsEqual(a, b) <==> Compared(a) == Compared(b)
  {}

  /** The comparison that suppresses a commit is equality of the two states, an empty id counting as none. */
  lemma EqualStatesIff(a: Snapshot, b: Snapshot)
    ensures FogStatesEqual(a, b) <==>
      a == b || (a.Some? && b.Some? && a.value.enabled == b.value.enabled && SameRegions(a.value.revealed, b.value.revealed))
  {
    if a.Some? && b.Some? && |a.value.revealed| == |b.value.revealed| {
      forall i | 0 <= i < |a.value.revealed|
        ensures RectsEqual(a.value.revealed[i], b.value.revealed[i]) <==>
          Compared(a.value.revealed[i]) == Compared(b.value.revealed[i])
      {
        RectsEqualIff(a.value.revealed[i], b.value.revealed[i]);
      }
    }
  }

  /** A commit remembers the state it leaves, and of all that it remembers the last fifty. */
  lemma CommitRemembers(s: Session, next: Snapshot)
    requires |s.past| <= 50
    ensures var after, all := s.Do(CommitEdit(next)), s.past + [s.current];
      && after.current == next
      && (FogStatesEqual(s.current, next) ==> after.past == s.past && after.future == s.future)
      && (!FogStatesEqual(s.current, next) ==>
          after.future == [] && after.past == if |all| > 50 then all[|all| - 50..] else all)
  {}
}
