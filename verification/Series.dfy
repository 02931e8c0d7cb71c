/**
 The loop of `expandRecurrence` (packages/schema/src/recurrence.ts): a bounded walk over the steps
 of a rule that skips steps without a date, stops past the last date, and materializes the others.
 What a step's date is, and what is made of it, are parameters.
 */
module Series {
  import opened Text

  datatype Walk<!O, !E> = Walk(
    dateOf: nat -> Option<string>, past: string -> bool, make: (string, nat) -> Result<O, E>,
    count: nat, maxSteps: nat)
  {
    /** The steps that become occurrences, from `step` on, when `done` have been found before. */
    function Chosen(step: nat, done: nat): seq<nat>
      decreases maxSteps - step
    {
      if step >= maxSteps || done >= count then []
      else if dateOf(step).None? then Chosen(step + 1, done)
      else if past(dateOf(step).value) then []
      else [step] + Chosen(step + 1, done + 1)
    }

    predicate Dated(steps: seq<nat>) {
      forall i :: 0 <= i < |steps| ==> dateOf(steps[i]).Some?
    }

    /** What is made of the dates of the given steps, numbered from `index`; the first failure ends it. */
    function Made(steps: seq<nat>, index: nat): (r: Result<seq<O>, E>)
      requires Dated(steps)
      ensures r.Ok? ==> |r.value| == |steps|
    {
      if steps == [] then Ok([])
      else
        match make(dateOf(steps[0]).value, index)
        case Err(e) => Err(e)
        case Ok(o) =>
          match Made(steps[1..], index + 1)
          case Err(e) => Err(e)
          case Ok(rest) => Ok([o] + rest)
    }

    function Expansion(): Result<seq<O>, E> {
      ChosenAreDated(0, 0);
      Made(Chosen(0, 0), 0)
    }

    lemma {:induction false} ChosenAreDated(step: nat, done: nat)
      ensures Dated(Chosen(step, done))
      decreases maxSteps - step
    {
      if step < maxSteps && done < count {
        ChosenAreDated(step + 1, done);
        ChosenAreDated(step + 1, done + 1);
      }
    }

    /** The chosen steps increase, lie within the budget and are not past the last date. */
    lemma {:induction false} ChosenInOrder(step: nat, done: nat)
      ensures forall i :: 0 <= i < |Chosen(step, done)| ==>
        var s := Chosen(step, done)[i];
        step <= s < maxSteps && dateOf(s).Some? && !past(dateOf(s).value)
      ensures forall i, j :: 0 <= i < j < |Chosen(step, done)| ==> Chosen(step, done)[i] < Chosen(step, done)[j]
      ensures |Chosen(step, done)| <= (if done < count then count - done else 0)
      decreases maxSteps - step
    {
      if step < maxSteps && done < count {
        ChosenInOrder(step + 1, done);
        ChosenInOrder(step + 1, done + 1);
      }
    }

    /** Up to the last step chosen, every step with a date is chosen. */
    lemma {:induction false} ChosenComplete(step: nat, done: nat, s: nat)
      requires step <= s && dateOf(s).Some?
      requires var c := Chosen(step, done); c != [] && s <= c[|c| - 1]
      ensures s in Chosen(step, done)
      decreases maxSteps - step
    {
      if dateOf(step).None? {
        ChosenComplete(step + 1, done, s);
      } else if step < s {
        ChosenComplete(step + 1, done + 1, s);
      }
    }

    lemma ChosenIndex(step: nat) returns (i: nat)
      requires step in Chosen(0, 0)
      ensures i < |Chosen(0, 0)| && Chosen(0, 0)[i] == step
    {
      i :| 0 <= i < |Chosen(0, 0)| && Chosen(0, 0)[i] == step;
    }

    /** Without a last date, a walk that finds too few takes every step that has a date. */
    lemma {:induction false} ChosenAll(step: nat, done: nat, s: nat)
      requires forall d: string :: !past(d)
      requires done + |Chosen(step, done)| < count && step <= s < maxSteps && dateOf(s).Some?
      ensures s in Chosen(step, done)
      decreases maxSteps - step
    {
      if dateOf(step).None? {
        ChosenAll(step + 1, done, s);
      } else if step < s {
        ChosenAll(step + 1, done + 1, s);
      }
    }

    lemma {:induction false} MadeAt(steps: seq<nat>, index: nat, i: nat)
      requires Dated(steps) && Made(steps, index).Ok? && i < |steps|
      ensures make(dateOf(steps[i]).value, index + i) == Ok(Made(steps, index).value[i])
    {
      if i > 0 { MadeAt(steps[1..], index + 1, i - 1); }
    }

    lemma {:induction false} MadeConcat(a: seq<nat>, b: seq<nat>, index: nat)
      requires Dated(a) && Dated(b)
      ensures Dated(a + b)
      ensures Made(a + b, index) ==
        if Made(a, index).Err? then Made(a, index)
        else if Made(b, index + |a|).Err? then Made(b, index + |a|)
        else Ok(Made(a, index).value + Made(b, index + |a|).value)
    {
      if a == [] {
        assert a + b == b;
        if Made(b, index).Ok? { assert [] + Made(b, index).value == Made(b, index).value; }
      } else {
        assert (a + b)[1..] == a[1..] + b && index + |a| == index + 1 + |a[1..]|;
        MadeConcat(a[1..], b, index + 1);
        var first, ra, rb := make(dateOf(a[0]).value, index), Made(a[1..], index + 1), Made(b, index + |a|);
        if first.Ok? && ra.Ok? && rb.Ok? {
          assert [first.value] + (ra.value + rb.value) == [first.value] + ra.value + rb.value;
        }
      }
    }

    lemma MadeOne(step: nat, index: nat)
      requires dateOf(step).Some?
      ensures Made([step], index) ==
        match make(dateOf(step).value, index) case Err(e) => Err(e) case Ok(o) => Ok([o])
    {
      assert [step][1..] == [] && Made([], index + 1) == Ok([]);
      if make(dateOf(step).value, index).Ok? {
        assert [make(dateOf(step).value, index).value] + [] == [make(dateOf(step).value, index).value];
      }
    }

    /** Where the loop stands: `out` is what the steps taken made, and the others are still to come. */
    ghost predicate Progress(taken: seq<nat>, step: nat, out: seq<O>) {
      Dated(taken) && |taken| == |out| && Made(taken, 0) == Ok(out)
      && Chosen(0, 0) == taken + Chosen(step, |out|)
    }

    lemma TakeStep(taken: seq<nat>, step: nat, out: seq<O>)
      requires Progress(taken, step, out) && step < maxSteps && |out| < count
      requires dateOf(step).Some? && !past(dateOf(step).value)
      ensures match make(dateOf(step).value, |out|)
        case Ok(o) => Progress(taken + [step], step + 1, out + [o])
        case Err(e) => Expansion() == Err(e)
    {
      var rest := Chosen(step + 1, |out| + 1);
      assert taken + ([step] + rest) == taken + [step] + rest;
      MadeOne(step, |out|);
      MadeConcat(taken, [step], 0);
      ChosenAreDated(step + 1, |out| + 1);
      MadeConcat(taken + [step], rest, 0);
    }

    lemma Finished(taken: seq<nat>, step: nat, out: seq<O>)
      requires Progress(taken, step, out) && Chosen(step, |out|) == []
      ensures Expansion() == Ok(out)
    {
      assert taken + [] == taken;
    }

    // ------------------------------------------------------------ how many, and which

    /** How many of the steps from `a` up to `b` have a date. */
    ghost function Hits(a: nat, b: nat): nat
      decreases b - a
    {
      if a >= b then 0 else (if dateOf(a).Some? then 1 else 0) + Hits(a + 1, b)
    }

    lemma {:induction false} HitsSplit(a: nat, m: nat, b: nat)
      requires a <= m <= b
      ensures Hits(a, b) == Hits(a, m) + Hits(m, b)
      decreases m - a
    {
      if a < m { HitsSplit(a + 1, m, b); }
    }

    lemma {:induction false} NoHits(a: nat, b: nat)
      requires forall s: nat :: a <= s < b ==> dateOf(s).None?
      ensures Hits(a, b) == 0
      decreases b - a
    {
      if a < b { NoHits(a + 1, b); }
    }

    lemma HitCounts(a: nat, b: nat, t: nat)
      requires a <= t < b && dateOf(t).Some?
      ensures Hits(a, b) >= 1
    {
      HitsSplit(a, t, b);
    }

    /** When every step has a date, the steps chosen are consecutive. */
    lemma {:induction false} ChosenDense(step: nat, done: nat)
      requires forall s: nat :: dateOf(s).Some?
      ensures forall i :: 0 <= i < |Chosen(step, done)| ==> Chosen(step, done)[i] == step + i
      decreases maxSteps - step
    {
      if step < maxSteps && done < count { ChosenDense(step + 1, done + 1); }
    }

    lemma {:induction false} AllMade(steps: seq<nat>, index: nat)
      requires Dated(steps)
      requires forall i :: 0 <= i < |steps| ==> make(dateOf(steps[i]).value, index + i).Ok?
      ensures Made(steps, index).Ok?
    {
      if steps != [] {
        assert forall i :: 0 <= i < |steps[1..]| ==> make(dateOf(steps[1..][i]).value, index + 1 + i).Ok? by {
          forall i | 0 <= i < |steps[1..]| ensures make(dateOf(steps[1..][i]).value, index + 1 + i).Ok? {
            assert make(dateOf(steps[i + 1]).value, index + (i + 1)).Ok?;
          }
        }
        AllMade(steps[1..], index + 1);
        assert make(dateOf(steps[0]).value, index + 0).Ok?;
      }
    }

    /** Without a last date, the walk finds `count` occurrences if the budget holds that many dates. */
    lemma {:induction false} ChosenCount(step: nat, done: nat)
      requires forall s: string :: !past(s)
      requires done <= count
      ensures |Chosen(step, done)| == if Hits(step, maxSteps) < count - done then Hits(step, maxSteps) else count - done
      decreases maxSteps - step
    {
      if step < maxSteps && done < count {
        if dateOf(step).None? { ChosenCount(step + 1, done); } else { ChosenCount(step + 1, done + 1); }
      }
    }

    /** The other walk names the same dates and makes the same of them. */
    ghost predicate Agrees(v: Walk<O, E>) {
      (forall s: nat :: dateOf(s) == v.dateOf(s)) && (forall d: string, i: nat :: make(d, i) == v.make(d, i))
    }

    lemma {:induction false} MadeAgrees(v: Walk<O, E>, steps: seq<nat>, index: nat)
      requires Agrees(v) && Dated(steps)
      ensures v.Dated(steps) && v.Made(steps, index) == Made(steps, index)
    {
      if steps != [] { MadeAgrees(v, steps[1..], index + 1); }
    }

    /** A walk with a smaller count and budget chooses a prefix of the steps. */
    lemma {:induction false} ChosenPrefix(v: Walk<O, E>, step: nat, done: nat)
      requires Agrees(v) && (forall d: string :: past(d) == v.past(d))
      requires v.count <= count && v.maxSteps <= maxSteps
      ensures v.Chosen(step, done) <= Chosen(step, done)
      decreases maxSteps - step
    {
      if step < v.maxSteps && done < v.count {
        ChosenPrefix(v, step + 1, done);
        ChosenPrefix(v, step + 1, done + 1);
      }
    }

    /** What is made of a prefix of the steps is a prefix of what is made of them all. */
    lemma MadePrefix(a: seq<nat>, b: seq<nat>)
      requires a <= b && Dated(b) && Made(b, 0).Ok?
      ensures Dated(a) && Made(a, 0).Ok? && Made(a, 0).value <= Made(b, 0).value
    {
      assert b == a + b[|a|..];
      MadeConcat(a, b[|a|..], 0);
    }

    /** With a last date, the chosen steps are those of the walk without it, cut at the first past. */
    lemma {:induction false} UntilCuts(open: Walk<O, E>, step: nat, done: nat)
      requires Agrees(open) && (forall d: string :: !open.past(d))
      requires open.count == count && open.maxSteps == maxSteps
      ensures Chosen(step, done) <= open.Chosen(step, done)
      ensures |Chosen(step, done)| < |open.Chosen(step, done)| ==>
        var next := open.Chosen(step, done)[|Chosen(step, done)|];
        dateOf(next).Some? && past(dateOf(next).value)
      decreases maxSteps - step
    {
      if step < maxSteps && done < count {
        UntilCuts(open, step + 1, done);
        UntilCuts(open, step + 1, done + 1);
      }
    }
  }

  /** The loop itself. */
  method RunWalk<O, E>(w: Walk<O, E>) returns (r: Result<seq<O>, E>)
    ensures r == w.Expansion()
  {
    var out: seq<O> := [];
    ghost var taken: seq<nat> := [];
    var step := 0;
    while step < w.maxSteps && |out| < w.count
      invariant w.Progress(taken, step, out)
    {
      var localDate := w.dateOf(step);
      step := step + 1;
      if localDate.None? { continue; }
      if w.past(localDate.value) {
        w.Finished(taken, step - 1, out);
        return Ok(out);
      }
      w.TakeStep(taken, step - 1, out);
      var occurrence := w.make(localDate.value, |out|);
      if occurrence.Err? { return Err(occurrence.error); }
      taken := taken + [step - 1];
      out := out + [occurrence.value];
    }
    w.Finished(taken, step, out);
    return Ok(out);
  }
}
