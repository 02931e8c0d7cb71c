/** A condition left out of a write by names stays out until a later write names it. */
module ConditionLeftOut {
  import opened Text
  import opened Sequences
  import opened Conditions
  import opened ConditionRuns
  import opened ConditionNames

  // ------------------------------------------------------------------ keys of what is written

  lemma {:induction false} LastWithKey(lower: Lower, prior: seq<Instance>, key: string)
    requires LastWith(lower, prior, key).Some?
    ensures Key(lower, LastWith(lower, prior, key).value.name) == key
    ensures LastWith(lower, prior, key).value in prior
  {
    if Key(lower, prior[|prior| - 1].name) != key { LastWithKey(lower, prior[..|prior| - 1], key); }
  }

  lemma MergeOneKey(lower: Lower, sheet: Instance, prior: seq<Instance>)
    ensures Key(lower, MergeOne(lower, sheet, prior).name) == Key(lower, sheet.name)
  {
    if LastWith(lower, prior, Key(lower, sheet.name)).Some? { LastWithKey(lower, prior, Key(lower, sheet.name)); }
  }

  lemma MergedMore(lower: Lower, rest: seq<Instance>, keys: set<string>, m: Instance)
    requires KeysApart(lower, rest) && KeysOf(lower, rest) == keys - {""}
    requires Key(lower, m.name) != "" && Key(lower, m.name) !in keys
    ensures KeysApart(lower, rest + [m]) && KeysOf(lower, rest + [m]) == keys + {Key(lower, m.name)} - {""}
  {
    ApartMore(lower, rest, m);
  }

  /** Merged instances: one for each key of the sheet that is not blank, no two with one key. */
  lemma {:induction false} MergedKeys(lower: Lower, sheet: seq<Instance>, prior: seq<Instance>)
    ensures KeysApart(lower, Merged(lower, sheet, prior))
    ensures KeysOf(lower, Merged(lower, sheet, prior)) == KeysOf(lower, sheet) - {""}
  {
    if sheet != [] {
      var init, last := sheet[..|sheet| - 1], sheet[|sheet| - 1];
      SplitLast(sheet);
      MergedKeys(lower, init, prior);
      KeysGrow(lower, init, last);
      if Key(lower, last.name) != "" && Key(lower, last.name) !in KeysOf(lower, init) {
        MergeOneKey(lower, last, prior);
        MergedMore(lower, Merged(lower, init, prior), KeysOf(lower, init), MergeOne(lower, last, prior));
      }
    }
  }

  /** Each merged instance is a sheet instance, or the last prior one with its key at the sheet's stacks. */
  ghost predicate FromSheet(lower: Lower, sheet: seq<Instance>, prior: seq<Instance>, m: Instance) {
    exists i :: 0 <= i < |sheet| && FirstOfKey(lower, sheet, sheet[i]) && m.stacks == sheet[i].stacks
      && m == (match LastWith(lower, prior, Key(lower, sheet[i].name))
               case None => sheet[i]
               case Some(p) => p.(stacks := sheet[i].stacks))
  }

  lemma FromSheetStays(lower: Lower, sheet: seq<Instance>, last: Instance, prior: seq<Instance>, m: Instance)
    requires FromSheet(lower, sheet, prior, m)
    ensures FromSheet(lower, sheet + [last], prior, m)
  {
    var i :| 0 <= i < |sheet| && FirstOfKey(lower, sheet, sheet[i]) && m.stacks == sheet[i].stacks
      && m == (match LastWith(lower, prior, Key(lower, sheet[i].name))
               case None => sheet[i]
               case Some(p) => p.(stacks := sheet[i].stacks));
    assert (sheet + [last])[i] == sheet[i];
    FirstStays(lower, sheet, last, sheet[i]);
  }

  lemma {:induction false} MergedFromSheet(lower: Lower, sheet: seq<Instance>, prior: seq<Instance>, k: nat)
    requires k < |Merged(lower, sheet, prior)|
    ensures FromSheet(lower, sheet, prior, Merged(lower, sheet, prior)[k])
  {
    var init, last := sheet[..|sheet| - 1], sheet[|sheet| - 1];
    SplitLast(sheet);
    if k < |Merged(lower, init, prior)| {
      MergedFromSheet(lower, init, prior, k);
      FromSheetStays(lower, init, last, prior, Merged(lower, init, prior)[k]);
    } else {
      FirstNow(lower, init, last);
      assert (init + [last])[|init|] == last;
    }
  }

  lemma BoundedKeys(lower: Lower, s: seq<Instance>)
    ensures KeysOf(lower, Bounded(s)) <= KeysOf(lower, s)
  {
    forall i | i in Bounded(s) ensures i in s { }
  }

  lemma SheetKeys(lower: Lower, s: seq<Instance>)
    ensures KeysOf(lower, AllToSheet(s)) <= KeysOf(lower, s)
  {
    forall i | i in AllToSheet(s) ensures Key(lower, i.name) in KeysOf(lower, s) {
      var k :| 0 <= k < |s| && ToSheet(s[k]) == i;
      assert s[k] in s;
    }
  }

  // ------------------------------------------------------------------ keys of what is read

  lemma {:induction false} WithNamesKeys(lower: Lower, s: seq<Instance>, names: seq<string>, key: string)
    requires key in KeysOf(lower, WithNames(lower, s, names))
    ensures key in KeysOf(lower, s) || Asks(lower, names, key)
  {
    if names != [] {
      var init, last := names[..|names| - 1], names[|names| - 1];
      SplitLast(names);
      ReadStep(lower, s, names, |init|);
      assert names[..|init| + 1] == names;
      AsksMore(lower, init, last, key);
      if key in KeysOf(lower, WithNames(lower, s, init)) { WithNamesKeys(lower, s, init, key); }
    }
  }

  lemma DerivedAsks(lower: Lower, s: seq<Instance>, key: string)
    requires Asks(lower, DeriveNames(s), key)
    ensures key in KeysOf(lower, s)
  {
    var i :| 0 <= i < |DeriveNames(s)| && Trim(DeriveNames(s)[i]) != "" && Key(lower, DeriveNames(s)[i]) == key;
    DerivedKey(lower, s, DeriveNames(s)[i]);
  }

  /** Reading a row whose columns agree shows no key but those of its instances. */
  lemma ReadKeys(lower: Lower, row: Row, key: string)
    requires Agrees(row) && key in KeysOf(lower, ReadInstances(lower, row))
    ensures key in KeysOf(lower, row.instances.value)
  {
    var s := ParseInstances(row.instances);
    var names := NamesIn(row.conditions);
    BoundedKeys(lower, WithNames(lower, s, names));
    WithNamesKeys(lower, s, names, key);
    if key !in KeysOf(lower, s) { DerivedAsks(lower, row.instances.value, key); }
  }

  // ------------------------------------------------------------------ left out

  /** Whether a write names a condition. */
  ghost predicate Names(lower: Lower, op: Op, key: string) {
    match op
    case ByNames(names) => Asks(lower, names, key)
    case SheetByNames(names) => Asks(lower, names, key)
    case ByInstances(list) => key in KeysOf(lower, list)
    case SheetByInstances(list) => key in KeysOf(lower, list)
    case ByMerging(sheet) => key in KeysOf(lower, sheet)
  }

  /** The instances a write stores have no key that it does not name. */
  lemma WritesOnlyNamed(lower: Lower, row: Row, op: Op, key: string)
    requires key in KeysOf(lower, Apply(lower, row, op).instances.value)
    ensures Names(lower, op, key)
  {
    match op
    case ByNames(names) => NamedByNames(lower, names, ParseInstances(row.instances), key);
    case SheetByNames(names) =>
      var r := Reconciled(lower, names, ParseInstances(row.instances));
      BoundedKeys(lower, AllToSheet(r));
      SheetKeys(lower, r);
      NamedByNames(lower, names, ParseInstances(row.instances), key);
    case ByInstances(list) => BoundedKeys(lower, list);
    case SheetByInstances(list) =>
      BoundedKeys(lower, AllToSheet(list));
      SheetKeys(lower, list);
    case ByMerging(sheet) =>
      BoundedKeys(lower, Merged(lower, sheet, ParseInstances(row.instances)));
      MergedKeys(lower, sheet, ParseInstances(row.instances));
  }

  lemma NamedByNames(lower: Lower, names: seq<string>, prior: seq<Instance>, key: string)
    requires key in KeysOf(lower, Reconciled(lower, names, prior))
    ensures Asks(lower, names, key)
  {
    ReconciledKeys(lower, names, prior);
    WantedKeysAre(lower, names, key);
  }

  /** A write that does not name the condition, or that rewrites instances just read from the row. */
  ghost predicate Quiet(lower: Lower, row: Row, op: Op, key: string) {
    !Names(lower, op, key)
    || ((op.ByInstances? || op.SheetByInstances?) && KeysOf(lower, op.list) <= KeysOf(lower, ReadInstances(lower, row)))
  }

  ghost predicate QuietRun(lower: Lower, row: Row, ops: seq<Op>, key: string) {
    ops == [] ||
      (QuietRun(lower, row, ops[..|ops| - 1], key)
       && Quiet(lower, Run(lower, row, ops[..|ops| - 1]), ops[|ops| - 1], key))
  }

  lemma StaysOut(lower: Lower, row: Row, op: Op, key: string)
    requires key !in KeysOf(lower, ReadInstances(lower, row)) && Quiet(lower, row, op, key)
    ensures key !in KeysOf(lower, ReadInstances(lower, Apply(lower, row, op)))
  {
    WriteAgrees(lower, row, op);
    if key in KeysOf(lower, ReadInstances(lower, Apply(lower, row, op))) {
      ReadKeys(lower, Apply(lower, row, op), key);
      WritesOnlyNamed(lower, row, op, key);
    }
  }

  /** Over a run of quiet writes, a condition that does not show keeps from showing. */
  lemma {:induction false} RunStaysOut(lower: Lower, row: Row, ops: seq<Op>, key: string)
    requires key !in KeysOf(lower, ReadInstances(lower, row)) && QuietRun(lower, row, ops, key)
    ensures key !in KeysOf(lower, ReadInstances(lower, Run(lower, row, ops)))
  {
    if ops != [] {
      RunStaysOut(lower, row, ops[..|ops| - 1], key);
      StaysOut(lower, Run(lower, row, ops[..|ops| - 1]), ops[|ops| - 1], key);
    }
  }

  /** A condition a write by names leaves out shows again only after a later write names it. */
  lemma LeftOutStaysOut(lower: Lower, row: Row, write: Op, ops: seq<Op>, key: string)
    requires (write.ByNames? || write.SheetByNames?) && !Asks(lower, write.names, key)
    requires QuietRun(lower, Apply(lower, row, write), ops, key)
    ensures key !in KeysOf(lower, ReadInstances(lower, Run(lower, Apply(lower, row, write), ops)))
  {
    var after := Apply(lower, row, write);
    WriteAgrees(lower, row, write);
    if key in KeysOf(lower, ReadInstances(lower, after)) {
      ReadKeys(lower, after, key);
      WritesOnlyNamed(lower, row, write, key);
    }
    RunStaysOut(lower, after, ops, key);
  }
}
