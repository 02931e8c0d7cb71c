/** Which writes of the condition columns read back exactly as they were written. */
module ConditionReadBack {
  import opened Text
  import opened Sequences
  import opened Conditions
  import opened ConditionRuns
  import opened ConditionNames
  import opened ConditionLeftOut

  const MAX_NAME := 120

  // ------------------------------------------------------------------ valid and bare instances

  predicate AllPlain(lower: Lower, s: seq<Instance>) { forall i :: 0 <= i < |s| ==> Bare(lower, s[i]) }

  lemma {:induction false} BareIff(lower: Lower, s: seq<Instance>)
    ensures AllBare(lower, s) <==> KeysApart(lower, s) && AllPlain(lower, s)
  {
    if s != [] {
      SplitLast(s);
      BareIff(lower, s[..|s| - 1]);
    }
  }

  /** A bare instance is valid exactly when its name is short enough. */
  lemma BareIsValid(lower: Lower, i: Instance)
    requires Bare(lower, i)
    ensures Valid(i) <==> |i.name| <= MAX_NAME
  {}

  // ------------------------------------------------------------------ with or without combat fields

  function Shaped(sheet: bool, i: Instance): Instance { if sheet then ToSheet(i) else i }

  function ShapeAll(sheet: bool, s: seq<Instance>): (r: seq<Instance>)
    ensures |r| == |s| && forall i :: 0 <= i < |s| ==> r[i] == Shaped(sheet, s[i])
  {
    if sheet then AllToSheet(s) else s
  }

  lemma {:induction false} ShapeApart(lower: Lower, sheet: bool, s: seq<Instance>)
    requires KeysApart(lower, s)
    ensures KeysApart(lower, ShapeAll(sheet, s)) && KeysOf(lower, ShapeAll(sheet, s)) == KeysOf(lower, s)
  {
    if s != [] {
      var init, last := s[..|s| - 1], s[|s| - 1];
      SplitLast(s);
      ShapeApart(lower, sheet, init);
      assert ShapeAll(sheet, s) == ShapeAll(sheet, init) + [Shaped(sheet, last)];
      ApartMore(lower, ShapeAll(sheet, init), Shaped(sheet, last));
      KeysGrow(lower, init, last);
    }
  }

  lemma {:induction false} ShapedApart(lower: Lower, sheet: bool, s: seq<Instance>)
    requires KeysApart(lower, ShapeAll(sheet, s))
    ensures KeysApart(lower, s) && KeysOf(lower, ShapeAll(sheet, s)) == KeysOf(lower, s)
  {
    if s != [] {
      var init, last := s[..|s| - 1], s[|s| - 1];
      SplitLast(s);
      var shaped := ShapeAll(sheet, s);
      assert shaped[..|s| - 1] == ShapeAll(sheet, init);
      ShapedApart(lower, sheet, init);
      SplitLast(shaped);
      KeysGrow(lower, init, last);
      KeysGrow(lower, ShapeAll(sheet, init), Shaped(sheet, last));
    }
  }

  /** What an operation stores, before the fields of an encounter are dropped. */
  lemma StoredShaped(sheet: bool, s: seq<Instance>)
    ensures Bounded(ShapeAll(sheet, s)) == ShapeAll(sheet, Bounded(s))
  {}

  // ------------------------------------------------------------------ names without an instance

  /** Those of the first `n` wanted names whose key is not known. */
  function NewNames(ws: seq<Wanted>, n: nat, known: set<string>): seq<string>
    requires n <= |ws|
  {
    if n == 0 then []
    else NewNames(ws, n - 1, known) + if ws[n - 1].key in known then [] else [ws[n - 1].name]
  }

  lemma {:induction false} NewOfKept(ws: seq<Wanted>, n: nat, known: set<string>)
    requires n <= |ws|
    ensures NewNames(ws, n, known * WantedKeys(ws)) == NewNames(ws, n, known)
  {
    if n > 0 {
      NewOfKept(ws, n - 1, known);
      assert ws[n - 1] in ws;
    }
  }

  /** Bare instances of the names, one for each. */
  ghost predicate BareOf(lower: Lower, s: seq<Instance>, names: seq<string>) {
    |s| == |names| && forall k :: 0 <= k < |s| ==> Bare(lower, s[k]) && s[k].name == names[k]
  }

  lemma {:induction false} AddedAreNew(lower: Lower, ws: seq<Wanted>, n: nat, known: set<string>)
    requires n <= |ws| && AllGoodWanted(lower, ws)
    ensures BareOf(lower, Added(lower, ws, n, known), NewNames(ws, n, known))
  {
    if n > 0 {
      AddedAreNew(lower, ws, n - 1, known);
      LegacyIsBare(lower, ws[n - 1]);
    }
  }

  lemma {:induction false} NewIsWanted(ws: seq<Wanted>, n: nat, known: set<string>, k: nat) returns (i: nat)
    requires n <= |ws| && k < |NewNames(ws, n, known)|
    ensures i < |ws| && ws[i].name == NewNames(ws, n, known)[k]
  {
    if k < |NewNames(ws, n - 1, known)| { i := NewIsWanted(ws, n - 1, known, k); } else { i := n - 1; }
  }

  // ------------------------------------------------------------------ a write by names

  /** How many different names have an instance already. */
  ghost function KnownNames(lower: Lower, names: seq<string>, prior: seq<Instance>): nat {
    |KeysOf(lower, prior) * WantedKeys(WantedNames(lower, names))|
  }

  ghost function NewOf(lower: Lower, names: seq<string>, prior: seq<Instance>): seq<string> {
    NewNames(WantedNames(lower, names), |WantedNames(lower, names)|, KeysOf(lower, prior))
  }

  /** Of the names without an instance, those for which there is room are short enough. */
  ghost predicate NamesFit(lower: Lower, names: seq<string>, prior: seq<Instance>) {
    forall k :: 0 <= k < |NewOf(lower, names, prior)| && KnownNames(lower, names, prior) + k < MAX_INSTANCES ==>
      |NewOf(lower, names, prior)[k]| <= MAX_NAME
  }

  /** The instances that are named, the first of each key, hold nothing but their names. */
  ghost predicate NamedArePlain(lower: Lower, sheet: bool, names: seq<string>, prior: seq<Instance>) {
    forall i :: i in prior && FirstOfKey(lower, prior, i) && Asks(lower, names, Key(lower, i.name)) ==>
      Bare(lower, Shaped(sheet, i))
  }

  /** The instances a write by names keeps, and the bare ones for its new names. */
  ghost predicate Splits(lower: Lower, names: seq<string>, prior: seq<Instance>, kept: seq<Instance>, added: seq<Instance>) {
    && Reconciled(lower, names, prior) == Bounded(kept + added) && KeysApart(lower, kept + added)
    && Kept(lower, kept, prior, WantedKeys(WantedNames(lower, names)))
    && |kept| == KnownNames(lower, names, prior) && BareOf(lower, added, NewOf(lower, names, prior))
  }

  lemma NamesSplit(lower: Lower, names: seq<string>, prior: seq<Instance>) returns (kept: seq<Instance>, added: seq<Instance>)
    ensures Splits(lower, names, prior, kept, added)
  {
    var ws := WantedNames(lower, names);
    kept := Survivors(lower, prior, ws);
    added := Added(lower, ws, |ws|, KeysOf(lower, kept));
    SurvivorsAreKept(lower, prior, ws);
    AllAsked(lower, names, prior, kept);
    ApartSize(lower, kept);
    WantedGood(lower, names);
    AddedAreNew(lower, ws, |ws|, KeysOf(lower, kept));
    NewOfKept(ws, |ws|, KeysOf(lower, prior));
  }

  lemma FirstIsIn(lower: Lower, prior: seq<Instance>, i: Instance)
    requires FirstOfKey(lower, prior, i)
    ensures i in prior
  {}

  /** Only one instance is the first with its key. */
  lemma FirstIsOne(lower: Lower, prior: seq<Instance>, a: Instance, b: Instance)
    requires FirstOfKey(lower, prior, a) && FirstOfKey(lower, prior, b) && Key(lower, a.name) == Key(lower, b.name)
    ensures a == b
  {
    var j :| 0 <= j < |prior| && prior[j] == a && forall m :: 0 <= m < j ==> Key(lower, prior[m].name) != Key(lower, a.name);
    var k :| 0 <= k < |prior| && prior[k] == b && forall m :: 0 <= m < k ==> Key(lower, prior[m].name) != Key(lower, b.name);
  }

  /** The kept instances are those that are named and the first of their key. */
  lemma KeptIff(lower: Lower, names: seq<string>, prior: seq<Instance>, kept: seq<Instance>, i: Instance)
    requires Kept(lower, kept, prior, WantedKeys(WantedNames(lower, names)))
    ensures i in kept <==> i in prior && FirstOfKey(lower, prior, i) && Asks(lower, names, Key(lower, i.name))
  {
    var keys := WantedKeys(WantedNames(lower, names));
    WantedKeysAre(lower, names, Key(lower, i.name));
    if i in kept {
      var k :| 0 <= k < |kept| && kept[k] == i;
      FirstIsIn(lower, prior, i);
      assert Key(lower, i.name) in KeysOf(lower, kept);
    }
    if i in prior && FirstOfKey(lower, prior, i) && Key(lower, i.name) in keys {
      assert Key(lower, i.name) in KeysOf(lower, kept);
      var s :| s in kept && Key(lower, s.name) == Key(lower, i.name);
      FirstIsOne(lower, prior, s, i);
    }
  }

  lemma PlainIff(lower: Lower, sheet: bool, names: seq<string>, prior: seq<Instance>, kept: seq<Instance>)
    requires Kept(lower, kept, prior, WantedKeys(WantedNames(lower, names)))
    ensures NamedArePlain(lower, sheet, names, prior) <==> AllPlain(lower, ShapeAll(sheet, kept))
  {
    forall i: Instance
      ensures i in kept <==> i in prior && FirstOfKey(lower, prior, i) && Asks(lower, names, Key(lower, i.name))
    {
      KeptIff(lower, names, prior, kept, i);
    }
    if AllPlain(lower, ShapeAll(sheet, kept)) {
      forall i | i in kept ensures Bare(lower, Shaped(sheet, i)) {
        var k :| 0 <= k < |kept| && kept[k] == i;
        assert Bare(lower, ShapeAll(sheet, kept)[k]);
      }
    }
  }

  lemma KeptAreValid(lower: Lower, prior: seq<Instance>, kept: seq<Instance>)
    requires AllValid(prior) && AllFirst(lower, kept, prior)
    ensures AllValid(kept)
  {
    forall i | 0 <= i < |kept| ensures Valid(kept[i]) { FirstIsIn(lower, prior, kept[i]); }
  }

  lemma ShapeOfBare(lower: Lower, sheet: bool, i: Instance)
    requires Bare(lower, i)
    ensures Shaped(sheet, i) == i
  {}

  lemma ShapeOfValid(sheet: bool, i: Instance)
    requires Valid(i)
    ensures Valid(Shaped(sheet, i))
  {}

  /** The `j`-th instance stored: a kept one, or the bare one of a new name. */
  lemma StoredAt(lower: Lower, sheet: bool, kept: seq<Instance>, added: seq<Instance>, names: seq<string>, j: nat)
    requires BareOf(lower, added, names) && j < |Bounded(kept + added)|
    ensures var x := ShapeAll(sheet, Bounded(kept + added))[j];
      if j < |kept| then x == Shaped(sheet, kept[j])
      else j - |kept| < |added| && x == added[j - |kept|] && Bare(lower, x) && (Valid(x) <==> |names[j - |kept|]| <= MAX_NAME)
  {
    assert Bounded(kept + added)[j] == (kept + added)[j];
    if j >= |kept| {
      ShapeOfBare(lower, sheet, added[j - |kept|]);
      BareIsValid(lower, added[j - |kept|]);
    }
  }

  ghost predicate RoomFits(names: seq<string>, known: nat) {
    forall k :: 0 <= k < |names| && known + k < MAX_INSTANCES ==> |names[k]| <= MAX_NAME
  }

  /** What is stored is valid exactly when the new names in it are short enough. */
  lemma StoredValidIff(lower: Lower, sheet: bool, kept: seq<Instance>, added: seq<Instance>, names: seq<string>)
    requires AllValid(kept) && BareOf(lower, added, names)
    ensures AllValid(ShapeAll(sheet, Bounded(kept + added))) <==> RoomFits(names, |kept|)
  {
    var r := ShapeAll(sheet, Bounded(kept + added));
    if AllValid(r) {
      forall k | 0 <= k < |names| && |kept| + k < MAX_INSTANCES ensures |names[k]| <= MAX_NAME {
        StoredAt(lower, sheet, kept, added, names, |kept| + k);
        assert Valid(r[|kept| + k]);
      }
    }
    if RoomFits(names, |kept|) {
      forall j | 0 <= j < |r| ensures Valid(r[j]) {
        StoredAt(lower, sheet, kept, added, names, j);
        if j < |kept| { ShapeOfValid(sheet, kept[j]); }
      }
    }
  }

  /** When some new name is too long, what is stored is bare exactly when the kept instances are. */
  lemma StoredPlain(lower: Lower, sheet: bool, kept: seq<Instance>, added: seq<Instance>, names: seq<string>)
    requires BareOf(lower, added, names)
    ensures AllPlain(lower, ShapeAll(sheet, kept)) ==> AllPlain(lower, ShapeAll(sheet, Bounded(kept + added)))
    ensures !RoomFits(names, |kept|) && AllPlain(lower, ShapeAll(sheet, Bounded(kept + added))) ==>
      AllPlain(lower, ShapeAll(sheet, kept))
  {
    var r := ShapeAll(sheet, Bounded(kept + added));
    forall j | 0 <= j < |r|
      ensures if j < |kept| then r[j] == ShapeAll(sheet, kept)[j] else Bare(lower, r[j])
    {
      StoredAt(lower, sheet, kept, added, names, j);
    }
    if !RoomFits(names, |kept|) && AllPlain(lower, r) {
      assert |kept| < |r|;
      forall j | 0 <= j < |kept| ensures Bare(lower, ShapeAll(sheet, kept)[j]) { assert Bare(lower, r[j]); }
    }
  }

  ghost predicate ReadsBackAs(lower: Lower, row: Row) {
    row.instances.Stored? && ReadInstances(lower, row) == row.instances.value
  }

  lemma StoredReadsBackIff(lower: Lower, s: seq<Instance>)
    requires |s| <= MAX_INSTANCES
    ensures ReadsBackAs(lower, WriteBoth(s)) <==> AllValid(s) || (KeysApart(lower, s) && AllPlain(lower, s))
  {
    BoundedAgrees(s);
    ReadsBackIff(lower, WriteBoth(s));
    BareIff(lower, s);
  }

  lemma NamesReadBackIff(lower: Lower, sheet: bool, names: seq<string>, prior: seq<Instance>)
    requires AllValid(prior)
    ensures ReadsBackAs(lower, WriteBoth(ShapeAll(sheet, Reconciled(lower, names, prior)))) <==>
      NamesFit(lower, names, prior) || NamedArePlain(lower, sheet, names, prior)
  {
    var kept, added := NamesSplit(lower, names, prior);
    var unknown := NewOf(lower, names, prior);
    var r := Reconciled(lower, names, prior);
    KeptAreValid(lower, prior, kept);
    StoredValidIff(lower, sheet, kept, added, unknown);
    StoredPlain(lower, sheet, kept, added, unknown);
    PlainIff(lower, sheet, names, prior, kept);
    CapKeeps(lower, kept + added);
    ShapeApart(lower, sheet, r);
    StoredReadsBackIff(lower, ShapeAll(sheet, r));
    assert NamesFit(lower, names, prior) <==> RoomFits(unknown, |kept|);
  }

  // ------------------------------------------------------------------ a write of instances

  /** The instances stored are valid without the fields that are dropped. */
  predicate ListFits(sheet: bool, list: seq<Instance>) {
    forall i :: 0 <= i < |list| && i < MAX_INSTANCES ==> Valid(Shaped(sheet, list[i]))
  }

  /** Those stored hold nothing but their names and the fields that are dropped, and have different keys. */
  ghost predicate ListIsPlain(lower: Lower, sheet: bool, list: seq<Instance>) {
    KeysApart(lower, Bounded(list)) && forall i :: 0 <= i < |list| && i < MAX_INSTANCES ==> Bare(lower, Shaped(sheet, list[i]))
  }

  lemma ListStored(lower: Lower, sheet: bool, list: seq<Instance>, s: seq<Instance>)
    requires s == ShapeAll(sheet, Bounded(list))
    ensures AllValid(s) <==> ListFits(sheet, list)
    ensures AllPlain(lower, s) <==> forall i :: 0 <= i < |list| && i < MAX_INSTANCES ==> Bare(lower, Shaped(sheet, list[i]))
  {
    assert forall i :: 0 <= i < |s| ==> s[i] == Shaped(sheet, list[i]);
  }

  lemma ListReadsBackIff(lower: Lower, sheet: bool, list: seq<Instance>)
    ensures ReadsBackAs(lower, WriteFromInstances(ShapeAll(sheet, list))) <==>
      ListFits(sheet, list) || ListIsPlain(lower, sheet, list)
  {
    var s := ShapeAll(sheet, Bounded(list));
    StoredShaped(sheet, list);
    StoredReadsBackIff(lower, s);
    ListStored(lower, sheet, list, s);
    if KeysApart(lower, s) { ShapedApart(lower, sheet, Bounded(list)); }
    if KeysApart(lower, Bounded(list)) { ShapeApart(lower, sheet, Bounded(list)); }
  }

  // ------------------------------------------------------------------ a merge

  /** The first sheet instance of each key that is not blank. */
  function Entries(lower: Lower, sheet: seq<Instance>): seq<Instance> {
    if sheet == [] then []
    else
      var rest := Entries(lower, sheet[..|sheet| - 1]);
      var last := sheet[|sheet| - 1];
      if Key(lower, last.name) == "" || Key(lower, last.name) in KeysOf(lower, sheet[..|sheet| - 1]) then rest
      else rest + [last]
  }

  lemma {:induction false} MergedAreEntries(lower: Lower, sheet: seq<Instance>, prior: seq<Instance>)
    ensures |Merged(lower, sheet, prior)| == |Entries(lower, sheet)|
    ensures forall k :: 0 <= k < |Entries(lower, sheet)| ==>
      Merged(lower, sheet, prior)[k] == MergeOne(lower, Entries(lower, sheet)[k], prior)
  {
    if sheet != [] { MergedAreEntries(lower, sheet[..|sheet| - 1], prior); }
  }

  lemma {:induction false} EntryIsInSheet(lower: Lower, sheet: seq<Instance>, k: nat)
    requires k < |Entries(lower, sheet)|
    ensures Entries(lower, sheet)[k] in sheet
  {
    if k < |Entries(lower, sheet[..|sheet| - 1])| { EntryIsInSheet(lower, sheet[..|sheet| - 1], k); }
  }

  /** A sheet instance is valid, or only its stacks are used and they are within bounds. */
  predicate EntryFits(lower: Lower, e: Instance, prior: seq<Instance>) {
    if LastWith(lower, prior, Key(lower, e.name)).Some? then 1 <= e.stacks <= 99 else Valid(e)
  }

  /** A sheet instance, or the prior one with its stacks, holds nothing but its name. */
  predicate EntryIsPlain(lower: Lower, e: Instance, prior: seq<Instance>) {
    match LastWith(lower, prior, Key(lower, e.name))
    case None => Bare(lower, e)
    case Some(p) => e.stacks == 1 && Bare(lower, p.(stacks := 1))
  }

  lemma MergeOneFits(lower: Lower, e: Instance, prior: seq<Instance>)
    requires AllValid(prior)
    ensures Valid(MergeOne(lower, e, prior)) <==> EntryFits(lower, e, prior)
    ensures Bare(lower, MergeOne(lower, e, prior)) <==> EntryIsPlain(lower, e, prior)
  {
    if LastWith(lower, prior, Key(lower, e.name)).Some? { LastWithKey(lower, prior, Key(lower, e.name)); }
  }

  predicate SheetFits(lower: Lower, sheet: seq<Instance>, prior: seq<Instance>) {
    forall k :: 0 <= k < |Entries(lower, sheet)| && k < MAX_INSTANCES ==> EntryFits(lower, Entries(lower, sheet)[k], prior)
  }

  predicate SheetIsPlain(lower: Lower, sheet: seq<Instance>, prior: seq<Instance>) {
    forall k :: 0 <= k < |Entries(lower, sheet)| && k < MAX_INSTANCES ==> EntryIsPlain(lower, Entries(lower, sheet)[k], prior)
  }

  /** Each stored instance is what its entry makes of the prior instances. */
  ghost predicate FromEntries(lower: Lower, s: seq<Instance>, es: seq<Instance>, prior: seq<Instance>) {
    && |s| == (if |es| <= MAX_INSTANCES then |es| else MAX_INSTANCES)
    && forall k :: 0 <= k < |s| ==> s[k] == MergeOne(lower, es[k], prior)
  }

  lemma EntriesStored(lower: Lower, s: seq<Instance>, sheet: seq<Instance>, prior: seq<Instance>)
    requires AllValid(prior) && FromEntries(lower, s, Entries(lower, sheet), prior)
    ensures AllValid(s) <==> SheetFits(lower, sheet, prior)
    ensures AllPlain(lower, s) <==> SheetIsPlain(lower, sheet, prior)
  {
    var es := Entries(lower, sheet);
    forall k | 0 <= k < |s|
      ensures (Valid(s[k]) <==> EntryFits(lower, es[k], prior)) && (Bare(lower, s[k]) <==> EntryIsPlain(lower, es[k], prior))
    {
      MergeOneFits(lower, es[k], prior);
    }
  }

  lemma MergedStored(lower: Lower, sheet: seq<Instance>, prior: seq<Instance>)
    ensures FromEntries(lower, Bounded(Merged(lower, sheet, prior)), Entries(lower, sheet), prior)
  {
    MergedAreEntries(lower, sheet, prior);
  }

  lemma MergeReadsBackIff(lower: Lower, sheet: seq<Instance>, prior: seq<Instance>)
    requires AllValid(prior)
    ensures ReadsBackAs(lower, WriteFromInstances(Merged(lower, sheet, prior))) <==>
      SheetFits(lower, sheet, prior) || SheetIsPlain(lower, sheet, prior)
  {
    var s := Bounded(Merged(lower, sheet, prior));
    MergedKeys(lower, sheet, prior);
    CapKeeps(lower, Merged(lower, sheet, prior));
    MergedStored(lower, sheet, prior);
    EntriesStored(lower, s, sheet, prior);
    StoredReadsBackIff(lower, s);
  }

  // ------------------------------------------------------------------ any write, and runs

  /** The schema accepts what the write is given, as far as it is used. */
  ghost predicate Fits(lower: Lower, row: Row, op: Op) {
    match op
    case ByNames(names) => NamesFit(lower, names, ParseInstances(row.instances))
    case SheetByNames(names) => NamesFit(lower, names, ParseInstances(row.instances))
    case ByInstances(list) => ListFits(false, list)
    case SheetByInstances(list) => ListFits(true, list)
    case ByMerging(sheet) => SheetFits(lower, sheet, ParseInstances(row.instances))
  }

  /** The write has nothing but names to store. */
  ghost predicate OnlyNames(lower: Lower, row: Row, op: Op) {
    match op
    case ByNames(names) => NamedArePlain(lower, false, names, ParseInstances(row.instances))
    case SheetByNames(names) => NamedArePlain(lower, true, names, ParseInstances(row.instances))
    case ByInstances(list) => ListIsPlain(lower, false, list)
    case SheetByInstances(list) => ListIsPlain(lower, true, list)
    case ByMerging(sheet) => SheetIsPlain(lower, sheet, ParseInstances(row.instances))
  }

  /**
   * A write reads back exactly as it was written if and only if the schema accepts what it is given, or it has nothing
   * but names to store.
   */
  lemma WriteReadsBackIff(lower: Lower, row: Row, op: Op)
    ensures ReadInstances(lower, Apply(lower, row, op)) == Apply(lower, row, op).instances.value <==>
      Fits(lower, row, op) || OnlyNames(lower, row, op)
  {
    var prior := ParseInstances(row.instances);
    match op
    case ByNames(names) => NamesReadBackIff(lower, false, names, prior);
    case SheetByNames(names) =>
      NamesReadBackIff(lower, true, names, prior);
      StoredShaped(true, Reconciled(lower, names, prior));
    case ByInstances(list) => ListReadsBackIff(lower, false, list);
    case SheetByInstances(list) => ListReadsBackIff(lower, true, list);
    case ByMerging(sheet) => MergeReadsBackIff(lower, sheet, prior);
  }

  /** What a caller of a writer may give it: names that are short enough, or instances of the schema. */
  predicate OpValid(op: Op) {
    match op
    case ByNames(names) => forall i :: 0 <= i < |names| ==> |Trim(names[i])| <= MAX_NAME
    case SheetByNames(names) => forall i :: 0 <= i < |names| ==> |Trim(names[i])| <= MAX_NAME
    case ByInstances(list) => AllValid(list)
    case SheetByInstances(list) => AllValid(list)
    case ByMerging(sheet) => AllValid(sheet)
  }

  lemma ShortNamesFit(lower: Lower, names: seq<string>, prior: seq<Instance>)
    requires forall i :: 0 <= i < |names| ==> |Trim(names[i])| <= MAX_NAME
    ensures NamesFit(lower, names, prior)
  {
    var ws, unknown := WantedNames(lower, names), NewOf(lower, names, prior);
    forall k | 0 <= k < |unknown| ensures |unknown[k]| <= MAX_NAME {
      var i := NewIsWanted(ws, |ws|, KeysOf(lower, prior), k);
      WantedSpelling(lower, names, i);
    }
  }

  lemma ValidFits(lower: Lower, row: Row, op: Op)
    requires OpValid(op)
    ensures Fits(lower, row, op)
  {
    var prior := ParseInstances(row.instances);
    match op
    case ByNames(names) => ShortNamesFit(lower, names, prior);
    case SheetByNames(names) => ShortNamesFit(lower, names, prior);
    case ByInstances(list) =>
    case SheetByInstances(list) =>
      forall i | 0 <= i < |list| ensures Valid(Shaped(true, list[i])) { ShapeOfValid(true, list[i]); }
    case ByMerging(sheet) =>
      forall k | 0 <= k < |Entries(lower, sheet)| ensures EntryFits(lower, Entries(lower, sheet)[k], prior) {
        EntryIsInSheet(lower, sheet, k);
      }
  }

  /** Over any run of writes from any row, reading returns exactly what the last write stored, if that was given valid input. */
  lemma RunReadsBack(lower: Lower, row: Row, ops: seq<Op>)
    requires ops != [] && OpValid(ops[|ops| - 1])
    ensures Agrees(Run(lower, row, ops))
    ensures ReadInstances(lower, Run(lower, row, ops)) == Run(lower, row, ops).instances.value
  {
    var before := Run(lower, row, ops[..|ops| - 1]);
    RunAgrees(lower, row, ops);
    ValidFits(lower, before, ops[|ops| - 1]);
    WriteReadsBackIff(lower, before, ops[|ops| - 1]);
  }

  // ------------------------------------------------------------------ a write that does not read back

  function Sourced(lower: Lower, name: string): Instance {
    Instance(LegacyId(lower, name), name, None, Some("a trap"), None, None, None, NoTiming, NoTiming, None, None, false, 1, "", false)
  }

  /** A condition named `short` is stored with a source; a write gives its name and the name `long`. */
  ghost predicate LongCase(lower: Lower, row: Row, short: string, long: string) {
    && Trim(short) == short && short != "" && |short| <= MAX_NAME
    && Trim(long) == long && |long| > MAX_NAME && lower(long) != lower(short)
    && row.instances == Stored([Sourced(lower, short)])
  }

  lemma TwoNames(lower: Lower, short: string, long: string)
    requires Trim(short) == short && short != "" && Trim(long) == long && long != "" && lower(long) != lower(short)
    ensures WantedNames(lower, [short, long]) == [Wanted(lower(short), short), Wanted(lower(long), long)]
  {
    var a, b := Wanted(lower(short), short), Wanted(lower(long), long);
    var none: seq<Wanted> := [];
    assert [short][..0] == [] && WantedNames(lower, []) == none;
    assert Put(none, lower(short), short) == [a] && WantedNames(lower, [short]) == [a];
    assert [a][1..] == none && Put(none, lower(long), long) == [b];
    assert Put([a], lower(long), long) == [a] + [b];
    assert [short, long][..1] == [short];
  }

  lemma SecondIsNew(a: Wanted, b: Wanted, known: set<string>)
    requires a.key in known && b.key !in known
    ensures NewNames([a, b], 2, known) == [b.name]
  {
    assert NewNames([a, b], 0, known) == [] && NewNames([a, b], 1, known) == [] && NewNames([a, b], 2, known) == [] + [b.name];
  }

  lemma LongIsRefused(lower: Lower, row: Row, short: string, long: string)
    requires LongCase(lower, row, short, long)
    ensures !NamesFit(lower, [short, long], [Sourced(lower, short)])
  {
    var names, prior := [short, long], [Sourced(lower, short)];
    var ws := WantedNames(lower, names);
    TwoNames(lower, short, long);
    assert prior[0] in prior && KeysOf(lower, prior) == {lower(short)};
    assert ws[0] in ws && KeysOf(lower, prior) * WantedKeys(ws) == {lower(short)};
    SecondIsNew(ws[0], ws[1], KeysOf(lower, prior));
    assert NewOf(lower, names, prior) == [long];
    assert [long][0] == long && KnownNames(lower, names, prior) == 1;
  }

  lemma SourceIsNotPlain(lower: Lower, row: Row, short: string, long: string)
    requires LongCase(lower, row, short, long)
    ensures !NamedArePlain(lower, false, [short, long], [Sourced(lower, short)])
  {
    var names, prior := [short, long], [Sourced(lower, short)];
    assert prior[0] in prior && FirstOfKey(lower, prior, prior[0]);
    assert names[0] == short && Asks(lower, names, lower(short));
    assert !Bare(lower, prior[0]);
  }

  /** A name over 120 characters beside a condition with a source: the write does not read back. */
  lemma LongNameFails(lower: Lower, row: Row, short: string, long: string)
    requires LongCase(lower, row, short, long)
    ensures var after := Apply(lower, row, ByNames([short, long]));
      ReadInstances(lower, after) != after.instances.value
  {
    assert Valid(Sourced(lower, short)) && ParseInstances(row.instances) == [Sourced(lower, short)];
    LongIsRefused(lower, row, short, long);
    SourceIsNotPlain(lower, row, short, long);
    WriteReadsBackIff(lower, row, ByNames([short, long]));
  }

  /** 121 times `x`. */
  function LongName(): (s: string)
    ensures |s| == MAX_NAME + 1 && Trim(s) == s
  {
    var s := seq(MAX_NAME + 1, i => 'x');
    TrimOfNoSpace(s);
    s
  }

  lemma SourcedRow(lower: Lower, short: string)
    requires Trim(short) == short && short != "" && |short| <= MAX_NAME
    ensures AllValid([Sourced(lower, short)]) && DeriveNames([Sourced(lower, short)]) == [short]
  {
    var s := [Sourced(lower, short)];
    assert s[..0] == [] && DeriveNames([]) == [];
  }

  /** Such an input: `prone` with a source, which reads back, and a write by the names `prone` and 121 times `x`. */
  lemma LongNameGap(lower: Lower, row: Row)
    requires lower("prone") == "prone" && lower(LongName()) == LongName()
    requires row == Row(Stored(["prone"]), Stored([Sourced(lower, "prone")]))
    ensures Agrees(row) && ReadInstances(lower, row) == row.instances.value
    ensures var after := Apply(lower, row, ByNames(["prone", LongName()]));
      ReadInstances(lower, after) != after.instances.value
  {
    TrimOfNoSpace("prone");
    SourcedRow(lower, "prone");
    ReadsBack(lower, row);
    assert |LongName()| != |"prone"|;
    LongNameFails(lower, row, "prone", LongName());
  }
}
