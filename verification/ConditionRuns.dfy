/** What the condition writers keep over any run. */
module ConditionRuns {
  import opened Text
  import opened Sequences
  import opened Conditions

  // ------------------------------------------------------------------ derived names

  lemma {:induction false} DerivedIsTrimmed(s: seq<Instance>, n: string)
    requires n in DeriveNames(s)
    ensures n != "" && Trim(n) == n && exists i :: 0 <= i < |s| && Trim(s[i].name) == n
  {
    var init, last := s[..|s| - 1], s[|s| - 1];
    if n in DeriveNames(init) {
      DerivedIsTrimmed(init, n);
      var i :| 0 <= i < |init| && Trim(init[i].name) == n;
      assert s[i] == init[i];
    } else {
      TrimTwice(last.name);
      assert Trim(s[|s| - 1].name) == n;
    }
  }

  lemma {:induction false} DerivedHasAll(s: seq<Instance>, i: nat)
    requires i < |s| && Trim(s[i].name) != ""
    ensures Trim(s[i].name) in DeriveNames(s)
  {
    if i < |s| - 1 { DerivedHasAll(s[..|s| - 1], i); }
  }

  lemma {:induction false} DerivedOnce(s: seq<Instance>, i: nat, j: nat)
    requires i < j < |DeriveNames(s)|
    ensures DeriveNames(s)[i] != DeriveNames(s)[j]
  {
    var rest := DeriveNames(s[..|s| - 1]);
    if j < |rest| { DerivedOnce(s[..|s| - 1], i, j); }
  }

  lemma {:induction false} DerivedIsNoLonger(s: seq<Instance>)
    ensures |DeriveNames(s)| <= |s|
  {
    if s != [] { DerivedIsNoLonger(s[..|s| - 1]); }
  }

  // ------------------------------------------------------------------ columns agree

  /** Both columns hold one list: at most 50 instances, and the names derived from them. */
  predicate Agrees(row: Row) {
    && row.instances.Stored? && row.conditions == Stored(DeriveNames(row.instances.value))
    && |row.instances.value| <= MAX_INSTANCES && |DeriveNames(row.instances.value)| <= MAX_INSTANCES
  }

  lemma BoundedAgrees(s: seq<Instance>)
    requires |s| <= MAX_INSTANCES
    ensures Agrees(WriteBoth(s))
  {
    DerivedIsNoLonger(s);
  }

  datatype Op =
    | ByNames(names: seq<string>)
    | ByInstances(list: seq<Instance>)
    | ByMerging(sheet: seq<Instance>)
    | SheetByNames(names: seq<string>)
    | SheetByInstances(list: seq<Instance>)

  /** One write of the row, each from the helper that makes both columns. */
  function Apply(lower: Lower, row: Row, op: Op): Row {
    match op
    case ByNames(names) => WriteFromNames(lower, names, row.instances)
    case ByInstances(list) => WriteFromInstances(list)
    case ByMerging(sheet) => WriteMergingSheet(lower, sheet, row.instances)
    case SheetByNames(names) => SheetFromNames(lower, names, row.instances)
    case SheetByInstances(list) => SheetFromInstances(list)
  }

  function Run(lower: Lower, row: Row, ops: seq<Op>): Row {
    if ops == [] then row else Apply(lower, Run(lower, row, ops[..|ops| - 1]), ops[|ops| - 1])
  }

  lemma WriteAgrees(lower: Lower, row: Row, op: Op)
    ensures Agrees(Apply(lower, row, op))
  {
    match op
    case ByNames(names) => BoundedAgrees(Reconciled(lower, names, ParseInstances(row.instances)));
    case ByInstances(list) => BoundedAgrees(Bounded(list));
    case ByMerging(sheet) => BoundedAgrees(Bounded(Merged(lower, sheet, ParseInstances(row.instances))));
    case SheetByNames(names) => BoundedAgrees(Bounded(AllToSheet(Reconciled(lower, names, ParseInstances(row.instances)))));
    case SheetByInstances(list) => BoundedAgrees(Bounded(AllToSheet(list)));
  }

  /** After any run of writes, from any row whatever it held, the columns agree. */
  lemma RunAgrees(lower: Lower, row: Row, ops: seq<Op>)
    requires ops != []
    ensures Agrees(Run(lower, row, ops))
  {
    WriteAgrees(lower, Run(lower, row, ops[..|ops| - 1]), ops[|ops| - 1]);
  }

  // ------------------------------------------------------------------ reading back

  /** Some instance bears the name. */
  predicate Bears(s: seq<Instance>, name: string) { exists i :: 0 <= i < |s| && Trim(s[i].name) == Trim(name) }

  lemma {:induction false} NothingToAdd(lower: Lower, s: seq<Instance>, names: seq<string>)
    requires forall k :: 0 <= k < |names| ==> Bears(s, names[k])
    ensures WithNames(lower, s, names) == s
  {
    if names != [] {
      var last := names[|names| - 1];
      NothingToAdd(lower, s, names[..|names| - 1]);
      var i :| 0 <= i < |s| && Trim(s[i].name) == Trim(last);
      assert s[i] in s;
    }
  }

  /** Valid instances read back exactly as they were written. */
  lemma ReadsBack(lower: Lower, row: Row)
    requires Agrees(row) && AllValid(row.instances.value)
    ensures ReadInstances(lower, row) == row.instances.value
  {
    var s := row.instances.value;
    forall k | 0 <= k < |DeriveNames(s)| ensures Bears(s, DeriveNames(s)[k]) { DerivedIsTrimmed(s, DeriveNames(s)[k]); }
    NothingToAdd(lower, s, DeriveNames(s));
  }

  /** An instance that holds nothing but its name, which is trimmed and not blank. */
  predicate Bare(lower: Lower, i: Instance) {
    i.name != "" && Trim(i.name) == i.name && Legacy(lower, i.name) == Some(i)
  }

  /** The last instance is bare and shares its key with none before it. */
  predicate EndsBare(lower: Lower, s: seq<Instance>)
    requires s != []
  {
    Bare(lower, s[|s| - 1]) && Key(lower, s[|s| - 1].name) !in KeysOf(lower, s[..|s| - 1])
  }

  /** Bare instances, no two with one key. */
  predicate AllBare(lower: Lower, s: seq<Instance>) {
    s == [] || (EndsBare(lower, s) && AllBare(lower, s[..|s| - 1]))
  }

  lemma {:induction false} NamesAreBare(lower: Lower, names: seq<string>)
    ensures AllBare(lower, WithNames(lower, [], names))
  {
    if names != [] {
      var rest := WithNames(lower, [], names[..|names| - 1]);
      NamesAreBare(lower, names[..|names| - 1]);
      var name := Trim(names[|names| - 1]);
      TrimTwice(names[|names| - 1]);
      if name != "" && lower(name) !in KeysOf(lower, rest) {
        assert (rest + [Legacy(lower, name).value])[..|rest|] == rest;
      }
    }
  }

  lemma DerivedKey(lower: Lower, s: seq<Instance>, n: string)
    requires n in DeriveNames(s)
    ensures Key(lower, n) in KeysOf(lower, s)
  {
    DerivedIsTrimmed(s, n);
    var i :| 0 <= i < |s| && Trim(s[i].name) == n;
    assert s[i] in s;
  }

  lemma DeriveBare(lower: Lower, init: seq<Instance>, last: Instance)
    requires Bare(lower, last) && Key(lower, last.name) !in KeysOf(lower, init)
    ensures DeriveNames(init + [last]) == DeriveNames(init) + [last.name]
  {
    assert (init + [last])[..|init|] == init;
    if last.name in DeriveNames(init) { DerivedKey(lower, init, last.name); }
  }

  lemma BareStep(lower: Lower, init: seq<Instance>, last: Instance)
    requires Bare(lower, last) && Key(lower, last.name) !in KeysOf(lower, init)
    requires WithNames(lower, [], DeriveNames(init)) == init
    ensures WithNames(lower, [], DeriveNames(init + [last])) == init + [last]
  {
    DeriveBare(lower, init, last);
    ReadBare(lower, init, DeriveNames(init), last);
  }

  lemma {:induction false} BareReadBack(lower: Lower, s: seq<Instance>)
    requires AllBare(lower, s)
    ensures WithNames(lower, [], DeriveNames(s)) == s
  {
    if s != [] {
      SplitLast(s);
      BareReadBack(lower, s[..|s| - 1]);
      BareStep(lower, s[..|s| - 1], s[|s| - 1]);
    }
  }

  lemma ReadBare(lower: Lower, init: seq<Instance>, names: seq<string>, last: Instance)
    requires Bare(lower, last) && Key(lower, last.name) !in KeysOf(lower, init) && WithNames(lower, [], names) == init
    ensures WithNames(lower, [], names + [last.name]) == init + [last]
  {
    assert (names + [last.name])[..|names|] == names;
  }

  /** A write reads back exactly unless the schema refuses some instance and not all of them are bare. */
  lemma ReadsBackIff(lower: Lower, row: Row)
    requires Agrees(row)
    ensures ReadInstances(lower, row) == row.instances.value <==>
      AllValid(row.instances.value) || AllBare(lower, row.instances.value)
  {
    var s := row.instances.value;
    if AllValid(s) {
      ReadsBack(lower, row);
    } else {
      NamesAreBare(lower, DeriveNames(s));
      BareIsBounded(lower, DeriveNames(s));
      if AllBare(lower, s) { BareReadBack(lower, s); }
    }
  }

  lemma {:induction false} BareIsBounded(lower: Lower, names: seq<string>)
    ensures |WithNames(lower, [], names)| <= |names|
  {
    if names != [] { BareIsBounded(lower, names[..|names| - 1]); }
  }

  // ------------------------------------------------------------------ one write by names

  /** Some of the names, not blank, has the key. */
  predicate Asks(lower: Lower, names: seq<string>, key: string) {
    exists i :: 0 <= i < |names| && Trim(names[i]) != "" && Key(lower, names[i]) == key
  }

  lemma AsksMore(lower: Lower, names: seq<string>, last: string, key: string)
    ensures Asks(lower, names + [last], key) <==> Asks(lower, names, key) || (Trim(last) != "" && Key(lower, last) == key)
  {
    var all := names + [last];
    assert all[|names|] == last;
    if i :| 0 <= i < |names| && Trim(names[i]) != "" && Key(lower, names[i]) == key { assert all[i] == names[i]; }
  }

  /** The keys wanted are those of the names given. */
  lemma {:induction false} WantedKeysAre(lower: Lower, names: seq<string>, key: string)
    ensures key in WantedKeys(WantedNames(lower, names)) <==> Asks(lower, names, key)
  {
    if names != [] {
      var init, last := names[..|names| - 1], names[|names| - 1];
      assert names == init + [last];
      WantedKeysAre(lower, init, key);
      WantedOnce(lower, init);
      AsksMore(lower, init, last, key);
      if Trim(last) != "" { PutHolds(WantedNames(lower, init), lower(Trim(last)), Trim(last)); }
    }
  }

  /** No two instances share a key. */
  ghost predicate KeysApart(lower: Lower, s: seq<Instance>) {
    s == [] || (Key(lower, s[|s| - 1].name) !in KeysOf(lower, s[..|s| - 1]) && KeysApart(lower, s[..|s| - 1]))
  }

  /** `a` is `b` with some instances left out. */
  ghost predicate Subsequence(a: seq<Instance>, b: seq<Instance>) {
    if a == [] then true
    else if b == [] then false
    else if a[|a| - 1] == b[|b| - 1] && Subsequence(a[..|a| - 1], b[..|b| - 1]) then true
    else Subsequence(a, b[..|b| - 1])
  }

  lemma ApartMore(lower: Lower, s: seq<Instance>, i: Instance)
    requires KeysApart(lower, s) && Key(lower, i.name) !in KeysOf(lower, s)
    ensures KeysApart(lower, s + [i]) && KeysOf(lower, s + [i]) == KeysOf(lower, s) + {Key(lower, i.name)}
  {
    KeysGrow(lower, s, i);
    assert (s + [i])[..|s|] == s;
  }

  lemma SubsequenceMore(a: seq<Instance>, b: seq<Instance>, i: Instance)
    requires Subsequence(a, b)
    ensures Subsequence(a + [i], b + [i]) && Subsequence(a, b + [i])
  {
    assert (a + [i])[..|a|] == a && (b + [i])[..|b|] == b;
  }

  /** `s` is what survives of `prior` for the wanted keys: unchanged, in order, one for each key. */
  ghost predicate Survived(lower: Lower, s: seq<Instance>, prior: seq<Instance>, keys: set<string>) {
    Subsequence(s, prior) && KeysApart(lower, s) && KeysOf(lower, s) == KeysOf(lower, prior) * keys
  }

  lemma MeetWith(a: set<string>, keys: set<string>, k: string)
    ensures k in keys ==> (a + {k}) * keys == a * keys + {k}
    ensures k !in keys || k in a * keys ==> (a + {k}) * keys == a * keys
  {}

  lemma LastSurvives(lower: Lower, s: seq<Instance>, prior: seq<Instance>, keys: set<string>, last: Instance)
    requires Survived(lower, s, prior, keys) && Key(lower, last.name) in keys && Key(lower, last.name) !in KeysOf(lower, s)
    ensures Survived(lower, s + [last], prior + [last], keys)
  {
    SubsequenceMore(s, prior, last);
    KeysGrow(lower, prior, last);
    ApartMore(lower, s, last);
    MeetWith(KeysOf(lower, prior), keys, Key(lower, last.name));
  }

  lemma LastDropped(lower: Lower, s: seq<Instance>, prior: seq<Instance>, keys: set<string>, last: Instance)
    requires Survived(lower, s, prior, keys) && (Key(lower, last.name) !in keys || Key(lower, last.name) in KeysOf(lower, s))
    ensures Survived(lower, s, prior + [last], keys)
  {
    SubsequenceMore(s, prior, last);
    KeysGrow(lower, prior, last);
    MeetWith(KeysOf(lower, prior), keys, Key(lower, last.name));
  }

  /** Survivors are prior instances, unchanged and in order, one for each wanted key that prior has. */
  lemma {:induction false} SurvivorsHold(lower: Lower, prior: seq<Instance>, ws: seq<Wanted>)
    ensures Survived(lower, Survivors(lower, prior, ws), prior, WantedKeys(ws))
  {
    if prior != [] {
      var init, last := prior[..|prior| - 1], prior[|prior| - 1];
      SplitLast(prior);
      SurvivorsHold(lower, init, ws);
      HasKeyIff(ws, Key(lower, last.name));
      if HasKey(ws, Key(lower, last.name)) && Key(lower, last.name) !in KeysOf(lower, Survivors(lower, init, ws)) {
        LastSurvives(lower, Survivors(lower, init, ws), init, WantedKeys(ws), last);
      } else {
        LastDropped(lower, Survivors(lower, init, ws), init, WantedKeys(ws), last);
      }
    }
  }
}
