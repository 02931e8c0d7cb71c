/** What the condition writers store and the reader returns, field by field (apps/server/src/common/conditions.ts). */
module ConditionWrites {
  import opened Text
  import opened Sequences
  import opened Conditions
  import opened ConditionRuns
  import opened ConditionNames
  import opened ConditionReadBack

  // ------------------------------------------------------------------ bare instances

  predicate IdChar(c: char) { SlugChar(c) || c == '_' }

  predicate IdChars(s: string) { forall i :: 0 <= i < |s| ==> IdChar(s[i]) }

  lemma {:induction false} UnderscoredChars(s: string, inRun: bool)
    ensures IdChars(Underscored(s, inRun))
  {
    if s != "" { UnderscoredChars(s[1..], !SlugChar(s[0])); }
  }

  lemma {:induction false} PlainStays(s: string)
    requires forall i :: 0 <= i < |s| ==> SlugChar(s[i])
    ensures Underscored(s, false) == s
  {
    if s != "" {
      PlainStays(s[1..]);
      assert s == [s[0]] + s[1..];
    }
  }

  lemma SlugIs(lowered: string)
    ensures IdChars(Slug(lowered)) && |Slug(lowered)| <= 33
    ensures (forall i :: 0 <= i < |lowered| ==> SlugChar(lowered[i])) && |lowered| <= 33 ==> Slug(lowered) == lowered
  {
    UnderscoredChars(lowered, false);
    if forall i :: 0 <= i < |lowered| ==> SlugChar(lowered[i]) { PlainStays(lowered); }
  }

  /** An instance with nothing but its id and its name. */
  predicate NothingElse(i: Instance) {
    && i.ruleEntryId == None && i.source == None && i.sourceCombatantId == None && i.durationRounds == None
    && i.roundsRemaining == None && i.timing == NoTiming && i.saveTiming == NoTiming && i.saveDc == None && i.saveAbility == None
    && !i.isConcentration && i.stacks == 1 && i.notes == "" && !i.custom
  }

  /** A condition that only existed as a name: the trimmed name, one stack, an id made of it, and nothing else. */
  lemma LegacyIs(lower: Lower, raw: string)
    ensures Legacy(lower, raw) == None <==> Trim(raw) == ""
    ensures Legacy(lower, raw).Some? ==>
      var i := Legacy(lower, raw).value;
      && i.name == Trim(raw) && NothingElse(i) && |i.id| <= 40 && "legacy_" <= i.id && IdChars(i.id)
      && (lower(Trim(raw)) != "" && |lower(Trim(raw))| <= 33 && (forall k :: 0 <= k < |lower(Trim(raw))| ==> SlugChar(lower(Trim(raw))[k]))
          ==> i.id == "legacy_" + lower(Trim(raw)))
  {
    var name := Trim(raw);
    if name != "" {
      var slug := Slug(lower(name));
      SlugIs(lower(name));
      var id := LegacyId(lower, name);
      assert IdChars("legacy_") && IdChars("condition");
      assert id == "legacy_" + (if slug == "" then "condition" else slug);
    }
  }

  // ------------------------------------------------------------------ the sheet

  /** An instance on a sheet: as it was, without the seven fields that only mean something in an encounter. */
  predicate OnSheet(stored: Instance, given: Instance) {
    stored == Instance(given.id, given.name, given.ruleEntryId, given.source, None, None, None, NoTiming, NoTiming, None, None,
      given.isConcentration, given.stacks, given.notes, given.custom)
  }

  /** A sheet written from instances holds the first fifty of them, without those fields. */
  lemma SheetOfInstances(lower: Lower, row: Row, list: seq<Instance>)
    ensures var stored := Apply(lower, row, SheetByInstances(list)).instances.value;
      && |stored| == (if |list| < 50 then |list| else 50)
      && forall i :: 0 <= i < |stored| ==> OnSheet(stored[i], list[i])
  {}

  /** A sheet written by names holds what a combatant would, without those fields. */
  lemma SheetOfNames(lower: Lower, row: Row, names: seq<string>)
    ensures var stored, plain := Apply(lower, row, SheetByNames(names)).instances.value, Apply(lower, row, ByNames(names)).instances.value;
      |stored| == |plain| && forall i :: 0 <= i < |stored| ==> OnSheet(stored[i], plain[i])
  {}

  /** A combatant written from instances holds the first fifty of them, unchanged. */
  lemma FirstFifty(lower: Lower, row: Row, list: seq<Instance>)
    ensures Apply(lower, row, ByInstances(list)).instances.value == if |list| < 50 then list else list[..50]
  {}

  // ------------------------------------------------------------------ names in any case

  /** The first instance whose name, trimmed and in lower case, is that of a name given. */
  ghost predicate FirstNamed(lower: Lower, prior: seq<Instance>, names: seq<string>, j: nat) {
    && j < |prior|
    && (exists k :: 0 <= k < |names| && Trim(names[k]) != "" && lower(Trim(names[k])) == lower(Trim(prior[j].name)))
    && forall m :: 0 <= m < j ==> lower(Trim(prior[m].name)) != lower(Trim(prior[j].name))
  }

  lemma FirstNamedIs(lower: Lower, prior: seq<Instance>, names: seq<string>, j: nat)
    requires FirstNamed(lower, prior, names, j)
    ensures FirstOfKey(lower, prior, prior[j]) && Asks(lower, names, Key(lower, prior[j].name))
  {
    var k :| 0 <= k < |names| && Trim(names[k]) != "" && lower(Trim(names[k])) == lower(Trim(prior[j].name));
    assert Key(lower, names[k]) == Key(lower, prior[j].name);
  }

  lemma KeptIsStored(kept: seq<Instance>, added: seq<Instance>, i: Instance)
    requires i in kept && |kept| <= 50
    ensures i in Bounded(kept + added)
  {
    var k :| 0 <= k < |kept| && kept[k] == i;
    assert Bounded(kept + added)[k] == i;
  }

  /** A stored condition that a write by names gives, in whatever case, stays as it is. */
  lemma NamedStays(lower: Lower, row: Row, names: seq<string>, j: nat)
    requires row.instances.Stored? && AllValid(row.instances.value) && |row.instances.value| <= 50
    requires FirstNamed(lower, row.instances.value, names, j)
    ensures row.instances.value[j] in Apply(lower, row, ByNames(names)).instances.value
  {
    var prior := row.instances.value;
    var kept, added := NamesSplit(lower, names, prior);
    FirstNamedIs(lower, prior, names, j);
    KeptIff(lower, names, prior, kept, prior[j]);
    KeptAreFew(kept, prior);
    KeptIsStored(kept, added, prior[j]);
  }

  lemma {:induction false} KeptAreFew(a: seq<Instance>, b: seq<Instance>)
    requires Subsequence(a, b)
    ensures |a| <= |b|
  {
    if a != [] {
      if a[|a| - 1] == b[|b| - 1] && Subsequence(a[..|a| - 1], b[..|b| - 1]) { KeptAreFew(a[..|a| - 1], b[..|b| - 1]); }
      else { KeptAreFew(a, b[..|b| - 1]); }
    }
  }

  // ------------------------------------------------------------------ reading any row

  ghost predicate FromNames(lower: Lower, names: seq<string>, added: seq<Instance>) {
    forall k :: 0 <= k < |added| ==> Bare(lower, added[k]) && GivenAs(names, added[k].name)
  }

  ghost predicate GivenAs(names: seq<string>, name: string) { exists m :: 0 <= m < |names| && name == Trim(names[m]) }

  ghost predicate NotKnown(lower: Lower, known: seq<Instance>, added: seq<Instance>) {
    forall k, m :: 0 <= k < |added| && 0 <= m < |known| ==> lower(Trim(known[m].name)) != lower(Trim(added[k].name))
  }

  ghost predicate Different(lower: Lower, added: seq<Instance>) {
    forall k, m :: 0 <= k < m < |added| ==> lower(Trim(added[k].name)) != lower(Trim(added[m].name))
  }

  ghost predicate AllThere(lower: Lower, names: seq<string>, all: seq<Instance>) {
    forall m :: 0 <= m < |names| && Trim(names[m]) != "" ==> HasName(lower, all, names[m])
  }

  /** Bare instances of names given, one for each name not there before. */
  ghost predicate Filled(lower: Lower, known: seq<Instance>, names: seq<string>, added: seq<Instance>) {
    && FromNames(lower, names, added) && NotKnown(lower, known, added) && Different(lower, added)
    && AllThere(lower, names, known + added)
  }

  ghost predicate HasName(lower: Lower, s: seq<Instance>, name: string) {
    exists k :: 0 <= k < |s| && lower(Trim(s[k].name)) == lower(Trim(name))
  }

  lemma HasKeyName(lower: Lower, s: seq<Instance>, name: string)
    ensures HasName(lower, s, name) <==> Key(lower, name) in KeysOf(lower, s)
  {
    if Key(lower, name) in KeysOf(lower, s) {
      var i :| i in s && Key(lower, i.name) == Key(lower, name);
      var k :| 0 <= k < |s| && s[k] == i;
    }
    if HasName(lower, s, name) {
      var k :| 0 <= k < |s| && lower(Trim(s[k].name)) == lower(Trim(name));
      assert s[k] in s;
    }
  }

  lemma HasNameMore(lower: Lower, s: seq<Instance>, i: Instance, name: string)
    requires HasName(lower, s, name)
    ensures HasName(lower, s + [i], name)
  {
    var k :| 0 <= k < |s| && lower(Trim(s[k].name)) == lower(Trim(name));
    assert (s + [i])[k] == s[k];
  }

  lemma GivenMore(names: seq<string>, last: string, name: string)
    requires GivenAs(names, name)
    ensures GivenAs(names + [last], name)
  {
    var m :| 0 <= m < |names| && name == Trim(names[m]);
    assert (names + [last])[m] == names[m];
  }

  lemma FromMore(lower: Lower, names: seq<string>, added: seq<Instance>, last: string)
    requires FromNames(lower, names, added)
    ensures FromNames(lower, names + [last], added)
  {
    forall k | 0 <= k < |added| ensures GivenAs(names + [last], added[k].name) { GivenMore(names, last, added[k].name); }
  }

  lemma FromLast(lower: Lower, names: seq<string>, added: seq<Instance>, last: string, i: Instance)
    requires FromNames(lower, names, added) && Bare(lower, i) && i.name == Trim(last)
    ensures FromNames(lower, names + [last], added + [i])
  {
    FromMore(lower, names, added, last);
    assert (names + [last])[|names|] == last;
    assert GivenAs(names + [last], i.name);
  }

  lemma StaysDifferent(lower: Lower, known: seq<Instance>, added: seq<Instance>, i: Instance)
    requires NotKnown(lower, known, added) && Different(lower, added) && !HasName(lower, known + added, i.name)
    ensures NotKnown(lower, known, added + [i]) && Different(lower, added + [i])
  {
    forall m | 0 <= m < |known| ensures lower(Trim(known[m].name)) != lower(Trim(i.name)) {
      assert (known + added)[m] == known[m];
    }
    forall k | 0 <= k < |added| ensures lower(Trim(added[k].name)) != lower(Trim(i.name)) {
      assert (known + added)[|known| + k] == added[k];
    }
  }

  lemma AllThereMore(lower: Lower, names: seq<string>, all: seq<Instance>, last: string, more: seq<Instance>)
    requires AllThere(lower, names, all) && (more == all || (more != [] && more[..|more| - 1] == all))
    requires Trim(last) != "" ==> HasName(lower, more, last)
    ensures AllThere(lower, names + [last], more)
  {
    forall m | 0 <= m < |names + [last]| && Trim((names + [last])[m]) != "" ensures HasName(lower, more, (names + [last])[m]) {
      if m < |names| && more != all {
        SplitLast(more);
        HasNameMore(lower, all, more[|more| - 1], names[m]);
      }
    }
  }

  lemma FilledBy(lower: Lower, known: seq<Instance>, names: seq<string>, added: seq<Instance>, last: string, i: Instance)
    requires Filled(lower, known, names, added) && Bare(lower, i) && i.name == Trim(last)
    requires !HasName(lower, known + added, last)
    ensures Filled(lower, known, names + [last], added + [i])
  {
    TrimTwice(last);
    FromLast(lower, names, added, last, i);
    StaysDifferent(lower, known, added, i);
    var more := known + (added + [i]);
    assert more[|more| - 1] == i && more[..|more| - 1] == known + added;
    AllThereMore(lower, names, known + added, last, more);
  }

  lemma FilledAlready(lower: Lower, known: seq<Instance>, names: seq<string>, added: seq<Instance>, last: string)
    requires Filled(lower, known, names, added) && (Trim(last) == "" || HasName(lower, known + added, last))
    ensures Filled(lower, known, names + [last], added)
  {
    FromMore(lower, names, added, last);
    AllThereMore(lower, names, known + added, last, known + added);
  }

  lemma {:induction false} WithNamesFills(lower: Lower, known: seq<Instance>, names: seq<string>) returns (added: seq<Instance>)
    ensures WithNames(lower, known, names) == known + added && Filled(lower, known, names, added)
  {
    if names == [] {
      added := [];
      assert known + [] == known;
    } else {
      var init, last := names[..|names| - 1], names[|names| - 1];
      var before := WithNamesFills(lower, known, init);
      SplitLast(names);
      HasKeyName(lower, known + before, last);
      if Trim(last) == "" || HasName(lower, known + before, last) {
        added := before;
        FilledAlready(lower, known, init, before, last);
      } else {
        var i := Legacy(lower, Trim(last)).value;
        TrimTwice(last);
        added := before + [i];
        FilledBy(lower, known, init, before, last, i);
        Assoc(known, before, [i]);
      }
    }
  }

  /** Reading any row: the stored instances, if all are valid, and a bare one for each stored name without one, fifty in all. */
  lemma ReadFills(lower: Lower, row: Row) returns (added: seq<Instance>)
    ensures var known := if row.instances.Stored? && AllValid(row.instances.value) then row.instances.value else [];
      var names := if row.conditions.Stored? then row.conditions.value else [];
      var all := known + added;
      Filled(lower, known, names, added) && ReadInstances(lower, row) == if |all| <= 50 then all else all[..50]
  {
    added := WithNamesFills(lower, ParseInstances(row.instances), NamesIn(row.conditions));
  }

  // ------------------------------------------------------------------ orders

  /** Derived names keep the order of the instances: those of the first instances come first. */
  lemma {:induction false} DerivedInOrder(s: seq<Instance>, k: nat)
    requires k <= |s|
    ensures DeriveNames(s[..k]) <= DeriveNames(s)
  {
    if k < |s| {
      DerivedInOrder(s[..|s| - 1], k);
      assert s[..|s| - 1][..k] == s[..k];
    } else {
      assert s[..k] == s;
    }
  }

  /** The bare instances of the first wanted names come first. */
  lemma {:induction false} AddedInOrder(lower: Lower, ws: seq<Wanted>, k: nat, n: nat, seen: set<string>)
    requires k <= n <= |ws|
    ensures Added(lower, ws, k, seen) <= Added(lower, ws, n, seen)
  {
    if k < n { AddedInOrder(lower, ws, k, n - 1, seen); }
  }

  /** A merge keeps the order of the sheet: what its first instances give comes first. */
  lemma {:induction false} MergedInOrder(lower: Lower, sheet: seq<Instance>, prior: seq<Instance>, k: nat)
    requires k <= |sheet|
    ensures Merged(lower, sheet[..k], prior) <= Merged(lower, sheet, prior)
  {
    if k < |sheet| {
      MergedInOrder(lower, sheet[..|sheet| - 1], prior, k);
      assert sheet[..|sheet| - 1][..k] == sheet[..k];
    } else {
      assert sheet[..k] == sheet;
    }
  }

  ghost function KeysIn(ws: seq<Wanted>): seq<string> { seq(|ws|, i requires 0 <= i < |ws| => ws[i].key) }

  lemma {:induction false} PutKeys(ws: seq<Wanted>, key: string, name: string)
    ensures KeysIn(ws) <= KeysIn(Put(ws, key, name))
  {
    if ws != [] && ws[0].key != key {
      PutKeys(ws[1..], key, name);
      assert KeysIn(ws) == [ws[0].key] + KeysIn(ws[1..]);
      assert KeysIn(Put(ws, key, name)) == [ws[0].key] + KeysIn(Put(ws[1..], key, name));
    }
  }

  /** New conditions are added in the order in which their names first come. */
  lemma {:induction false} WantedInOrder(lower: Lower, names: seq<string>, k: nat)
    requires k <= |names|
    ensures KeysIn(WantedNames(lower, names[..k])) <= KeysIn(WantedNames(lower, names))
  {
    if k < |names| {
      var init, name := names[..|names| - 1], Trim(names[|names| - 1]);
      WantedInOrder(lower, init, k);
      assert init[..k] == names[..k];
      if name != "" { PutKeys(WantedNames(lower, init), lower(name), name); }
    } else {
      assert names[..k] == names;
    }
  }
}
