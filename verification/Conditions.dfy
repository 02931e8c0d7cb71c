/** The two condition columns of a combatant or a sheet (apps/server/src/common/conditions.ts). */
module Conditions {
  import opened Text

  datatype Timing = StartOfTurn | EndOfTurn | NoTiming

  datatype Instance = Instance(
    id: string, name: string, ruleEntryId: Option<int>, source: Option<string>, sourceCombatantId: Option<int>,
    durationRounds: Option<int>, roundsRemaining: Option<int>, timing: Timing, saveTiming: Timing, saveDc: Option<int>,
    saveAbility: Option<string>, isConcentration: bool, stacks: int, notes: string, custom: bool)

  /** A stored JSON text: missing, unreadable, or the value it encodes. */
  datatype Column<T> = Missing | Corrupt | Stored(value: T)

  /** Both columns of one row. */
  datatype Row = Row(conditions: Column<seq<string>>, instances: Column<seq<Instance>>)

  const MAX_INSTANCES := 50

  /** `toLowerCase`. */
  type Lower = string -> string

  // ------------------------------------------------------------------ instances

  predicate AtMost(s: Option<string>, n: nat) { s.Some? ==> |s.value| <= n }

  predicate PositiveIn(n: Option<int>) { n.Some? ==> n.value > 0 }

  predicate CountIn(n: Option<int>) { n.Some? ==> n.value >= 0 }

  /** The schema of a stored instance. */
  predicate Valid(i: Instance) {
    && 1 <= |i.id| <= 40 && 1 <= |i.name| <= 120 && AtMost(i.source, 160) && AtMost(i.saveAbility, 24) && |i.notes| <= 300
    && PositiveIn(i.ruleEntryId) && PositiveIn(i.sourceCombatantId) && CountIn(i.durationRounds)
    && CountIn(i.roundsRemaining) && 1 <= i.stacks <= 99
  }

  predicate AllValid(s: seq<Instance>) { forall i :: 0 <= i < |s| ==> Valid(s[i]) }

  function Key(lower: Lower, name: string): string { lower(Trim(name)) }

  predicate SlugChar(c: char) { IsDigit(c) || 'a' <= c <= 'z' }

  /** Every run of other characters becomes one underscore. */
  function Underscored(s: string, inRun: bool): string {
    if s == "" then ""
    else if SlugChar(s[0]) then [s[0]] + Underscored(s[1..], false)
    else (if inRun then "" else "_") + Underscored(s[1..], true)
  }

  function Slug(lowered: string): string {
    var s := Underscored(lowered, false);
    var t := if s != "" && s[0] == '_' then s[1..] else s;
    var u := if t != "" && t[|t| - 1] == '_' then t[..|t| - 1] else t;
    if |u| <= 33 then u else u[..33]
  }

  function LegacyId(lower: Lower, name: string): (id: string)
    ensures 1 <= |id| <= 40
  {
    var slug := Slug(lower(name));
    "legacy_" + (if slug == "" then "condition" else slug)
  }

  /** A bare instance for a condition that only existed as a name; none for a blank one. */
  function Legacy(lower: Lower, raw: string): Option<Instance> {
    var name := Trim(raw);
    if name == "" then None
    else Some(Instance(LegacyId(lower, name), name, None, None, None, None, None, NoTiming, NoTiming, None, None, false, 1, "", false))
  }

  /** `parseConditionInstancesText`: one bad instance and the whole list reads as empty. */
  function ParseInstances(c: Column<seq<Instance>>): seq<Instance> {
    if c.Stored? && AllValid(c.value) then c.value else []
  }

  function NamesIn(c: Column<seq<string>>): seq<string> { if c.Stored? then c.value else [] }

  /** `deriveConditionNames`: trimmed names, each once, in order of first appearance. */
  function DeriveNames(s: seq<Instance>): seq<string> {
    if s == [] then []
    else
      var rest := DeriveNames(s[..|s| - 1]);
      var name := Trim(s[|s| - 1].name);
      if name == "" || name in rest then rest else rest + [name]
  }

  function KeysOf(lower: Lower, s: seq<Instance>): set<string> { set i | i in s :: Key(lower, i.name) }

  function Bounded(s: seq<Instance>): (r: seq<Instance>)
    ensures |r| <= MAX_INSTANCES
  {
    if |s| <= MAX_INSTANCES then s else s[..MAX_INSTANCES]
  }

  // ------------------------------------------------------------------ reconciling

  datatype Wanted = Wanted(key: string, name: string)

  predicate HasKey(ws: seq<Wanted>, key: string) { exists i :: 0 <= i < |ws| && ws[i].key == key }

  /** `Map.set`: a key keeps its place and takes the new name. */
  function Put(ws: seq<Wanted>, key: string, name: string): seq<Wanted> {
    if ws == [] then [Wanted(key, name)]
    else if ws[0].key == key then [Wanted(key, name)] + ws[1..]
    else [ws[0]] + Put(ws[1..], key, name)
  }

  function WantedNames(lower: Lower, names: seq<string>): seq<Wanted> {
    if names == [] then []
    else
      var rest := WantedNames(lower, names[..|names| - 1]);
      var name := Trim(names[|names| - 1]);
      if name == "" then rest else Put(rest, lower(name), name)
  }

  /** The prior instances that stay: the first of each wanted key. */
  function Survivors(lower: Lower, prior: seq<Instance>, ws: seq<Wanted>): seq<Instance> {
    if prior == [] then []
    else
      var rest := Survivors(lower, prior[..|prior| - 1], ws);
      var last := prior[|prior| - 1];
      if !HasKey(ws, Key(lower, last.name)) || Key(lower, last.name) in KeysOf(lower, rest) then rest else rest + [last]
  }

  /** Bare instances for those of the first `n` wanted names that have none. */
  function Added(lower: Lower, ws: seq<Wanted>, n: nat, seen: set<string>): seq<Instance>
    requires n <= |ws|
  {
    if n == 0 then []
    else
      var rest := Added(lower, ws, n - 1, seen);
      var last := ws[n - 1];
      if last.key in seen || Legacy(lower, last.name) == None then rest else rest + [Legacy(lower, last.name).value]
  }

  function Reconciled(lower: Lower, names: seq<string>, prior: seq<Instance>): seq<Instance> {
    var ws := WantedNames(lower, names);
    var kept := Survivors(lower, prior, ws);
    Bounded(kept + Added(lower, ws, |ws|, KeysOf(lower, kept)))
  }

  // ------------------------------------------------------------------ write sets

  /** Both columns from the same instances. */
  function WriteBoth(s: seq<Instance>): Row { Row(Stored(DeriveNames(s)), Stored(s)) }

  function WriteFromNames(lower: Lower, names: seq<string>, prior: Column<seq<Instance>>): Row {
    WriteBoth(Reconciled(lower, names, ParseInstances(prior)))
  }

  function WriteFromInstances(s: seq<Instance>): Row { WriteBoth(Bounded(s)) }

  /** The last of `prior` with a key, as a map built from the list holds it. */
  function LastWith(lower: Lower, prior: seq<Instance>, key: string): Option<Instance> {
    if prior == [] then None
    else if Key(lower, prior[|prior| - 1].name) == key then Some(prior[|prior| - 1])
    else LastWith(lower, prior[..|prior| - 1], key)
  }

  function MergeOne(lower: Lower, sheet: Instance, prior: seq<Instance>): Instance {
    match LastWith(lower, prior, Key(lower, sheet.name))
    case None => sheet
    case Some(p) => p.(stacks := sheet.stacks)
  }

  function Merged(lower: Lower, sheet: seq<Instance>, prior: seq<Instance>): seq<Instance> {
    if sheet == [] then []
    else
      var rest := Merged(lower, sheet[..|sheet| - 1], prior);
      var last := sheet[|sheet| - 1];
      if Key(lower, last.name) == "" || Key(lower, last.name) in KeysOf(lower, sheet[..|sheet| - 1]) then rest
      else rest + [MergeOne(lower, last, prior)]
  }

  function WriteMergingSheet(lower: Lower, sheet: seq<Instance>, prior: Column<seq<Instance>>): Row {
    WriteFromInstances(Merged(lower, sheet, ParseInstances(prior)))
  }

  /** An instance without the fields that only mean something inside an encounter. */
  function ToSheet(i: Instance): Instance {
    i.(durationRounds := None, roundsRemaining := None, timing := NoTiming, saveTiming := NoTiming, saveDc := None,
       saveAbility := None, sourceCombatantId := None)
  }

  function AllToSheet(s: seq<Instance>): (r: seq<Instance>)
    ensures |r| == |s|
  {
    seq(|s|, i requires 0 <= i < |s| => ToSheet(s[i]))
  }

  function SheetFromInstances(s: seq<Instance>): Row { WriteFromInstances(AllToSheet(s)) }

  function SheetFromNames(lower: Lower, names: seq<string>, prior: Column<seq<Instance>>): Row {
    SheetFromInstances(Reconciled(lower, names, ParseInstances(prior)))
  }

  // ------------------------------------------------------------------ reading

  /** The names that have no instance yet, as bare ones. */
  function WithNames(lower: Lower, instances: seq<Instance>, names: seq<string>): seq<Instance> {
    if names == [] then instances
    else
      var rest := WithNames(lower, instances, names[..|names| - 1]);
      var name := Trim(names[|names| - 1]);
      if name == "" || lower(name) in KeysOf(lower, rest) then rest else rest + [Legacy(lower, name).value]
  }

  function ReadInstances(lower: Lower, row: Row): seq<Instance> {
    Bounded(WithNames(lower, ParseInstances(row.instances), NamesIn(row.conditions)))
  }

  // ------------------------------------------------------------------ the loops

  lemma KeysGrow(lower: Lower, s: seq<Instance>, i: Instance)
    ensures KeysOf(lower, s + [i]) == KeysOf(lower, s) + {Key(lower, i.name)}
  {}

  lemma LegacyKey(lower: Lower, name: string)
    requires Trim(name) != ""
    ensures Legacy(lower, name).Some? && Key(lower, Legacy(lower, name).value.name) == Key(lower, name)
  {
    TrimTwice(name);
  }

  /** The keys a list of wanted names asks for. */
  ghost function WantedKeys(ws: seq<Wanted>): set<string> { set w | w in ws :: w.key }

  /** Each key stands once. */
  ghost predicate KeysOnce(ws: seq<Wanted>) {
    ws == [] || (ws[0].key !in WantedKeys(ws[1..]) && KeysOnce(ws[1..]))
  }

  lemma {:induction false} OnceAt(ws: seq<Wanted>, i: nat, j: nat)
    requires KeysOnce(ws) && i < j < |ws|
    ensures ws[i].key != ws[j].key
  {
    if i == 0 { assert ws[j] in ws[1..]; } else { OnceAt(ws[1..], i - 1, j - 1); }
  }

  lemma HasKeyIff(ws: seq<Wanted>, key: string)
    ensures HasKey(ws, key) <==> key in WantedKeys(ws)
  {
    if key in WantedKeys(ws) {
      var i :| 0 <= i < |ws| && ws[i].key == key;
    }
  }

  lemma WantedKeysOf(w: Wanted, rest: seq<Wanted>)
    ensures WantedKeys([w] + rest) == {w.key} + WantedKeys(rest)
  {}

  lemma {:induction false} PutHolds(ws: seq<Wanted>, key: string, name: string)
    requires KeysOnce(ws)
    ensures KeysOnce(Put(ws, key, name)) && WantedKeys(Put(ws, key, name)) == WantedKeys(ws) + {key}
  {
    if ws == [] {
      WantedKeysOf(Wanted(key, name), []);
      assert Put(ws, key, name)[1..] == [] && [Wanted(key, name)] == [Wanted(key, name)] + [];
    } else {
      assert ws == [ws[0]] + ws[1..];
      WantedKeysOf(ws[0], ws[1..]);
      if ws[0].key == key {
        WantedKeysOf(Wanted(key, name), ws[1..]);
        assert Put(ws, key, name)[1..] == ws[1..];
      } else {
        PutHolds(ws[1..], key, name);
        WantedKeysOf(ws[0], Put(ws[1..], key, name));
        assert Put(ws, key, name)[1..] == Put(ws[1..], key, name);
      }
    }
  }

  lemma {:induction false} WantedOnce(lower: Lower, names: seq<string>)
    ensures KeysOnce(WantedNames(lower, names))
  {
    if names != [] {
      WantedOnce(lower, names[..|names| - 1]);
      var name := Trim(names[|names| - 1]);
      if name != "" { PutHolds(WantedNames(lower, names[..|names| - 1]), lower(name), name); }
    }
  }

  method CollectWanted(lower: Lower, names: seq<string>) returns (wanted: seq<Wanted>)
    ensures wanted == WantedNames(lower, names)
  {
    wanted := [];
    for i := 0 to |names|
      invariant wanted == WantedNames(lower, names[..i])
    {
      assert names[..i + 1][..i] == names[..i];
      var name := Trim(names[i]);
      if name != "" { wanted := Put(wanted, lower(name), name); }
    }
    assert names[..|names|] == names;
  }

  method ReconcileInstances(lower: Lower, names: seq<string>, prior: seq<Instance>) returns (r: seq<Instance>)
    ensures r == Reconciled(lower, names, prior)
  {
    var wanted := CollectWanted(lower, names);
    WantedOnce(lower, names);
    var out, seen := KeepSurvivors(lower, prior, wanted);
    out := AddMissing(lower, wanted, out, seen);
    r := Bounded(out);
  }

  method KeepSurvivors(lower: Lower, prior: seq<Instance>, wanted: seq<Wanted>) returns (out: seq<Instance>, seen: set<string>)
    ensures out == Survivors(lower, prior, wanted) && seen == KeysOf(lower, out)
  {
    out, seen := [], {};
    for i := 0 to |prior|
      invariant out == Survivors(lower, prior[..i], wanted) && seen == KeysOf(lower, out)
    {
      assert prior[..i + 1][..i] == prior[..i];
      var key := Key(lower, prior[i].name);
      if HasKey(wanted, key) && key !in seen {
        KeysGrow(lower, out, prior[i]);
        seen := seen + {key};
        out := out + [prior[i]];
      }
    }
    assert prior[..|prior|] == prior;
  }

  method AddMissing(lower: Lower, wanted: seq<Wanted>, kept: seq<Instance>, keys: set<string>) returns (out: seq<Instance>)
    requires KeysOnce(wanted)
    ensures out == kept + Added(lower, wanted, |wanted|, keys)
  {
    var seen := keys;
    out := kept;
    for i := 0 to |wanted|
      invariant out == kept + Added(lower, wanted, i, keys)
      invariant forall j :: i <= j < |wanted| ==> (wanted[j].key in seen <==> wanted[j].key in keys)
    {
      if wanted[i].key !in seen {
        var legacy := Legacy(lower, wanted[i].name);
        if legacy.Some? {
          forall j | i < j < |wanted| ensures wanted[j].key != wanted[i].key { OnceAt(wanted, i, j); }
          seen := seen + {wanted[i].key};
          out := out + [legacy.value];
        }
      }
    }
  }

  method MergeSheetStacks(lower: Lower, sheet: seq<Instance>, prior: Column<seq<Instance>>) returns (r: Row)
    ensures r == WriteMergingSheet(lower, sheet, prior)
  {
    var known := ParseInstances(prior);
    var merged: seq<Instance>, seen: set<string> := [], {};
    for i := 0 to |sheet|
      invariant merged == Merged(lower, sheet[..i], known)
      invariant seen == KeysOf(lower, sheet[..i]) - {""}
    {
      assert sheet[..i + 1][..i] == sheet[..i] && sheet[..i + 1] == sheet[..i] + [sheet[i]];
      KeysGrow(lower, sheet[..i], sheet[i]);
      var key := Key(lower, sheet[i].name);
      if key != "" && key !in seen {
        seen := seen + {key};
        merged := merged + [MergeOne(lower, sheet[i], known)];
      }
    }
    assert sheet[..|sheet|] == sheet;
    r := WriteFromInstances(merged);
  }

  /** One stored name read. */
  lemma ReadStep(lower: Lower, parsed: seq<Instance>, names: seq<string>, i: nat)
    requires i < |names|
    ensures var rest := WithNames(lower, parsed, names[..i]);
      var name := Trim(names[i]);
      var isNew := name != "" && lower(name) !in KeysOf(lower, rest);
      && (!isNew ==> WithNames(lower, parsed, names[..i + 1]) == rest)
      && (isNew ==> Legacy(lower, name).Some?)
      && (isNew ==> WithNames(lower, parsed, names[..i + 1]) == rest + [Legacy(lower, name).value])
      && (isNew ==> KeysOf(lower, rest + [Legacy(lower, name).value]) == KeysOf(lower, rest) + {lower(name)})
  {
    assert names[..i + 1][..i] == names[..i];
    var name := Trim(names[i]);
    TrimTwice(names[i]);
    if name != "" {
      LegacyKey(lower, name);
      KeysGrow(lower, WithNames(lower, parsed, names[..i]), Legacy(lower, name).value);
    }
  }

  method ReadBoth(lower: Lower, row: Row) returns (r: seq<Instance>)
    ensures r == ReadInstances(lower, row)
  {
    var parsed := ParseInstances(row.instances);
    var names := NamesIn(row.conditions);
    var instances, seen := parsed, KeysOf(lower, parsed);
    for i := 0 to |names|
      invariant instances == WithNames(lower, parsed, names[..i]) && seen == KeysOf(lower, instances)
    {
      ReadStep(lower, parsed, names, i);
      var name := Trim(names[i]);
      if name != "" && lower(name) !in seen {
        var legacy := Legacy(lower, name);
        seen := seen + {lower(name)};
        instances := instances + [legacy.value];
      }
    }
    assert names[..|names|] == names;
    r := Bounded(instances);
  }
}
