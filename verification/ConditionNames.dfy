/** Name-authoritative writes: what they keep, what they add, and that a name left out stays out. */
module ConditionNames {
  import opened Text
  import opened Sequences
  import opened Conditions
  import opened ConditionRuns

  // ------------------------------------------------------------------ wanted names

  predicate GoodWanted(lower: Lower, w: Wanted) { w.name != "" && Trim(w.name) == w.name && w.key == lower(w.name) }

  predicate AllGoodWanted(lower: Lower, ws: seq<Wanted>) { forall i :: 0 <= i < |ws| ==> GoodWanted(lower, ws[i]) }

  lemma {:induction false} PutGood(lower: Lower, ws: seq<Wanted>, key: string, name: string)
    requires GoodWanted(lower, Wanted(key, name)) && AllGoodWanted(lower, ws)
    ensures AllGoodWanted(lower, Put(ws, key, name))
  {
    if ws != [] { PutGood(lower, ws[1..], key, name); }
  }

  lemma {:induction false} WantedGood(lower: Lower, names: seq<string>)
    ensures AllGoodWanted(lower, WantedNames(lower, names))
  {
    if names != [] {
      WantedGood(lower, names[..|names| - 1]);
      var name := Trim(names[|names| - 1]);
      TrimTwice(names[|names| - 1]);
      if name != "" { PutGood(lower, WantedNames(lower, names[..|names| - 1]), lower(name), name); }
    }
  }

  /** The name at `i` is the last with its key. */
  ghost predicate LastOfKey(lower: Lower, names: seq<string>, i: nat)
    requires i < |names|
  {
    Trim(names[i]) != "" && forall j :: i < j < |names| && Trim(names[j]) != "" ==> Key(lower, names[j]) != Key(lower, names[i])
  }

  /** The wanted spelling of a key is that of the last name with it. */
  ghost predicate SpelledLast(lower: Lower, names: seq<string>, w: Wanted) {
    exists i :: 0 <= i < |names| && LastOfKey(lower, names, i) && w == Wanted(Key(lower, names[i]), Trim(names[i]))
  }

  lemma SpelledEarlier(lower: Lower, names: seq<string>, last: string, w: Wanted)
    requires SpelledLast(lower, names, w) && (Trim(last) == "" || Key(lower, last) != w.key)
    ensures SpelledLast(lower, names + [last], w)
  {
    var all := names + [last];
    var i :| 0 <= i < |names| && LastOfKey(lower, names, i) && w == Wanted(Key(lower, names[i]), Trim(names[i]));
    assert all[i] == names[i];
    forall j | i < j < |all| && Trim(all[j]) != "" ensures Key(lower, all[j]) != Key(lower, all[i]) {
      if j < |names| { assert all[j] == names[j]; }
    }
    assert LastOfKey(lower, all, i);
  }

  lemma SpelledNow(lower: Lower, names: seq<string>, last: string)
    requires Trim(last) != ""
    ensures SpelledLast(lower, names + [last], Wanted(Key(lower, last), Trim(last)))
  {
    assert (names + [last])[|names|] == last && LastOfKey(lower, names + [last], |names|);
  }

  lemma {:induction false} PutIs(ws: seq<Wanted>, key: string, name: string, k: nat)
    requires KeysOnce(ws) && k < |Put(ws, key, name)|
    ensures Put(ws, key, name)[k] == Wanted(key, name) || (Put(ws, key, name)[k] in ws && Put(ws, key, name)[k].key != key)
  {
    if ws != [] {
      if ws[0].key == key {
        if k > 0 { OnceAt(ws, 0, k); }
      } else if k > 0 {
        PutIs(ws[1..], key, name, k - 1);
      }
    }
  }

  lemma {:induction false} WantedSpelling(lower: Lower, names: seq<string>, k: nat)
    requires k < |WantedNames(lower, names)|
    ensures SpelledLast(lower, names, WantedNames(lower, names)[k])
  {
    var init, last := names[..|names| - 1], names[|names| - 1];
    var ws, w := WantedNames(lower, init), WantedNames(lower, names)[k];
    assert names == init + [last];
    if Trim(last) == "" {
      WantedSpelling(lower, init, k);
      SpelledEarlier(lower, init, last, w);
    } else {
      WantedOnce(lower, init);
      PutIs(ws, lower(Trim(last)), Trim(last), k);
      SpelledNow(lower, init, last);
      if w != Wanted(lower(Trim(last)), Trim(last)) {
        var j :| 0 <= j < |ws| && ws[j] == w;
        WantedSpelling(lower, init, j);
        SpelledEarlier(lower, init, last, w);
      }
    }
  }

  // ------------------------------------------------------------------ kept and added

  /** `i` is the first instance of `prior` with its key. */
  ghost predicate FirstOfKey(lower: Lower, prior: seq<Instance>, i: Instance) {
    exists j :: 0 <= j < |prior| && prior[j] == i && forall m :: 0 <= m < j ==> Key(lower, prior[m].name) != Key(lower, i.name)
  }

  lemma FirstStays(lower: Lower, prior: seq<Instance>, last: Instance, i: Instance)
    requires FirstOfKey(lower, prior, i)
    ensures FirstOfKey(lower, prior + [last], i)
  {
    var all := prior + [last];
    var j :| 0 <= j < |prior| && prior[j] == i && forall m :: 0 <= m < j ==> Key(lower, prior[m].name) != Key(lower, i.name);
    assert all[j] == i && forall m :: 0 <= m < j ==> all[m] == prior[m];
  }

  lemma FirstNow(lower: Lower, prior: seq<Instance>, last: Instance)
    requires Key(lower, last.name) !in KeysOf(lower, prior)
    ensures FirstOfKey(lower, prior + [last], last)
  {
    var all := prior + [last];
    assert all[|prior|] == last;
    forall m | 0 <= m < |prior| ensures Key(lower, all[m].name) != Key(lower, last.name) {
      assert all[m] == prior[m] && prior[m] in prior;
    }
  }

  /** Of several prior instances with a key, the first survives. */
  lemma {:induction false} SurvivorsAreFirst(lower: Lower, prior: seq<Instance>, ws: seq<Wanted>, k: nat)
    requires k < |Survivors(lower, prior, ws)|
    ensures FirstOfKey(lower, prior, Survivors(lower, prior, ws)[k])
  {
    var init, last := prior[..|prior| - 1], prior[|prior| - 1];
    var rest := Survivors(lower, init, ws);
    assert prior == init + [last];
    if k < |rest| {
      SurvivorsAreFirst(lower, init, ws, k);
      FirstStays(lower, init, last, rest[k]);
    } else {
      SurvivorsHold(lower, init, ws);
      HasKeyIff(ws, Key(lower, last.name));
      FirstNow(lower, init, last);
    }
  }

  lemma WantedSplit(ws: seq<Wanted>, n: nat)
    requires KeysOnce(ws) && n < |ws|
    ensures ws[..n + 1] == ws[..n] + [ws[n]] && WantedKeys(ws[..n + 1]) == WantedKeys(ws[..n]) + {ws[n].key}
    ensures ws[n].key !in WantedKeys(ws[..n])
  {
    assert ws[..n + 1] == ws[..n] + [ws[n]];
    forall i | 0 <= i < n ensures ws[i].key != ws[n].key { OnceAt(ws, i, n); }
  }

  ghost predicate AllNew(lower: Lower, s: seq<Instance>, seen: set<string>) {
    forall i :: 0 <= i < |s| ==> Bare(lower, s[i]) && Key(lower, s[i].name) !in seen
  }

  /** `kept` and the instances added to it: apart, with the keys of `kept` and `keys`; the added ones bare and new. */
  ghost predicate Completed(lower: Lower, kept: seq<Instance>, added: seq<Instance>, keys: set<string>) {
    && KeysApart(lower, kept + added) && KeysOf(lower, kept + added) == KeysOf(lower, kept) + keys
    && AllNew(lower, added, KeysOf(lower, kept))
  }

  lemma CompleteWith(lower: Lower, kept: seq<Instance>, added: seq<Instance>, keys: set<string>, key: string, i: Instance)
    requires Completed(lower, kept, added, keys) && Bare(lower, i) && Key(lower, i.name) == key
    requires key !in keys && key !in KeysOf(lower, kept)
    ensures Completed(lower, kept, added + [i], keys + {key})
  {
    ApartMore(lower, kept + added, i);
    Assoc(kept, added, [i]);
  }

  lemma CompleteAlready(lower: Lower, kept: seq<Instance>, added: seq<Instance>, keys: set<string>, key: string)
    requires Completed(lower, kept, added, keys) && key in KeysOf(lower, kept)
    ensures Completed(lower, kept, added, keys + {key})
  {
    assert KeysOf(lower, kept) + (keys + {key}) == KeysOf(lower, kept) + keys;
  }

  lemma CompleteStart(lower: Lower, kept: seq<Instance>)
    requires KeysApart(lower, kept)
    ensures Completed(lower, kept, [], {})
  {
    assert kept + [] == kept;
  }

  /** The bare instance of a wanted name. */
  lemma LegacyIsBare(lower: Lower, w: Wanted)
    requires GoodWanted(lower, w)
    ensures Legacy(lower, w.name).Some? && Bare(lower, Legacy(lower, w.name).value)
    ensures Key(lower, Legacy(lower, w.name).value.name) == w.key
  {}

  lemma AddedStep(lower: Lower, kept: seq<Instance>, ws: seq<Wanted>, n: nat, keys: set<string>)
    requires n < |ws| && Completed(lower, kept, Added(lower, ws, n, KeysOf(lower, kept)), keys)
    requires GoodWanted(lower, ws[n]) && ws[n].key !in keys
    ensures Completed(lower, kept, Added(lower, ws, n + 1, KeysOf(lower, kept)), keys + {ws[n].key})
  {
    LegacyIsBare(lower, ws[n]);
    if ws[n].key in KeysOf(lower, kept) {
      CompleteAlready(lower, kept, Added(lower, ws, n, KeysOf(lower, kept)), keys, ws[n].key);
    } else {
      CompleteWith(lower, kept, Added(lower, ws, n, KeysOf(lower, kept)), keys, ws[n].key, Legacy(lower, ws[n].name).value);
    }
  }

  /** Added instances are bare, for exactly the wanted keys that had none. */
  lemma {:induction false} AddedHold(lower: Lower, kept: seq<Instance>, ws: seq<Wanted>, n: nat)
    requires KeysApart(lower, kept) && KeysOnce(ws) && n <= |ws| && AllGoodWanted(lower, ws)
    ensures Completed(lower, kept, Added(lower, ws, n, KeysOf(lower, kept)), WantedKeys(ws[..n]))
  {
    if n == 0 {
      CompleteStart(lower, kept);
      assert WantedKeys(ws[..0]) == {};
    } else {
      AddedHold(lower, kept, ws, n - 1);
      WantedSplit(ws, n - 1);
      AddedStep(lower, kept, ws, n - 1, WantedKeys(ws[..n - 1]));
    }
  }

  // ------------------------------------------------------------------ the whole write

  lemma {:induction false} ApartSize(lower: Lower, s: seq<Instance>)
    requires KeysApart(lower, s)
    ensures |KeysOf(lower, s)| == |s|
  {
    if s != [] {
      SplitLast(s);
      ApartSize(lower, s[..|s| - 1]);
      KeysGrow(lower, s[..|s| - 1], s[|s| - 1]);
    }
  }

  lemma {:induction false} ApartPrefix(lower: Lower, s: seq<Instance>, k: nat)
    requires KeysApart(lower, s) && k <= |s|
    ensures KeysApart(lower, s[..k]) && KeysOf(lower, s[..k]) <= KeysOf(lower, s)
    decreases |s|
  {
    if k < |s| {
      assert s[..|s| - 1][..k] == s[..k];
      ApartPrefix(lower, s[..|s| - 1], k);
    } else {
      assert s[..k] == s;
    }
  }

  ghost predicate AllFirst(lower: Lower, s: seq<Instance>, prior: seq<Instance>) {
    forall i :: 0 <= i < |s| ==> FirstOfKey(lower, prior, s[i])
  }

  /** The survivors of `prior`: unchanged, in prior order, the first of each wanted key that it has. */
  ghost predicate Kept(lower: Lower, s: seq<Instance>, prior: seq<Instance>, keys: set<string>) {
    Subsequence(s, prior) && AllFirst(lower, s, prior) && KeysApart(lower, s) && KeysOf(lower, s) == KeysOf(lower, prior) * keys
  }

  lemma SurvivorsAreKept(lower: Lower, prior: seq<Instance>, ws: seq<Wanted>)
    ensures Kept(lower, Survivors(lower, prior, ws), prior, WantedKeys(ws))
  {
    var kept := Survivors(lower, prior, ws);
    SurvivorsHold(lower, prior, ws);
    forall i | 0 <= i < |kept| ensures FirstOfKey(lower, prior, kept[i]) { SurvivorsAreFirst(lower, prior, ws, i); }
  }

  lemma AllAsked(lower: Lower, names: seq<string>, prior: seq<Instance>, kept: seq<Instance>)
    requires Kept(lower, kept, prior, WantedKeys(WantedNames(lower, names)))
    ensures var ws := WantedNames(lower, names);
      Completed(lower, kept, Added(lower, ws, |ws|, KeysOf(lower, kept)), WantedKeys(ws))
  {
    var ws := WantedNames(lower, names);
    WantedOnce(lower, names);
    WantedGood(lower, names);
    assert ws[..|ws|] == ws;
    AddedHold(lower, kept, ws, |ws|);
  }

  /** The cap cuts the end of a list whose keys are apart. */
  lemma CapKeeps(lower: Lower, all: seq<Instance>)
    requires KeysApart(lower, all)
    ensures KeysApart(lower, Bounded(all)) && KeysOf(lower, Bounded(all)) <= KeysOf(lower, all)
    ensures |KeysOf(lower, all)| <= MAX_INSTANCES ==> Bounded(all) == all
  {
    ApartSize(lower, all);
    if |all| > MAX_INSTANCES { ApartPrefix(lower, all, MAX_INSTANCES); }
  }

  /**
   * A write by names, before the cap of 50: the prior instances that survive, unchanged, in prior order and the first of
   * each key; then bare ones, for keys prior had not; together one for each name asked for.
   */
  lemma ReconciledHolds(lower: Lower, names: seq<string>, prior: seq<Instance>)
    returns (kept: seq<Instance>, added: seq<Instance>)
    ensures Reconciled(lower, names, prior) == Bounded(kept + added)
    ensures Kept(lower, kept, prior, WantedKeys(WantedNames(lower, names)))
    ensures AllNew(lower, added, KeysOf(lower, kept))
    ensures KeysApart(lower, kept + added) && KeysOf(lower, kept + added) == WantedKeys(WantedNames(lower, names))
  {
    var ws := WantedNames(lower, names);
    kept := Survivors(lower, prior, ws);
    added := Added(lower, ws, |ws|, KeysOf(lower, kept));
    SurvivorsAreKept(lower, prior, ws);
    AllAsked(lower, names, prior, kept);
  }

  /** With the cap: keys apart, all asked for; and with at most 50 different names, one for each of them. */
  lemma ReconciledKeys(lower: Lower, names: seq<string>, prior: seq<Instance>)
    ensures var r, keys := Reconciled(lower, names, prior), WantedKeys(WantedNames(lower, names));
      KeysApart(lower, r) && KeysOf(lower, r) <= keys && (|keys| <= MAX_INSTANCES ==> KeysOf(lower, r) == keys)
  {
    var kept, added := ReconciledHolds(lower, names, prior);
    CapKeeps(lower, kept + added);
  }
}
