/** `deepJsonEqual` (apps/server/src/common/json.ts). */
module DeepJson {
  import opened Sorting
  import opened Json
  import opened CanonicalJson

  const PROTO := "__proto__"

  /** `acc[key] = value` on a plain object: the key `__proto__` sets the prototype and leaves no field. */
  function Assigned(fields: seq<Field>): seq<Field> {
    if fields == [] then []
    else if fields[0].key == PROTO then Assigned(fields[1..])
    else [fields[0]] + Assigned(fields[1..])
  }

  /** `canonicalizeForCompare`. */
  function Compared(v: Value): Value {
    match v
    case Arr(items) => Arr(ComparedItems(items))
    case Obj(fields) => Obj(OwnOrder(Assigned(SortBy(ByKey(), ComparedFields(fields)))))
    case _ => v
  }

  function ComparedItems(items: seq<Value>): seq<Value> {
    if items == [] then [] else [Compared(items[0])] + ComparedItems(items[1..])
  }

  function ComparedFields(fields: seq<Field>): seq<Field> {
    if fields == [] then [] else [Field(fields[0].key, Compared(fields[0].value))] + ComparedFields(fields[1..])
  }

  predicate DeepJsonEqual(a: Value, b: Value) { Stringify(Compared(a)) == Stringify(Compared(b)) }

  // -------------------------------------------------- what the comparison leaves out

  /** The value without its `__proto__` fields, at every depth. */
  function Strip(v: Value): Value {
    match v
    case Arr(items) => Arr(StripItems(items))
    case Obj(fields) => Obj(Assigned(StripValues(fields)))
    case _ => v
  }

  function StripItems(items: seq<Value>): (r: seq<Value>)
    ensures |r| == |items|
  {
    if items == [] then [] else [Strip(items[0])] + StripItems(items[1..])
  }

  function StripValues(fields: seq<Field>): (r: seq<Field>)
    ensures |r| == |fields|
  {
    if fields == [] then [] else [Field(fields[0].key, Strip(fields[0].value))] + StripValues(fields[1..])
  }

  /** No field at any depth is named `__proto__`. */
  predicate NoProto(v: Value) {
    match v
    case Arr(items) => forall i :: 0 <= i < |items| ==> NoProto(items[i])
    case Obj(fields) => forall i :: 0 <= i < |fields| ==> fields[i].key != PROTO && NoProto(fields[i].value)
    case _ => true
  }

  lemma {:induction false} StripValuesAt(fields: seq<Field>, i: nat)
    requires i < |fields|
    ensures StripValues(fields)[i] == Field(fields[i].key, Strip(fields[i].value))
  {
    if i > 0 { StripValuesAt(fields[1..], i - 1); }
  }

  lemma {:induction false} StripItemsAt(items: seq<Value>, i: nat)
    requires i < |items|
    ensures StripItems(items)[i] == Strip(items[i])
  {
    if i > 0 { StripItemsAt(items[1..], i - 1); }
  }

  // ------------------------------------------------------- leaving out before or after

  lemma {:induction false} AssignedElements(s: seq<Field>)
    ensures forall f :: f in Elements(Assigned(s)) <==> f in Elements(s) && f.key != PROTO
  {
    if s != [] {
      AssignedElements(s[1..]);
      ElementsSplit(s);
      ElementsOf(s[0], Assigned(s[1..]));
    }
  }

  lemma {:induction false} AssignedSorted(less: (Field, Field) -> bool, s: seq<Field>)
    requires SortedBy(less, s)
    ensures SortedBy(less, Assigned(s))
  {
    if s != [] {
      AssignedSorted(less, s[1..]);
      AssignedElements(s[1..]);
      BelowBySet(less, s[0], s[1..]);
      BelowBySet(less, s[0], Assigned(s[1..]));
      if s[0].key != PROTO { assert Assigned(s)[1..] == Assigned(s[1..]); }
    }
  }

  lemma {:induction false} AssignedDistinct(s: seq<Field>)
    requires Distinct(s)
    ensures Distinct(Assigned(s))
  {
    if s != [] {
      AssignedDistinct(s[1..]);
      AssignedElements(s[1..]);
      assert s[0] !in Elements(s[1..]);
      assert s[0] !in Elements(Assigned(s[1..]));
      if s[0].key != PROTO { assert Assigned(s)[1..] == Assigned(s[1..]); }
    }
  }

  /** Leaving fields out of the sorted list is sorting what is left. */
  lemma AssignedAfterSort(x: seq<Field>)
    requires Distinct(x) && KeyedApart(Elements(x))
    ensures Assigned(SortBy(ByKey(), x)) == SortBy(ByKey(), Assigned(x))
  {
    ByKeyIsTotal(Elements(x));
    SortSorted(ByKey(), x, Elements(x));
    SortElements(ByKey(), x);
    AssignedSorted(ByKey(), SortBy(ByKey(), x));
    AssignedElements(SortBy(ByKey(), x));
    AssignedElements(x);
    AssignedDistinct(x);
    SortSorted(ByKey(), Assigned(x), Elements(x));
    SortElements(ByKey(), Assigned(x));
    SortedIsUnique(ByKey(), Assigned(SortBy(ByKey(), x)), SortBy(ByKey(), Assigned(x)), Elements(x));
  }

  lemma {:induction false} AssignedWalk(s: seq<Field>)
    ensures Assigned(WalkFields(s)) == WalkFields(Assigned(s))
  {
    if s != [] {
      AssignedWalk(s[1..]);
      assert WalkFields(s)[1..] == WalkFields(s[1..]);
      if s[0].key != PROTO { assert Assigned(s)[1..] == Assigned(s[1..]); }
    }
  }

  lemma StripKeepsKeys(fields: seq<Field>)
    requires DistinctKeys(fields)
    ensures DistinctKeys(StripValues(fields))
  {
    forall i, j | 0 <= i < j < |fields| ensures StripValues(fields)[i].key != StripValues(fields)[j].key {
      StripValuesAt(fields, i);
      StripValuesAt(fields, j);
    }
  }

  /** What is compared is the canonical form of the stripped value. */
  lemma {:induction false} ComparedIsStripped(v: Value)
    requires KeysOnce(v)
    ensures Compared(v) == Walk(Strip(v))
    decreases v, 1
  {
    match v
    case Arr(items) => ComparedItemsAreStripped(items);
    case Obj(fields) =>
      ComparedFieldsAreStripped(fields);
      var s := StripValues(fields);
      StripKeepsKeys(fields);
      WalkFieldsApart(s);
      WalkFieldsDistinct(s);
      AssignedAfterSort(WalkFields(s));
      AssignedWalk(s);
    case _ =>
  }

  lemma {:induction false} ComparedItemsAreStripped(items: seq<Value>)
    requires forall i :: 0 <= i < |items| ==> KeysOnce(items[i])
    ensures ComparedItems(items) == WalkItems(StripItems(items))
    decreases items, 0
  {
    if items != [] {
      ComparedIsStripped(items[0]);
      ComparedItemsAreStripped(items[1..]);
      assert StripItems(items)[1..] == StripItems(items[1..]);
    }
  }

  lemma {:induction false} ComparedFieldsAreStripped(fields: seq<Field>)
    requires forall i :: 0 <= i < |fields| ==> KeysOnce(fields[i].value)
    ensures ComparedFields(fields) == WalkFields(StripValues(fields))
    decreases fields, 0
  {
    if fields != [] {
      ComparedIsStripped(fields[0].value);
      ComparedFieldsAreStripped(fields[1..]);
      assert StripValues(fields)[1..] == StripValues(fields[1..]);
    }
  }

  // ------------------------------------------------------------------ stripped values

  lemma InStripped(fields: seq<Field>, f: Field) returns (i: nat)
    requires f in Elements(Assigned(StripValues(fields)))
    ensures i < |fields| && f == Field(fields[i].key, Strip(fields[i].value)) && f.key != PROTO
  {
    AssignedElements(StripValues(fields));
    i :| 0 <= i < |fields| && StripValues(fields)[i] == f;
    StripValuesAt(fields, i);
  }

  lemma AtStripped(fields: seq<Field>, i: nat)
    requires i < |fields| && fields[i].key != PROTO
    ensures Field(fields[i].key, Strip(fields[i].value)) in Elements(Assigned(StripValues(fields)))
  {
    AssignedElements(StripValues(fields));
    StripValuesAt(fields, i);
    assert StripValues(fields)[i] in Elements(StripValues(fields));
  }

  lemma {:induction false} AssignedKeys(s: seq<Field>)
    requires DistinctKeys(s)
    ensures DistinctKeys(Assigned(s))
  {
    if s != [] {
      assert forall i :: 0 <= i < |s[1..]| ==> s[1..][i] == s[i + 1];
      AssignedKeys(s[1..]);
      AssignedElements(s[1..]);
      var rest := Assigned(s[1..]);
      forall i | 0 <= i < |rest| ensures rest[i].key != s[0].key {
        assert rest[i] in Elements(rest);
        assert rest[i] in Elements(s[1..]);
      }
      if s[0].key != PROTO { assert Assigned(s)[1..] == rest; }
    }
  }

  lemma {:induction false} StripKeeps(v: Value)
    ensures Printable(v) ==> Printable(Strip(v))
    ensures KeysOnce(v) ==> KeysOnce(Strip(v))
    decreases v
  {
    match v
    case Arr(items) =>
      forall i | 0 <= i < |items|
        ensures StripItems(items)[i] == Strip(items[i])
        ensures (Printable(items[i]) ==> Printable(Strip(items[i]))) && (KeysOnce(items[i]) ==> KeysOnce(Strip(items[i])))
      {
        StripKeeps(items[i]);
        StripItemsAt(items, i);
      }
    case Obj(fields) =>
      var s := Assigned(StripValues(fields));
      if KeysOnce(v) {
        StripKeepsKeys(fields);
        AssignedKeys(StripValues(fields));
      }
      forall k | 0 <= k < |s| ensures (Printable(v) ==> Printable(s[k].value)) && (KeysOnce(v) ==> KeysOnce(s[k].value)) {
        assert s[k] in Elements(s);
        var i := InStripped(fields, s[k]);
        StripKeeps(fields[i].value);
      }
    case _ =>
  }

  lemma StrippedKeys(fields: seq<Field>, key: string)
    ensures key in KeysOf(Assigned(StripValues(fields))) <==> key in KeysOf(fields) && key != PROTO
  {
    var s := Assigned(StripValues(fields));
    if key in KeysOf(s) {
      var k :| 0 <= k < |s| && s[k].key == key;
      assert s[k] in Elements(s);
      var i := InStripped(fields, s[k]);
      assert fields[i] in fields;
    }
    if key in KeysOf(fields) && key != PROTO {
      var i :| 0 <= i < |fields| && fields[i].key == key;
      AtStripped(fields, i);
    }
  }

  /** Leaving out `__proto__` keeps equality but for key order. */
  lemma {:induction false} StripKeepsSame(a: Value, b: Value)
    requires Same(a, b)
    ensures Same(Strip(a), Strip(b))
    decreases a
  {
    match a
    case Arr(items) =>
      forall i | 0 <= i < |items| ensures Same(StripItems(items)[i], StripItems(b.items)[i]) {
        StripItemsAt(items, i);
        StripItemsAt(b.items, i);
        StripKeepsSame(items[i], b.items[i]);
      }
    case Obj(fields) =>
      var s, t := Assigned(StripValues(fields)), Assigned(StripValues(b.fields));
      forall key ensures key in KeysOf(s) <==> key in KeysOf(t) {
        StrippedKeys(fields, key);
        StrippedKeys(b.fields, key);
      }
      forall k, l | 0 <= k < |s| && 0 <= l < |t| && s[k].key == t[l].key ensures Same(s[k].value, t[l].value) {
        assert s[k] in Elements(s) && t[l] in Elements(t);
        var i := InStripped(fields, s[k]);
        var j := InStripped(b.fields, t[l]);
        StripKeepsSame(fields[i].value, b.fields[j].value);
      }
    case _ =>
  }

  lemma {:induction false} StripOfNoProto(v: Value)
    requires NoProto(v)
    ensures Strip(v) == v
    decreases v, 1
  {
    match v
    case Arr(items) => StripItemsOfNoProto(items);
    case Obj(fields) => StripFieldsOfNoProto(fields);
    case _ =>
  }

  lemma {:induction false} StripItemsOfNoProto(items: seq<Value>)
    requires forall i :: 0 <= i < |items| ==> NoProto(items[i])
    ensures StripItems(items) == items
    decreases items, 0
  {
    if items != [] {
      StripOfNoProto(items[0]);
      StripItemsOfNoProto(items[1..]);
      assert items == [items[0]] + items[1..];
    }
  }

  lemma {:induction false} StripFieldsOfNoProto(fields: seq<Field>)
    requires forall i :: 0 <= i < |fields| ==> fields[i].key != PROTO && NoProto(fields[i].value)
    ensures Assigned(StripValues(fields)) == fields
    decreases fields, 0
  {
    if fields != [] {
      StripOfNoProto(fields[0].value);
      StripFieldsOfNoProto(fields[1..]);
      assert fields == [fields[0]] + fields[1..] && StripValues(fields)[1..] == StripValues(fields[1..]);
    }
  }

  lemma {:induction false} StripHasNoProto(v: Value)
    ensures NoProto(Strip(v))
    decreases v
  {
    match v
    case Arr(items) =>
      forall i | 0 <= i < |items| ensures NoProto(StripItems(items)[i]) {
        StripItemsAt(items, i);
        StripHasNoProto(items[i]);
      }
    case Obj(fields) =>
      var s := Assigned(StripValues(fields));
      forall k | 0 <= k < |s| ensures s[k].key != PROTO && NoProto(s[k].value) {
        assert s[k] in Elements(s);
        var i := InStripped(fields, s[k]);
        StripHasNoProto(fields[i].value);
      }
    case _ =>
  }

  /** A value equals its stripped self, but for key order, only when there was nothing to strip. */
  lemma {:induction false} SameAsStripped(v: Value)
    requires Same(v, Strip(v))
    ensures NoProto(v)
    decreases v
  {
    match v
    case Arr(items) =>
      forall i | 0 <= i < |items| ensures NoProto(items[i]) {
        StripItemsAt(items, i);
        SameAsStripped(items[i]);
      }
    case Obj(fields) =>
      var s := Assigned(StripValues(fields));
      forall i | 0 <= i < |fields| ensures fields[i].key != PROTO && NoProto(fields[i].value) {
        assert fields[i].key in KeysOf(fields);
        StrippedKeys(fields, fields[i].key);
        AtStripped(fields, i);
        var k :| 0 <= k < |s| && s[k] == Field(fields[i].key, Strip(fields[i].value));
        SameAsStripped(fields[i].value);
      }
    case _ =>
  }

  // ------------------------------------------------------------------ what it decides

  /** `deepJsonEqual` compares what is left of the two values without their `__proto__` fields. */
  lemma DeepIff(a: Value, b: Value)
    requires Printable(a) && KeysOnce(a) && Printable(b) && KeysOnce(b)
    ensures DeepJsonEqual(a, b) <==> Same(Strip(a), Strip(b))
  {
    ComparedIsStripped(a);
    ComparedIsStripped(b);
    StripKeeps(a);
    StripKeeps(b);
    CanonicalIff(Strip(a), Strip(b));
  }

  /** It never tells values apart that are equal but for key order, and is right on values without `__proto__`. */
  lemma DeepDecides(a: Value, b: Value)
    requires Printable(a) && KeysOnce(a) && Printable(b) && KeysOnce(b)
    ensures Same(a, b) ==> DeepJsonEqual(a, b)
    ensures NoProto(a) && NoProto(b) ==> (DeepJsonEqual(a, b) <==> CanonicalText(a) == CanonicalText(b))
  {
    DeepIff(a, b);
    CanonicalIff(a, b);
    if Same(a, b) { StripKeepsSame(a, b); }
    if NoProto(a) && NoProto(b) {
      StripOfNoProto(a);
      StripOfNoProto(b);
    }
  }

  lemma SameAsItself(v: Value)
    requires Printable(v) && KeysOnce(v)
    ensures Same(v, v)
  {
    CanonicalIff(v, v);
  }

  /** On a value and its stripped self it answers rightly exactly when there was no `__proto__` field to strip. */
  lemma DeepRightIff(v: Value)
    requires Printable(v) && KeysOnce(v)
    ensures (DeepJsonEqual(v, Strip(v)) <==> Same(v, Strip(v))) <==> NoProto(v)
  {
    StripKeeps(v);
    StripHasNoProto(v);
    StripOfNoProto(Strip(v));
    SameAsItself(Strip(v));
    DeepIff(v, Strip(v));
    if NoProto(v) { StripOfNoProto(v); }
    if Same(v, Strip(v)) { SameAsStripped(v); }
  }

  /** An object with a `__proto__` field is called equal to the empty object. */
  lemma DeepGap()
    ensures var v := Obj([Field(PROTO, Number("1"))]); DeepJsonEqual(v, Obj([])) && !Same(v, Obj([]))
  {
    var v := Obj([Field(PROTO, Number("1"))]);
    var s := StripValues(v.fields);
    StripValuesAt(v.fields, 0);
    assert s[1..] == [] && Assigned(s) == Assigned(s[1..]) == [];
    assert v.fields[0].key in KeysOf(v.fields) && KeysOf([]) == {};
    assert IsNumberText("1");
    DeepIff(v, Obj([]));
    SameAsItself(Obj([]));
  }
}
