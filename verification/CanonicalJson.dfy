/** `canonicalJson` (packages/schema/src/canonical-json.ts). */
module CanonicalJson {
  import opened Text
  import opened Sorting
  import opened Json
  import opened JsonText

  // ------------------------------------------------------------ equal up to key order

  ghost function KeysOf(fields: seq<Field>): set<string> { set f | f in fields :: f.key }

  /** Equal but for the order of keys, at every depth. */
  ghost predicate Same(a: Value, b: Value)
    decreases a
  {
    match a
    case Arr(items) =>
      b.Arr? && |items| == |b.items| && forall i :: 0 <= i < |items| ==> Same(items[i], b.items[i])
    case Obj(fields) =>
      && b.Obj? && KeysOf(fields) == KeysOf(b.fields)
      && forall i, j :: 0 <= i < |fields| && 0 <= j < |b.fields| && fields[i].key == b.fields[j].key ==>
          Same(fields[i].value, b.fields[j].value)
    case _ => a == b
  }

  // ------------------------------------------------------------------- the functions

  function ByKey(): (Field, Field) -> bool { (f: Field, g: Field) => Less(f.key, g.key) }

  /** A key that an object lists before the others, in numeric order. */
  predicate IsIndexKey(key: string) { Canonical(key) && ParseDecimal(key) < 4294967295 }

  function ByIndex(): (Field, Field) -> bool {
    (f: Field, g: Field) => IsIndexKey(f.key) && IsIndexKey(g.key) && ParseDecimal(f.key) < ParseDecimal(g.key)
  }

  function Indexed(fields: seq<Field>, index: bool): seq<Field> {
    if fields == [] then []
    else (if IsIndexKey(fields[0].key) == index then [fields[0]] else []) + Indexed(fields[1..], index)
  }

  /** The order in which an object built key by key lists its keys. */
  function OwnOrder(fields: seq<Field>): seq<Field> {
    SortBy(ByIndex(), Indexed(fields, true)) + Indexed(fields, false)
  }

  /** `walk`: sort the keys of every object. */
  function Walk(v: Value): Value {
    match v
    case Arr(items) => Arr(WalkItems(items))
    case Obj(fields) => Obj(OwnOrder(SortBy(ByKey(), WalkFields(fields))))
    case _ => v
  }

  function WalkItems(items: seq<Value>): (r: seq<Value>)
    ensures |r| == |items|
  {
    if items == [] then [] else [Walk(items[0])] + WalkItems(items[1..])
  }

  function WalkFields(fields: seq<Field>): (r: seq<Field>)
    ensures |r| == |fields|
  {
    if fields == [] then [] else [Field(fields[0].key, Walk(fields[0].value))] + WalkFields(fields[1..])
  }

  function CanonicalText(v: Value): string { Stringify(Walk(v)) }

  // ------------------------------------------------------------------ orders of fields

  /** No two fields of the set share a key. */
  ghost predicate KeyedApart(s: set<Field>) { forall f, g :: f in s && g in s && f.key == g.key ==> f == g }

  lemma ByKeyIsTotal(s: set<Field>)
    requires KeyedApart(s)
    ensures TotalOn(ByKey(), s)
  {
    forall f, g | f in s && g in s ensures f != g ==> ByKey()(f, g) || ByKey()(g, f) {
      LessTrichotomy(f.key, g.key);
    }
    forall f, g | f in s && g in s && ByKey()(f, g) ensures f != g && !ByKey()(g, f) { LessTrichotomy(f.key, g.key); }
    forall f, g, h | f in s && g in s && h in s && ByKey()(f, g) && ByKey()(g, h) ensures ByKey()(f, h) {
      LessTransitive(f.key, g.key, h.key);
    }
  }

  lemma {:induction false} IndexedElements(fields: seq<Field>)
    ensures Elements(Indexed(fields, true)) + Elements(Indexed(fields, false)) == Elements(fields)
  {
    if fields != [] {
      IndexedElements(fields[1..]);
      ElementsSplit(fields);
      var index := IsIndexKey(fields[0].key);
      ElementsOf(fields[0], Indexed(fields[1..], index));
      assert Indexed(fields, index) == [fields[0]] + Indexed(fields[1..], index);
      assert Indexed(fields, !index) == [] + Indexed(fields[1..], !index) == Indexed(fields[1..], !index);
    }
  }

  lemma ElementsJoin<T>(a: seq<T>, b: seq<T>)
    ensures Elements(a + b) == Elements(a) + Elements(b)
  {}

  lemma OwnOrderElements(fields: seq<Field>)
    ensures Elements(OwnOrder(fields)) == Elements(fields)
  {
    ElementsJoin(SortBy(ByIndex(), Indexed(fields, true)), Indexed(fields, false));
    SortElements(ByIndex(), Indexed(fields, true));
    IndexedElements(fields);
  }

  lemma WalkedElements(fields: seq<Field>)
    ensures Elements(OwnOrder(SortBy(ByKey(), fields))) == Elements(fields)
  {
    OwnOrderElements(SortBy(ByKey(), fields));
    SortElements(ByKey(), fields);
  }

  lemma {:induction false} WalkFieldsAt(fields: seq<Field>, i: nat)
    requires i < |fields|
    ensures WalkFields(fields)[i] == Field(fields[i].key, Walk(fields[i].value))
  {
    if i > 0 { WalkFieldsAt(fields[1..], i - 1); }
  }

  lemma {:induction false} WalkItemsAt(items: seq<Value>, i: nat)
    requires i < |items|
    ensures WalkItems(items)[i] == Walk(items[i])
  {
    if i > 0 { WalkItemsAt(items[1..], i - 1); }
  }

  lemma InWalkFields(fields: seq<Field>, f: Field) returns (i: nat)
    requires f in Elements(WalkFields(fields))
    ensures i < |fields| && f == Field(fields[i].key, Walk(fields[i].value))
  {
    i :| 0 <= i < |fields| && WalkFields(fields)[i] == f;
    WalkFieldsAt(fields, i);
  }

  lemma AtWalkFields(fields: seq<Field>, i: nat)
    requires i < |fields|
    ensures Field(fields[i].key, Walk(fields[i].value)) in Elements(WalkFields(fields))
  {
    WalkFieldsAt(fields, i);
  }

  lemma WalkFieldsApart(fields: seq<Field>)
    requires DistinctKeys(fields)
    ensures KeyedApart(Elements(WalkFields(fields)))
  {
    forall f, g | f in Elements(WalkFields(fields)) && g in Elements(WalkFields(fields)) && f.key == g.key ensures f == g {
      var i := InWalkFields(fields, f);
      var j := InWalkFields(fields, g);
      assert i == j;
    }
  }

  lemma {:induction false} WalkFieldsDistinct(fields: seq<Field>)
    requires DistinctKeys(fields)
    ensures Distinct(WalkFields(fields))
  {
    if fields != [] {
      WalkFieldsDistinct(fields[1..]);
      assert forall i :: 0 <= i < |fields[1..]| ==> fields[1..][i] == fields[i + 1];
      WalkFieldsLack(fields[1..], fields[0].key);
      assert Field(fields[0].key, Walk(fields[0].value)) !in Elements(WalkFields(fields[1..]));
    }
  }

  lemma WalkFieldsLack(fields: seq<Field>, key: string)
    requires forall i :: 0 <= i < |fields| ==> fields[i].key != key
    ensures forall f :: f in Elements(WalkFields(fields)) ==> f.key != key
  {
    forall f | f in Elements(WalkFields(fields)) ensures f.key != key { var i := InWalkFields(fields, f); }
  }

  // ------------------------------------------------------------------ same value, same text

  lemma {:induction false} SameWalksSame(a: Value, b: Value)
    requires KeysOnce(a) && KeysOnce(b) && Same(a, b)
    ensures Walk(a) == Walk(b)
    decreases a
  {
    match a
    case Arr(items) =>
      forall i | 0 <= i < |items| ensures WalkItems(items)[i] == WalkItems(b.items)[i] {
        SameWalksSame(items[i], b.items[i]);
        WalkItemsAt(items, i);
        WalkItemsAt(b.items, i);
      }
      assert WalkItems(items) == WalkItems(b.items);
    case Obj(fields) =>
      var x, y := WalkFields(fields), WalkFields(b.fields);
      forall i, j | 0 <= i < |fields| && 0 <= j < |b.fields| && fields[i].key == b.fields[j].key
        ensures Walk(fields[i].value) == Walk(b.fields[j].value)
      {
        SameWalksSame(fields[i].value, b.fields[j].value);
      }
      SameFieldsWalk(fields, b.fields);
      WalkFieldsApart(fields);
      ByKeyIsTotal(Elements(x));
      WalkFieldsDistinct(fields);
      WalkFieldsDistinct(b.fields);
      SortOfSame(ByKey(), x, y, Elements(x));
    case _ =>
  }

  lemma SameFieldsWalk(a: seq<Field>, b: seq<Field>)
    requires KeysOf(a) == KeysOf(b)
    requires forall i, j :: 0 <= i < |a| && 0 <= j < |b| && a[i].key == b[j].key ==> Walk(a[i].value) == Walk(b[j].value)
    ensures Elements(WalkFields(a)) == Elements(WalkFields(b))
  {
    forall f | f in Elements(WalkFields(a)) ensures f in Elements(WalkFields(b)) {
      var i := InWalkFields(a, f);
      assert a[i].key in KeysOf(b);
      var j :| 0 <= j < |b| && b[j].key == a[i].key;
      AtWalkFields(b, j);
    }
    forall f | f in Elements(WalkFields(b)) ensures f in Elements(WalkFields(a)) {
      var j := InWalkFields(b, f);
      assert b[j].key in KeysOf(a);
      var i :| 0 <= i < |a| && a[i].key == b[j].key;
      AtWalkFields(a, i);
    }
  }

  lemma KeysOfWalked(fields: seq<Field>, key: string)
    ensures key in KeysOf(fields) <==> exists f :: f in Elements(WalkFields(fields)) && f.key == key
  {
    if key in KeysOf(fields) {
      var i :| 0 <= i < |fields| && fields[i].key == key;
      AtWalkFields(fields, i);
    }
    if f :| f in Elements(WalkFields(fields)) && f.key == key {
      var i := InWalkFields(fields, f);
      assert fields[i] in fields;
    }
  }

  lemma {:induction false} WalksSameIsSame(a: Value, b: Value)
    requires KeysOnce(a) && KeysOnce(b) && Walk(a) == Walk(b)
    ensures Same(a, b)
    decreases a
  {
    match a
    case Arr(items) =>
      forall i | 0 <= i < |items| ensures Same(items[i], b.items[i]) {
        WalkItemsAt(items, i);
        WalkItemsAt(b.items, i);
        WalksSameIsSame(items[i], b.items[i]);
      }
    case Obj(fields) =>
      WalkedElements(WalkFields(fields));
      WalkedElements(WalkFields(b.fields));
      KeysSame(fields, b.fields);
      forall i, j | 0 <= i < |fields| && 0 <= j < |b.fields| && fields[i].key == b.fields[j].key
        ensures Same(fields[i].value, b.fields[j].value)
      {
        WalkFieldSame(fields, b.fields, i, j);
        WalksSameIsSame(fields[i].value, b.fields[j].value);
      }
    case _ =>
  }

  lemma KeysSame(a: seq<Field>, b: seq<Field>)
    requires Elements(WalkFields(a)) == Elements(WalkFields(b))
    ensures KeysOf(a) == KeysOf(b)
  {
    forall key ensures key in KeysOf(a) <==> key in KeysOf(b) {
      KeysOfWalked(a, key);
      KeysOfWalked(b, key);
    }
  }

  lemma WalkFieldSame(a: seq<Field>, b: seq<Field>, i: nat, j: nat)
    requires DistinctKeys(b) && Elements(WalkFields(a)) == Elements(WalkFields(b))
    requires i < |a| && j < |b| && a[i].key == b[j].key
    ensures Walk(a[i].value) == Walk(b[j].value)
  {
    AtWalkFields(a, i);
    var k := InWalkFields(b, Field(a[i].key, Walk(a[i].value)));
    assert k == j;
  }

  // ------------------------------------------------------------------ canonical text

  ghost predicate AllPrints(s: set<Field>) { forall f :: f in s ==> Printable(f.value) }

  lemma PrintsBySet(fields: seq<Field>)
    requires AllPrints(Elements(fields))
    ensures Printable(Obj(fields))
  {
    forall i | 0 <= i < |fields| ensures Printable(fields[i].value) { assert fields[i] in Elements(fields); }
  }

  lemma {:induction false} WalkPrints(v: Value)
    requires Printable(v)
    ensures Printable(Walk(v))
    decreases v
  {
    match v
    case Arr(items) =>
      forall i | 0 <= i < |items| ensures Printable(WalkItems(items)[i]) {
        WalkPrints(items[i]);
        WalkItemsAt(items, i);
      }
    case Obj(fields) =>
      forall f | f in Elements(WalkFields(fields)) ensures Printable(f.value) {
        var i := InWalkFields(fields, f);
        WalkPrints(fields[i].value);
      }
      WalkedElements(WalkFields(fields));
      PrintsBySet(OwnOrder(SortBy(ByKey(), WalkFields(fields))));
    case _ =>
  }

  /** `canonicalJson` gives two values the same text exactly when they are equal but for key order. */
  lemma CanonicalIff(a: Value, b: Value)
    requires Printable(a) && KeysOnce(a) && Printable(b) && KeysOnce(b)
    ensures CanonicalText(a) == CanonicalText(b) <==> Same(a, b)
  {
    WalkPrints(a);
    WalkPrints(b);
    if CanonicalText(a) == CanonicalText(b) {
      SameTextSameValue(Walk(a), Walk(b));
      WalksSameIsSame(a, b);
    }
    if Same(a, b) { SameWalksSame(a, b); }
  }
}
