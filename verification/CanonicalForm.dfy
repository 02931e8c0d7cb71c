/** What the canonical form of a value is: the value, with its keys in order (packages/schema/src/canonical-json.ts). */
module CanonicalForm {
  import opened Text
  import opened Sorting
  import opened Json
  import opened CanonicalJson

  // ------------------------------------------------------------------ the same value

  /** The canonical form is the value, but for the order of keys. */
  lemma {:induction false} WalkIsSame(v: Value)
    requires KeysOnce(v)
    ensures Same(v, Walk(v))
    decreases v
  {
    match v
    case Arr(items) =>
      forall i | 0 <= i < |items| ensures Same(items[i], WalkItems(items)[i]) {
        WalkItemsAt(items, i);
        WalkIsSame(items[i]);
      }
    case Obj(fields) =>
      forall i | 0 <= i < |fields| ensures Same(fields[i].value, Walk(fields[i].value)) { WalkIsSame(fields[i].value); }
      SameFields(fields, OwnOrder(SortBy(ByKey(), WalkFields(fields))));
    case _ =>
  }

  /** The fields of the form are those of the value, each with the form of its value. */
  ghost predicate FormOf(fields: seq<Field>, walked: seq<Field>) { Elements(walked) == Elements(WalkFields(fields)) }

  lemma SameKeys(fields: seq<Field>, walked: seq<Field>)
    requires FormOf(fields, walked)
    ensures KeysOf(fields) == KeysOf(walked)
  {
    forall key ensures key in KeysOf(fields) <==> key in KeysOf(walked) {
      KeysOfWalked(fields, key);
      KeyByElements(walked, key);
    }
  }

  lemma KeyByElements(walked: seq<Field>, key: string)
    ensures key in KeysOf(walked) <==> exists f :: f in Elements(walked) && f.key == key
  {
    if f :| f in Elements(walked) && f.key == key { assert f in walked; }
    if key in KeysOf(walked) {
      var f :| f in walked && f.key == key;
      assert f in Elements(walked);
    }
  }

  lemma FormAt(fields: seq<Field>, walked: seq<Field>, i: nat, j: nat)
    requires DistinctKeys(fields) && FormOf(fields, walked)
    requires i < |fields| && j < |walked| && fields[i].key == walked[j].key
    ensures walked[j].value == Walk(fields[i].value)
  {
    assert walked[j] in Elements(walked);
    var k := InWalkFields(fields, walked[j]);
    assert k == i;
  }

  lemma SameFields(fields: seq<Field>, walked: seq<Field>)
    requires DistinctKeys(fields) && walked == OwnOrder(SortBy(ByKey(), WalkFields(fields)))
    requires forall i :: 0 <= i < |fields| ==> Same(fields[i].value, Walk(fields[i].value))
    ensures KeysOf(fields) == KeysOf(walked)
    ensures forall i, j :: 0 <= i < |fields| && 0 <= j < |walked| && fields[i].key == walked[j].key ==>
      Same(fields[i].value, walked[j].value)
  {
    WalkedElements(WalkFields(fields));
    SameKeys(fields, walked);
    forall i, j | 0 <= i < |fields| && 0 <= j < |walked| && fields[i].key == walked[j].key
      ensures Same(fields[i].value, walked[j].value)
    {
      FormAt(fields, walked, i, j);
    }
  }

  // ------------------------------------------------------------------ keys in order

  /** Keys that are array indices come first, by number; the others follow, by text. */
  predicate KeyBefore(a: string, b: string) {
    if IsIndexKey(a) then !IsIndexKey(b) || ParseDecimal(a) < ParseDecimal(b) else !IsIndexKey(b) && Less(a, b)
  }

  /** Array indices are the numbers below 2^32 - 1 as they are written. */
  lemma IndexKeyIff(key: string)
    ensures IsIndexKey(key) <==> exists n: nat :: n < 0xFFFF_FFFF && key == Decimal(n)
  {
    if IsIndexKey(key) { DecimalOfParse(key); }
    if n: nat :| n < 0xFFFF_FFFF && key == Decimal(n) {
      DecimalIsCanonical(n);
      ParseOfDecimal(n);
    }
  }

  predicate InOrder(fields: seq<Field>) { forall i, j :: 0 <= i < j < |fields| ==> KeyBefore(fields[i].key, fields[j].key) }

  /** The keys of every object, at every depth, are in order. */
  predicate Ordered(v: Value) {
    match v
    case Arr(items) => forall i :: 0 <= i < |items| ==> Ordered(items[i])
    case Obj(fields) => InOrder(fields) && forall i :: 0 <= i < |fields| ==> Ordered(fields[i].value)
    case _ => true
  }

  lemma IndexedFirst(s: seq<Field>, index: bool)
    requires s != []
    ensures Indexed(s, index) == if IsIndexKey(s[0].key) == index then [s[0]] + Indexed(s[1..], index) else Indexed(s[1..], index)
  {
    assert [] + Indexed(s[1..], index) == Indexed(s[1..], index);
  }

  lemma {:induction false} IndexedHolds(s: seq<Field>, index: bool)
    ensures Elements(Indexed(s, index)) <= Elements(s)
    ensures forall f :: f in Elements(Indexed(s, index)) ==> IsIndexKey(f.key) == index
  {
    if s != [] {
      IndexedHolds(s[1..], index);
      IndexedFirst(s, index);
      ElementsSplit(s);
      if IsIndexKey(s[0].key) == index { ElementsOf(s[0], Indexed(s[1..], index)); }
    }
  }

  lemma {:induction false} IndexedDistinct(s: seq<Field>, index: bool)
    requires Distinct(s)
    ensures Distinct(Indexed(s, index))
  {
    if s != [] {
      IndexedDistinct(s[1..], index);
      IndexedHolds(s[1..], index);
      IndexedFirst(s, index);
      assert s[0] !in Elements(s[1..]) && s[0] !in Elements(Indexed(s[1..], index));
      if IsIndexKey(s[0].key) == index { assert Indexed(s, index)[1..] == Indexed(s[1..], index); }
    }
  }

  lemma {:induction false} IndexedSorted(s: seq<Field>, index: bool)
    requires SortedBy(ByKey(), s)
    ensures SortedBy(ByKey(), Indexed(s, index))
  {
    if s != [] {
      IndexedSorted(s[1..], index);
      IndexedHolds(s[1..], index);
      IndexedFirst(s, index);
      BelowBySet(ByKey(), s[0], s[1..]);
      BelowBySet(ByKey(), s[0], Indexed(s[1..], index));
      if IsIndexKey(s[0].key) == index { assert Indexed(s, index)[1..] == Indexed(s[1..], index); }
    }
  }

  lemma ByIndexIsTotal(s: set<Field>)
    requires KeyedApart(s) && forall f :: f in s ==> IsIndexKey(f.key)
    ensures TotalOn(ByIndex(), s)
  {
    forall f, g | f in s && g in s ensures f != g ==> ByIndex()(f, g) || ByIndex()(g, f) {
      DecimalOfParse(f.key);
      DecimalOfParse(g.key);
    }
  }

  predicate AllIndex(s: seq<Field>, index: bool) { forall i :: 0 <= i < |s| ==> IsIndexKey(s[i].key) == index }

  lemma PartsInOrder(a: seq<Field>, rest: seq<Field>)
    requires SortedBy(ByIndex(), a) && SortedBy(ByKey(), rest) && AllIndex(a, true) && AllIndex(rest, false)
    ensures InOrder(a + rest)
  {
    var all: seq<Field> := a + rest;
    forall i, j | 0 <= i < j < |all| ensures KeyBefore(all[i].key, all[j].key) {
      if j < |a| {
        SortedPair(ByIndex(), a, i, j);
      } else if i >= |a| {
        SortedPair(ByKey(), rest, i - |a|, j - |a|);
      }
    }
  }

  lemma AllIndexBySet(s: seq<Field>, index: bool)
    requires forall f :: f in Elements(s) ==> IsIndexKey(f.key) == index
    ensures AllIndex(s, index)
  {
    forall i | 0 <= i < |s| ensures IsIndexKey(s[i].key) == index { assert s[i] in Elements(s); }
  }

  lemma OwnOrderInOrder(s: seq<Field>)
    requires SortedBy(ByKey(), s) && Distinct(s) && KeyedApart(Elements(s))
    ensures InOrder(OwnOrder(s))
  {
    var index := Indexed(s, true);
    IndexedHolds(s, true);
    IndexedHolds(s, false);
    IndexedDistinct(s, true);
    IndexedSorted(s, false);
    ByIndexIsTotal(Elements(index));
    SortSorted(ByIndex(), index, Elements(index));
    SortElements(ByIndex(), index);
    AllIndexBySet(SortBy(ByIndex(), index), true);
    AllIndexBySet(Indexed(s, false), false);
    PartsInOrder(SortBy(ByIndex(), index), Indexed(s, false));
  }

  lemma SortedByKey(fields: seq<Field>)
    requires DistinctKeys(fields)
    ensures InOrder(OwnOrder(SortBy(ByKey(), WalkFields(fields))))
  {
    var walked := WalkFields(fields);
    var all := Elements(walked);
    WalkFieldsApart(fields);
    WalkFieldsDistinct(fields);
    ByKeyIsTotal(all);
    SortSorted(ByKey(), walked, all);
    SortElements(ByKey(), walked);
    SortedIsDistinct(ByKey(), SortBy(ByKey(), walked), all);
    OwnOrderInOrder(SortBy(ByKey(), walked));
  }

  /** The canonical form has its keys in order at every depth. */
  lemma {:induction false} WalkIsOrdered(v: Value)
    requires KeysOnce(v)
    ensures Ordered(Walk(v))
    decreases v
  {
    match v
    case Arr(items) =>
      forall i | 0 <= i < |items| ensures Ordered(WalkItems(items)[i]) {
        WalkItemsAt(items, i);
        WalkIsOrdered(items[i]);
      }
    case Obj(fields) =>
      var walked := OwnOrder(SortBy(ByKey(), WalkFields(fields)));
      forall i | 0 <= i < |fields| ensures Ordered(Walk(fields[i].value)) { WalkIsOrdered(fields[i].value); }
      SortedByKey(fields);
      WalkedElements(WalkFields(fields));
      forall j | 0 <= j < |walked| ensures Ordered(walked[j].value) {
        assert walked[j] in Elements(walked);
        var k := InWalkFields(fields, walked[j]);
      }
    case _ =>
  }
}
