/** `Array.prototype.sort` with a comparator that is a strict total order on the elements. */
module Sorting {

  function InsertBy<T>(less: (T, T) -> bool, x: T, s: seq<T>): (r: seq<T>)
    ensures |r| == |s| + 1
  {
    if s == [] || less(x, s[0]) then [x] + s else [s[0]] + InsertBy(less, x, s[1..])
  }

  function SortBy<T>(less: (T, T) -> bool, s: seq<T>): (r: seq<T>)
    ensures |r| == |s|
  {
    if s == [] then [] else InsertBy(less, s[0], SortBy(less, s[1..]))
  }

  /** A strict total order on the elements of `all`. */
  ghost predicate TotalOn<T>(less: (T, T) -> bool, all: set<T>) {
    && (forall a, b :: a in all && b in all && a != b ==> less(a, b) || less(b, a))
    && (forall a, b :: a in all && b in all && less(a, b) ==> a != b && !less(b, a))
    && (forall a, b, c :: a in all && b in all && c in all && less(a, b) && less(b, c) ==> less(a, c))
  }

  ghost predicate BelowAll<T>(less: (T, T) -> bool, x: T, s: seq<T>) { forall y :: y in s ==> less(x, y) }

  ghost predicate SortedBy<T>(less: (T, T) -> bool, s: seq<T>) {
    s == [] || (BelowAll(less, s[0], s[1..]) && SortedBy(less, s[1..]))
  }

  ghost function Elements<T>(s: seq<T>): set<T> { set x | x in s }

  ghost predicate Distinct<T>(s: seq<T>) { s == [] || (s[0] !in s[1..] && Distinct(s[1..])) }

  lemma ElementsOf<T>(x: T, s: seq<T>)
    ensures Elements([x] + s) == {x} + Elements(s)
  {}

  lemma ElementsSplit<T>(s: seq<T>)
    requires s != []
    ensures Elements(s) == {s[0]} + Elements(s[1..])
  {
    assert s == [s[0]] + s[1..];
    ElementsOf(s[0], s[1..]);
  }

  lemma {:induction false} InsertElements<T>(less: (T, T) -> bool, x: T, s: seq<T>)
    ensures Elements(InsertBy(less, x, s)) == {x} + Elements(s)
  {
    ElementsOf(x, s);
    if s != [] {
      InsertElements(less, x, s[1..]);
      ElementsOf(s[0], InsertBy(less, x, s[1..]));
      ElementsSplit(s);
    }
  }

  lemma {:induction false} SortElements<T>(less: (T, T) -> bool, s: seq<T>)
    ensures Elements(SortBy(less, s)) == Elements(s)
  {
    if s != [] {
      SortElements(less, s[1..]);
      InsertElements(less, s[0], SortBy(less, s[1..]));
      ElementsSplit(s);
    }
  }

  lemma BelowBySet<T>(less: (T, T) -> bool, x: T, s: seq<T>)
    ensures BelowAll(less, x, s) <==> forall y :: y in Elements(s) ==> less(x, y)
  {
    if BelowAll(less, x, s) {
      forall y | y in Elements(s) ensures less(x, y) { assert y in s; }
    } else {
      var y :| y in s && !less(x, y);
      assert y in Elements(s);
    }
  }

  lemma {:induction false} InsertSorted<T>(less: (T, T) -> bool, x: T, s: seq<T>, all: set<T>)
    requires TotalOn(less, all) && SortedBy(less, s) && x in all && x !in s && Elements(s) <= all
    ensures SortedBy(less, InsertBy(less, x, s))
  {
    if s != [] {
      ElementsSplit(s);
      BelowBySet(less, s[0], s[1..]);
      if less(x, s[0]) {
        BelowBySet(less, x, s);
        assert ([x] + s)[1..] == s;
      } else {
        InsertSorted(less, x, s[1..], all);
        InsertElements(less, x, s[1..]);
        BelowBySet(less, s[0], InsertBy(less, x, s[1..]));
        assert ([s[0]] + InsertBy(less, x, s[1..]))[1..] == InsertBy(less, x, s[1..]);
      }
    }
  }

  lemma {:induction false} SortSorted<T>(less: (T, T) -> bool, s: seq<T>, all: set<T>)
    requires TotalOn(less, all) && Distinct(s) && Elements(s) <= all
    ensures SortedBy(less, SortBy(less, s))
  {
    if s != [] {
      ElementsSplit(s);
      SortSorted(less, s[1..], all);
      SortElements(less, s[1..]);
      assert s[0] !in Elements(s[1..]);
      InsertSorted(less, s[0], SortBy(less, s[1..]), all);
    }
  }

  /** There is one ordered sequence of given elements. */
  lemma {:induction false} SortedIsUnique<T>(less: (T, T) -> bool, a: seq<T>, b: seq<T>, all: set<T>)
    requires TotalOn(less, all) && SortedBy(less, a) && SortedBy(less, b)
    requires Elements(a) == Elements(b) <= all
    ensures a == b
  {
    if a == [] || b == [] {
      if b != [] { ElementsSplit(b); }
      if a != [] { ElementsSplit(a); }
    } else {
      HeadIsLeast(less, a, all);
      HeadIsLeast(less, b, all);
      SortedIsUnique(less, a[1..], b[1..], all);
      assert a == [a[0]] + a[1..] && b == [b[0]] + b[1..];
    }
  }

  lemma HeadIsLeast<T>(less: (T, T) -> bool, s: seq<T>, all: set<T>)
    requires TotalOn(less, all) && SortedBy(less, s) && s != [] && Elements(s) <= all
    ensures Elements(s[1..]) == Elements(s) - {s[0]} && s[0] in Elements(s)
    ensures forall y :: y in Elements(s) && y != s[0] ==> less(s[0], y)
  {
    ElementsSplit(s);
    BelowBySet(less, s[0], s[1..]);
  }

  /** Sorting depends on the elements alone. */
  lemma SortOfSame<T>(less: (T, T) -> bool, a: seq<T>, b: seq<T>, all: set<T>)
    requires TotalOn(less, all) && Distinct(a) && Distinct(b) && Elements(a) == Elements(b) <= all
    ensures SortBy(less, a) == SortBy(less, b)
  {
    SortSorted(less, a, all);
    SortSorted(less, b, all);
    SortElements(less, a);
    SortElements(less, b);
    SortedIsUnique(less, SortBy(less, a), SortBy(less, b), all);
  }

  /** Any two elements of an ordered sequence are in order. */
  lemma {:induction false} SortedPair<T>(less: (T, T) -> bool, s: seq<T>, i: nat, j: nat)
    requires SortedBy(less, s) && i < j < |s|
    ensures less(s[i], s[j])
  {
    if i == 0 { assert s[j] == s[1..][j - 1]; } else { SortedPair(less, s[1..], i - 1, j - 1); }
  }

  lemma {:induction false} SortedIsDistinct<T>(less: (T, T) -> bool, s: seq<T>, all: set<T>)
    requires TotalOn(less, all) && SortedBy(less, s) && Elements(s) <= all
    ensures Distinct(s)
  {
    if s != [] {
      ElementsSplit(s);
      SortedIsDistinct(less, s[1..], all);
      HeadIsLeast(less, s, all);
      assert s[0] !in Elements(s[1..]);
    }
  }
}
