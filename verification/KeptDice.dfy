/** Which dice a keep or drop clause counts (apps/server/src/common/dice.ts, `keptIndices`). */
module KeptDice {
  import opened Dice
  import opened Sorting

  /** The integers from `lo` up to `hi`. */
  function Range(lo: nat, hi: nat): (r: seq<nat>)
    ensures |r| == if lo <= hi then hi - lo else 0
    decreases hi - lo
  {
    if lo >= hi then [] else [lo] + Range(lo + 1, hi)
  }

  ghost function Below(n: nat): (r: set<nat>)
    ensures forall i: nat :: i in r <==> i < n
  {
    if n == 0 then {} else Below(n - 1) + {n - 1}
  }

  lemma {:induction false} RangeHolds(lo: nat, hi: nat)
    ensures forall i: nat :: i in Elements(Range(lo, hi)) <==> lo <= i < hi
    ensures Distinct(Range(lo, hi))
    decreases hi - lo
  {
    if lo < hi {
      RangeHolds(lo + 1, hi);
      ElementsOf(lo, Range(lo + 1, hi));
      assert lo !in Elements(Range(lo + 1, hi));
    }
  }

  /** The comparator: by face, ties by position. */
  function ByValue(rolls: seq<nat>): (nat, nat) -> bool {
    (a: nat, b: nat) => a < |rolls| && b < |rolls| && (rolls[a] < rolls[b] || (rolls[a] == rolls[b] && a < b))
  }

  function Ascending(): (nat, nat) -> bool { (a: nat, b: nat) => a < b }

  function ByValueAsc(rolls: seq<nat>): (s: seq<nat>)
    ensures |s| == |rolls|
  {
    SortBy(ByValue(rolls), Range(0, |rolls|))
  }

  /** How many dice of `count` a clause keeps. */
  function KeptCount(keep: KeepSpec, count: nat): nat
    requires keep.n <= count
  {
    if keep.mode == KH || keep.mode == KL then keep.n else count - keep.n
  }

  function Picked(rolls: seq<nat>, keep: KeepSpec): (s: seq<nat>)
    requires keep.n <= |rolls|
    ensures |s| == KeptCount(keep, |rolls|)
  {
    var s := ByValueAsc(rolls);
    match keep.mode
    case KH => s[|s| - keep.n..]
    case KL => s[..keep.n]
    case DL => s[keep.n..]
    case DH => s[..|s| - keep.n]
  }

  function KeptIndices(rolls: seq<nat>, keep: KeepSpec): (s: seq<nat>)
    requires keep.n <= |rolls|
    ensures |s| == KeptCount(keep, |rolls|)
  {
    SortBy(Ascending(), Picked(rolls, keep))
  }

  ghost function Positions(rolls: seq<nat>): set<nat> { Below(|rolls|) }

  /** Keeping the highest is dropping as many of the lowest, and the other way round. */
  lemma KeepIsDrop(rolls: seq<nat>, n: nat)
    requires n <= |rolls|
    ensures KeptIndices(rolls, KeepSpec(KH, n)) == KeptIndices(rolls, KeepSpec(DL, |rolls| - n))
    ensures KeptIndices(rolls, KeepSpec(KL, n)) == KeptIndices(rolls, KeepSpec(DH, |rolls| - n))
  {}

  // ------------------------------------------------------------------ the order

  lemma OrdersAreTotal(rolls: seq<nat>)
    ensures TotalOn(ByValue(rolls), Positions(rolls)) && TotalOn(Ascending(), Positions(rolls))
  {}

  /** Two halves of an ordered sequence: apart, ordered, and all of one below all of the other. */
  lemma {:induction false} SortedHalves<T>(less: (T, T) -> bool, s: seq<T>, k: nat, all: set<T>)
    requires TotalOn(less, all) && SortedBy(less, s) && Elements(s) <= all && k <= |s|
    ensures SortedBy(less, s[..k]) && SortedBy(less, s[k..])
    ensures Elements(s[..k]) + Elements(s[k..]) == Elements(s)
    ensures forall x, y :: x in Elements(s[..k]) && y in Elements(s[k..]) ==> less(x, y)
  {
    if k == 0 {
      assert s[..0] == [] && s[0..] == s;
    } else {
      ElementsSplit(s);
      HeadIsLeast(less, s, all);
      SortedHalves(less, s[1..], k - 1, all);
      assert s[..k] == [s[0]] + s[1..][..k - 1] && s[k..] == s[1..][k - 1..];
      ElementsOf(s[0], s[1..][..k - 1]);
      BelowBySet(less, s[0], s[1..][..k - 1]);
      assert s[..k][1..] == s[1..][..k - 1];
    }
  }

  lemma ByValueAscHolds(rolls: seq<nat>)
    ensures SortedBy(ByValue(rolls), ByValueAsc(rolls)) && Elements(ByValueAsc(rolls)) == Positions(rolls)
  {
    OrdersAreTotal(rolls);
    RangeHolds(0, |rolls|);
    SortSorted(ByValue(rolls), Range(0, |rolls|), Positions(rolls));
    SortElements(ByValue(rolls), Range(0, |rolls|));
  }

  /** The set of dice a clause keeps, and the set it drops. */
  ghost function Kept(rolls: seq<nat>, keep: KeepSpec): set<nat>
    requires keep.n <= |rolls|
  {
    Elements(KeptIndices(rolls, keep))
  }

  lemma PickedHolds(rolls: seq<nat>, keep: KeepSpec)
    requires keep.n <= |rolls|
    ensures Distinct(Picked(rolls, keep)) && Elements(Picked(rolls, keep)) <= Positions(rolls)
  {
    var s := ByValueAsc(rolls);
    ByValueAscHolds(rolls);
    OrdersAreTotal(rolls);
    SortedHalves(ByValue(rolls), s, |s| - keep.n, Positions(rolls));
    SortedHalves(ByValue(rolls), s, keep.n, Positions(rolls));
    SortedIsDistinct(ByValue(rolls), Picked(rolls, keep), Positions(rolls));
  }

  /** The kept dice stand in roll order, without repetition. */
  lemma KeptInRollOrder(rolls: seq<nat>, keep: KeepSpec)
    requires keep.n <= |rolls|
    ensures Kept(rolls, keep) <= Positions(rolls) && Kept(rolls, keep) == Elements(Picked(rolls, keep))
    ensures SortedBy(Ascending(), KeptIndices(rolls, keep)) && Distinct(KeptIndices(rolls, keep))
  {
    PickedHolds(rolls, keep);
    OrdersAreTotal(rolls);
    SortElements(Ascending(), Picked(rolls, keep));
    SortSorted(Ascending(), Picked(rolls, keep), Positions(rolls));
    SortedIsDistinct(Ascending(), KeptIndices(rolls, keep), Positions(rolls));
  }

  /** The dice kept as highest and the rest kept as lowest are the two halves of the order. */
  lemma HighAndLowAreHalves(rolls: seq<nat>, n: nat)
    requires n <= |rolls|
    ensures Kept(rolls, KeepSpec(KH, n)) == Elements(ByValueAsc(rolls)[|rolls| - n..])
    ensures Kept(rolls, KeepSpec(KL, |rolls| - n)) == Elements(ByValueAsc(rolls)[..|rolls| - n])
  {
    KeptInRollOrder(rolls, KeepSpec(KH, n));
    KeptInRollOrder(rolls, KeepSpec(KL, |rolls| - n));
  }

  /** No die of `low` outranks one of `high`; of equal dice the later one ranks higher. */
  ghost predicate Outranks(rolls: seq<nat>, high: set<nat>, low: set<nat>)
    requires high <= Positions(rolls) && low <= Positions(rolls)
  {
    forall i, j :: i in low && j in high ==> rolls[i] < rolls[j] || (rolls[i] == rolls[j] && i < j)
  }

  lemma OutranksByValue(rolls: seq<nat>, high: set<nat>, low: set<nat>)
    requires high <= Positions(rolls) && low <= Positions(rolls)
    requires forall i, j :: i in low && j in high ==> ByValue(rolls)(i, j)
    ensures Outranks(rolls, high, low) && high !! low
  {
    forall i, j | i in low && j in high ensures (rolls[i] < rolls[j] || (rolls[i] == rolls[j] && i < j)) && i != j {
      assert ByValue(rolls)(i, j);
    }
  }

  /** The `n` highest dice and the rest, kept as lowest, are all dice, each once, the high above the low. */
  lemma HighAndLowPartition(rolls: seq<nat>, n: nat)
    requires n <= |rolls|
    ensures var high, low := Kept(rolls, KeepSpec(KH, n)), Kept(rolls, KeepSpec(KL, |rolls| - n));
      high + low == Positions(rolls) && high !! low && Outranks(rolls, high, low)
  {
    HighAndLowAreHalves(rolls, n);
    ByValueAscHolds(rolls);
    OrdersAreTotal(rolls);
    SortedHalves(ByValue(rolls), ByValueAsc(rolls), |rolls| - n, Positions(rolls));
    OutranksByValue(rolls, Kept(rolls, KeepSpec(KH, n)), Kept(rolls, KeepSpec(KL, |rolls| - n)));
  }

  // ------------------------------------------------------------------ the best pick

  /** The faces at the positions of `s` below `m`, added up. */
  ghost function SumAt(rolls: seq<nat>, s: set<nat>, m: nat): int
    requires m <= |rolls|
  {
    if m == 0 then 0 else SumAt(rolls, s, m - 1) + (if m - 1 in s then rolls[m - 1] else 0)
  }

  /** How many positions below `m` are in `s`. */
  ghost function CountAt(s: set<nat>, m: nat): nat {
    if m == 0 then 0 else CountAt(s, m - 1) + (if m - 1 in s then 1 else 0)
  }

  lemma {:induction false} CountIsSize(s: set<nat>, m: nat)
    requires forall i :: i in s ==> i < m
    ensures CountAt(s, m) == |s|
  {
    if m == 0 {
      assert s == {};
    } else {
      CountIsSize(s - {m - 1}, m - 1);
      CountOfSame(s, s - {m - 1}, m - 1);
    }
  }

  lemma {:induction false} CountOfSame(a: set<nat>, b: set<nat>, m: nat)
    requires forall i: nat :: i < m ==> (i in a <==> i in b)
    ensures CountAt(a, m) == CountAt(b, m)
  {
    if m > 0 { CountOfSame(a, b, m - 1); }
  }

  /** Trading dice of at most `t` for as many of at least `t` does not lower the sum. */
  lemma {:induction false} Exchange(rolls: seq<nat>, a: set<nat>, b: set<nat>, t: int, m: nat)
    requires m <= |rolls|
    requires forall i :: 0 <= i < m && i in a && i !in b ==> rolls[i] >= t
    requires forall i :: 0 <= i < m && i in b && i !in a ==> rolls[i] <= t
    ensures SumAt(rolls, b, m) - t * CountAt(b, m) <= SumAt(rolls, a, m) - t * CountAt(a, m)
  {
    if m > 0 {
      Exchange(rolls, a, b, t, m - 1);
      Distribute(t, CountAt(a, m - 1));
      Distribute(t, CountAt(b, m - 1));
    }
  }

  lemma Distribute(t: int, c: int)
    ensures t * (c + 1) == t * c + t
  {}

  /** `a` sums to at least `b` when the two are equally many dice and `a` holds none below one of `b` outside it. */
  lemma ExchangeAll(rolls: seq<nat>, a: set<nat>, b: set<nat>, t: int)
    requires a <= Positions(rolls) && b <= Positions(rolls) && |a| == |b|
    requires forall i :: 0 <= i < |rolls| && i in a && i !in b ==> rolls[i] >= t
    requires forall i :: 0 <= i < |rolls| && i in b && i !in a ==> rolls[i] <= t
    ensures SumAt(rolls, b, |rolls|) <= SumAt(rolls, a, |rolls|)
  {
    Exchange(rolls, a, b, t, |rolls|);
    CountIsSize(a, |rolls|);
    CountIsSize(b, |rolls|);
  }

  lemma {:induction false} SizeOfDistinct<T>(s: seq<T>)
    requires Distinct(s)
    ensures |Elements(s)| == |s|
  {
    if s != [] {
      SizeOfDistinct(s[1..]);
      ElementsSplit(s);
    }
  }

  /** The least face of a nonempty set of dice. */
  lemma {:induction false} LeastFace(rolls: seq<nat>, s: set<nat>) returns (k: nat)
    requires s != {} && s <= Positions(rolls)
    ensures k in s && forall i :: i in s ==> rolls[k] <= rolls[i]
  {
    k :| k in s;
    if s != {k} {
      var j := LeastFace(rolls, s - {k});
      if rolls[j] < rolls[k] { k := j; }
    }
  }

  lemma {:induction false} GreatestFace(rolls: seq<nat>, s: set<nat>) returns (k: nat)
    requires s != {} && s <= Positions(rolls)
    ensures k in s && forall i :: i in s ==> rolls[i] <= rolls[k]
  {
    k :| k in s;
    if s != {k} {
      var j := GreatestFace(rolls, s - {k});
      if rolls[j] > rolls[k] { k := j; }
    }
  }

  /** `kh n` keeps `n` dice, and no `n` dice sum to more. */
  lemma HighestIsBest(rolls: seq<nat>, n: nat, s: set<nat>)
    requires n <= |rolls| && s <= Positions(rolls) && |s| == n
    ensures |Kept(rolls, KeepSpec(KH, n))| == n
    ensures SumAt(rolls, s, |rolls|) <= SumAt(rolls, Kept(rolls, KeepSpec(KH, n)), |rolls|)
  {
    var high, low := Kept(rolls, KeepSpec(KH, n)), Kept(rolls, KeepSpec(KL, |rolls| - n));
    HighAndLowPartition(rolls, n);
    KeptInRollOrder(rolls, KeepSpec(KH, n));
    SizeOfDistinct(KeptIndices(rolls, KeepSpec(KH, n)));
    if n > 0 {
      var k := LeastFace(rolls, high);
      ExchangeAll(rolls, high, s, rolls[k]);
    } else {
      ExchangeAll(rolls, high, s, 0);
    }
  }

  /** `kl n` keeps `n` dice, and no `n` dice sum to less. */
  lemma LowestIsLeast(rolls: seq<nat>, n: nat, s: set<nat>)
    requires n <= |rolls| && s <= Positions(rolls) && |s| == n
    ensures |Kept(rolls, KeepSpec(KL, n))| == n
    ensures SumAt(rolls, Kept(rolls, KeepSpec(KL, n)), |rolls|) <= SumAt(rolls, s, |rolls|)
  {
    var high, low := Kept(rolls, KeepSpec(KH, |rolls| - n)), Kept(rolls, KeepSpec(KL, n));
    HighAndLowPartition(rolls, |rolls| - n);
    KeptInRollOrder(rolls, KeepSpec(KL, n));
    SizeOfDistinct(KeptIndices(rolls, KeepSpec(KL, n)));
    if n > 0 {
      var k := GreatestFace(rolls, low);
      ExchangeAll(rolls, s, low, rolls[k]);
    } else {
      ExchangeAll(rolls, s, low, 0);
    }
  }
}
