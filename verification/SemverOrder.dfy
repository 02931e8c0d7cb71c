/** The order of versions and of version texts. */
module SemverOrder {
  import opened Text
  import opened Semver

  /** Equality but for build metadata, which the order ignores. */
  predicate SameBut(a: Version, b: Version) { a.(build := []) == b.(build := []) }

  // ----------------------------------------------------------------- identifiers

  lemma IdsDiffer(x: Id, y: Id)
    ensures CompareId(x, y) == 0 <==> x == y
    ensures CompareId(y, x) == -CompareId(x, y)
  {
    if x.Alpha? && y.Alpha? { LessTrichotomy(x.s, y.s); }
  }

  lemma IdsChain(x: Id, y: Id, z: Id)
    requires CompareId(x, y) < 0 && CompareId(y, z) < 0
    ensures CompareId(x, z) < 0
  {
    if x.Alpha? && y.Alpha? && z.Alpha? {
      LessTransitive(x.s, y.s, z.s);
      LessTrichotomy(x.s, z.s);
    }
  }

  lemma {:induction false} ListsDiffer(a: seq<Id>, b: seq<Id>)
    ensures CompareIds(a, b) == 0 <==> a == b
    ensures CompareIds(b, a) == -CompareIds(a, b)
  {
    if a != [] && b != [] {
      IdsDiffer(a[0], b[0]);
      ListsDiffer(a[1..], b[1..]);
      assert a == [a[0]] + a[1..] && b == [b[0]] + b[1..];
    }
  }

  lemma {:induction false} ListsChain(a: seq<Id>, b: seq<Id>, c: seq<Id>)
    requires CompareIds(a, b) < 0 && CompareIds(b, c) < 0
    ensures CompareIds(a, c) < 0
  {
    if a != [] {
      IdsDiffer(a[0], b[0]);
      IdsDiffer(b[0], c[0]);
      if a[0] == b[0] && b[0] == c[0] {
        ListsChain(a[1..], b[1..], c[1..]);
      } else if a[0] != b[0] && b[0] != c[0] {
        IdsChain(a[0], b[0], c[0]);
      }
    }
  }

  // -------------------------------------------------------------------- versions

  /** The order is antisymmetric, and its zero class is equality ignoring build metadata. */
  lemma VersionsDiffer(a: Version, b: Version)
    ensures CompareSemver(a, b) == 0 <==> SameBut(a, b)
    ensures CompareSemver(b, a) == -CompareSemver(a, b)
    ensures -1 <= CompareSemver(a, b) <= 1
  {
    ListsDiffer(a.prerelease, b.prerelease);
    ListSigns(a.prerelease, b.prerelease);
  }

  lemma {:induction false} ListSigns(a: seq<Id>, b: seq<Id>)
    ensures -1 <= CompareIds(a, b) <= 1
  {
    if a != [] && b != [] { ListSigns(a[1..], b[1..]); }
  }

  lemma PreChain(a: seq<Id>, b: seq<Id>, c: seq<Id>)
    requires ComparePre(a, b) <= 0 && ComparePre(b, c) <= 0
    ensures ComparePre(a, c) <= 0
  {
    ListsDiffer(a, b);
    ListsDiffer(b, c);
    if a != [] && b != [] && c != [] && a != b && b != c { ListsChain(a, b, c); }
  }

  /** The order is transitive. */
  lemma VersionsChain(a: Version, b: Version, c: Version)
    requires CompareSemver(a, b) <= 0 && CompareSemver(b, c) <= 0
    ensures CompareSemver(a, c) <= 0
  {
    if (a.major, a.minor, a.patch) == (b.major, b.minor, b.patch) == (c.major, c.minor, c.patch) {
      PreChain(a.prerelease, b.prerelease, c.prerelease);
    }
  }

  /** Order on texts: antisymmetric, zero for equal versions and between texts that are no version, which come last. */
  lemma TextsDiffer(a: string, b: string)
    ensures CompareVersionStrings(b, a) == -CompareVersionStrings(a, b)
    ensures CompareVersionStrings(a, b) == 0 <==>
      (ParseSemver(a).None? && ParseSemver(b).None?)
      || (ParseSemver(a).Some? && ParseSemver(b).Some? && SameBut(ParseSemver(a).value, ParseSemver(b).value))
    ensures ParseSemver(a).Some? && ParseSemver(b).None? ==> CompareVersionStrings(a, b) < 0
  {
    if ParseSemver(a).Some? && ParseSemver(b).Some? { VersionsDiffer(ParseSemver(a).value, ParseSemver(b).value); }
  }

  lemma TextsChain(a: string, b: string, c: string)
    requires CompareVersionStrings(a, b) <= 0 && CompareVersionStrings(b, c) <= 0
    ensures CompareVersionStrings(a, c) <= 0
  {
    if ParseSemver(a).Some? && ParseSemver(b).Some? && ParseSemver(c).Some? {
      VersionsChain(ParseSemver(a).value, ParseSemver(b).value, ParseSemver(c).value);
    }
  }

  // ------------------------------------------------------------------- precedence

  /** Lower precedence of one identifier (section 11.4 of Semantic Versioning 2.0.0). */
  predicate IdBelow(x: Id, y: Id) {
    match x
    case Num(n) => y.Alpha? || n < y.n
    case Alpha(s) => y.Alpha? && Less(s, y.s)
  }

  /** The lists agree before `k`, where `a` ends or has the lower identifier. */
  predicate BelowAt(a: seq<Id>, b: seq<Id>, k: nat) {
    k <= |a| && k < |b| && a[..k] == b[..k] && (k == |a| || IdBelow(a[k], b[k]))
  }

  /** Precedence of versions, by the first difference from left to right. */
  ghost predicate Precedes(a: Version, b: Version) {
    || a.major < b.major
    || (a.major == b.major && a.minor < b.minor)
    || (a.major == b.major && a.minor == b.minor && a.patch < b.patch)
    || (a.major == b.major && a.minor == b.minor && a.patch == b.patch && a.prerelease != []
        && (b.prerelease == [] || exists k: nat :: BelowAt(a.prerelease, b.prerelease, k)))
  }

  lemma BelowIff(x: Id, y: Id)
    ensures CompareId(x, y) < 0 <==> IdBelow(x, y)
  {
    if x.Alpha? && y.Alpha? { LessTrichotomy(x.s, y.s); }
  }

  lemma BelowNext(a: seq<Id>, b: seq<Id>, k: nat)
    requires a != [] && b != [] && a[0] == b[0]
    ensures BelowAt(a[1..], b[1..], k) <==> BelowAt(a, b, k + 1)
  {
    if k < |a| && k < |b| {
      assert a[..k + 1] == [a[0]] + a[1..][..k] && b[..k + 1] == [b[0]] + b[1..][..k];
      assert a[1..][..k] == a[..k + 1][1..] && b[1..][..k] == b[..k + 1][1..];
    }
  }

  lemma HeadsAgree(a: seq<Id>, b: seq<Id>, k: nat)
    requires BelowAt(a, b, k)
    ensures k == 0 || a[0] == b[0]
  {
    if k > 0 { assert a[..k][0] == b[..k][0]; }
  }

  lemma {:induction false} ListsBelow(a: seq<Id>, b: seq<Id>)
    ensures CompareIds(a, b) < 0 <==> exists k: nat :: BelowAt(a, b, k)
  {
    if a == [] || b == [] {
      assert b != [] ==> BelowAt(a, b, 0);
    } else {
      BelowIff(a[0], b[0]);
      IdsDiffer(a[0], b[0]);
      ListsBelow(a[1..], b[1..]);
      if a[0] == b[0] {
        BelowTail(a, b);
      } else {
        assert IdBelow(a[0], b[0]) ==> BelowAt(a, b, 0);
        forall k: nat | BelowAt(a, b, k) ensures k == 0 { HeadsAgree(a, b, k); }
      }
    }
  }

  lemma BelowTail(a: seq<Id>, b: seq<Id>)
    requires a != [] && b != [] && a[0] == b[0]
    ensures (exists k: nat :: BelowAt(a[1..], b[1..], k)) <==> exists k: nat :: BelowAt(a, b, k)
  {
    if k: nat :| BelowAt(a[1..], b[1..], k) { BelowNext(a, b, k); }
    if k: nat :| BelowAt(a, b, k) {
      IdsDiffer(a[0], b[0]);
      BelowIff(a[0], b[0]);
      assert k > 0;
      BelowNext(a, b, k - 1);
    }
  }

  /** The comparison is the precedence of section 11. */
  lemma PrecedenceIff(a: Version, b: Version)
    ensures CompareSemver(a, b) < 0 <==> Precedes(a, b)
  {
    ListsBelow(a.prerelease, b.prerelease);
  }

  // ------------------------------------------------------------------ transitions

  datatype Transition = Upgrade | Downgrade | Same | Unknown

  function TransitionOf(a: Option<Version>, b: Option<Version>): Transition {
    if a.None? || b.None? then Unknown
    else
      var c := CompareSemver(a.value, b.value);
      if c < 0 then Upgrade else if c > 0 then Downgrade else Same
  }

  function SemverTransition(from: string, to: string): Transition { TransitionOf(ParseSemver(from), ParseSemver(to)) }

  lemma TransitionOfBack(a: Option<Version>, b: Option<Version>)
    ensures TransitionOf(a, b) == Upgrade <==> TransitionOf(b, a) == Downgrade
    ensures TransitionOf(a, b) == Same <==> a.Some? && b.Some? && SameBut(a.value, b.value)
  {
    if a.Some? && b.Some? { VersionsDiffer(a.value, b.value); }
  }

  /** Going back from an upgrade is a downgrade; `same` is equality ignoring build metadata. */
  lemma TransitionBack(from: string, to: string)
    ensures SemverTransition(from, to) == Unknown <==> ParseSemver(from).None? || ParseSemver(to).None?
    ensures SemverTransition(from, to) == Upgrade && ParseSemver(from).Some? && ParseSemver(to).Some? ==>
      Precedes(ParseSemver(from).value, ParseSemver(to).value)
    ensures SemverTransition(from, to) == Upgrade <==> SemverTransition(to, from) == Downgrade
    ensures SemverTransition(from, to) == Same <==>
      ParseSemver(from).Some? && ParseSemver(to).Some? && SameBut(ParseSemver(from).value, ParseSemver(to).value)
  {
    TransitionOfBack(ParseSemver(from), ParseSemver(to));
    if ParseSemver(from).Some? && ParseSemver(to).Some? { PrecedenceIff(ParseSemver(from).value, ParseSemver(to).value); }
  }
}
