/** The grammar of versions, written out (sections 2, 9 and 10 of Semantic Versioning 2.0.0). */
module SemverGrammar {
  import opened Text
  import opened Sequences
  import opened Splitting
  import opened Semver
  import opened SemverText

  /** ASCII letters, digits and the hyphen. */
  predicate IdentifierChar(c: char) { 'A' <= c <= 'Z' || 'a' <= c <= 'z' || '0' <= c <= '9' || c == '-' }

  predicate Identifier(s: string) { s != "" && forall i :: 0 <= i < |s| ==> IdentifierChar(s[i]) }

  /** An identifier of a prerelease: a number, or an identifier that is not all digits. */
  predicate PrereleaseId(id: Id) {
    match id
    case Num(_) => true
    case Alpha(s) => Identifier(s) && exists i :: 0 <= i < |s| && !('0' <= s[i] <= '9')
  }

  predicate Standard(v: Version) {
    && (forall i :: 0 <= i < |v.prerelease| ==> PrereleaseId(v.prerelease[i]))
    && (forall i :: 0 <= i < |v.build| ==> Identifier(v.build[i]))
  }

  function Dotted(parts: seq<string>): string {
    if parts == [] then "" else if |parts| == 1 then parts[0] else Dotted(parts[..|parts| - 1]) + "." + parts[|parts| - 1]
  }

  function Shown(id: Id): string {
    match id
    case Num(n) => Decimal(n)
    case Alpha(s) => s
  }

  function AllShown(ids: seq<Id>): seq<string> { seq(|ids|, i requires 0 <= i < |ids| => Shown(ids[i])) }

  /** Three numbers, a prerelease after a hyphen, and build metadata after a plus. */
  function StandardText(v: Version): string {
    Decimal(v.major) + "." + Decimal(v.minor) + "." + Decimal(v.patch)
    + ((if v.prerelease == [] then "" else "-" + Dotted(AllShown(v.prerelease)))
       + (if v.build == [] then "" else "+" + Dotted(v.build)))
  }

  lemma {:induction false} JoinLast(parts: seq<string>, last: string)
    requires parts != []
    ensures Join(parts + [last], '.') == Join(parts, '.') + "." + last
  {
    var all := parts + [last];
    assert all[1..] == parts[1..] + [last] && all[0] == parts[0];
    if |parts| == 1 {
      assert parts[1..] == [] && all[1..] == [last];
      assert Join(all, '.') == parts[0] + ['.'] + Join([last], '.');
    } else {
      JoinLast(parts[1..], last);
      Rejoined(parts[0], Join(parts[1..], '.'), last);
    }
  }

  lemma Rejoined(a: string, b: string, c: string)
    ensures a + "." + (b + "." + c) == a + "." + b + "." + c
  {}

  lemma {:induction false} JoinIsDotted(parts: seq<string>)
    requires parts != []
    ensures Join(parts, '.') == Dotted(parts)
  {
    if |parts| > 1 {
      SplitLast(parts);
      JoinIsDotted(parts[..|parts| - 1]);
      JoinLast(parts[..|parts| - 1], parts[|parts| - 1]);
    }
  }

  lemma {:induction false} TextsAreShown(ids: seq<Id>)
    ensures IdTexts(ids) == AllShown(ids)
  {
    if ids != [] {
      TextsAreShown(ids[1..]);
      assert AllShown(ids) == [Shown(ids[0])] + AllShown(ids[1..]);
    }
  }

  lemma FormatIs(v: Version)
    ensures FormatSemver(v) == StandardText(v)
  {
    TextsAreShown(v.prerelease);
    if v.prerelease != [] { JoinIsDotted(AllShown(v.prerelease)); }
    if v.build != [] { JoinIsDotted(v.build); }
  }

  lemma {:induction false} AllOfIff(s: string)
    ensures AllOf(s, IdChar) <==> forall i :: 0 <= i < |s| ==> IdentifierChar(s[i])
  {
    if s != "" {
      AllOfIff(s[1..]);
      HeadTail(s);
    }
  }

  lemma GoodIdIff(id: Id)
    ensures GoodId(id) <==> PrereleaseId(id)
  {
    match id
    case Num(_) =>
    case Alpha(s) => AllOfIff(s);
  }

  lemma StandardIff(v: Version)
    ensures WellFormed(v) <==> Standard(v)
  {
    forall i | 0 <= i < |v.prerelease| ensures GoodId(v.prerelease[i]) <==> PrereleaseId(v.prerelease[i]) {
      GoodIdIff(v.prerelease[i]);
    }
    forall i | 0 <= i < |v.build| ensures GoodBuild(v.build[i]) <==> Identifier(v.build[i]) { AllOfIff(v.build[i]); }
  }

  /** A text parses to a version exactly when, but for white space around it, it is the standard text of that version. */
  lemma ParsesIff(s: string, v: Version)
    ensures ParseSemver(s) == Some(v) <==> Standard(v) && Trim(s) == StandardText(v)
  {
    StandardIff(v);
    FormatIs(v);
    if ParseSemver(s) == Some(v) { FormatOfParse(s); }
    if Standard(v) && Trim(s) == StandardText(v) {
      ParseOfFormat(v);
      TrimTwice(s);
    }
  }
}
