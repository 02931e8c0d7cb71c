/** `split` and `join` on one character. */
module Splitting {

  function Split(s: string, sep: char): (parts: seq<string>)
    ensures parts != []
  {
    if s == "" then [""]
    else
      var rest := Split(s[1..], sep);
      if s[0] == sep then [""] + rest else [[s[0]] + rest[0]] + rest[1..]
  }

  function Join(parts: seq<string>, sep: char): string {
    if parts == [] then "" else if |parts| == 1 then parts[0] else parts[0] + [sep] + Join(parts[1..], sep)
  }

  ghost predicate Lacks(s: string, c: char) { forall i :: 0 <= i < |s| ==> s[i] != c }

  ghost predicate AllLack(parts: seq<string>, c: char) { forall i :: 0 <= i < |parts| ==> Lacks(parts[i], c) }

  /** Every character satisfies `ok`. */
  predicate AllOf(s: string, ok: char -> bool) { s == "" || (ok(s[0]) && AllOf(s[1..], ok)) }

  predicate PartsOf(parts: seq<string>, ok: char -> bool) { parts == [] || (AllOf(parts[0], ok) && PartsOf(parts[1..], ok)) }

  function OrSeparator(sep: char, ok: char -> bool): char -> bool { (c: char) => c == sep || ok(c) }

  lemma JoinHead(p: string, x: string, rest: seq<string>, sep: char)
    ensures Join([p + x] + rest, sep) == p + Join([x] + rest, sep)
  {
    if rest != [] {
      assert ([p + x] + rest)[1..] == rest && ([x] + rest)[1..] == rest;
    }
  }

  lemma {:induction false} JoinOfSplit(s: string, sep: char)
    ensures Join(Split(s, sep), sep) == s
  {
    if s != "" {
      var rest := Split(s[1..], sep);
      JoinOfSplit(s[1..], sep);
      assert rest == [rest[0]] + rest[1..] && s == [s[0]] + s[1..];
      if s[0] == sep {
        assert ([""] + rest)[1..] == rest;
        assert "" + [sep] + s[1..] == s;
      } else {
        JoinHead([s[0]], rest[0], rest[1..], sep);
      }
    }
  }

  lemma {:induction false} SplitOfLacking(s: string, sep: char)
    requires Lacks(s, sep)
    ensures Split(s, sep) == [s]
  {
    if s != "" {
      SplitOfLacking(s[1..], sep);
      assert s == [s[0]] + s[1..];
    }
  }

  lemma {:induction false} SplitAfter(p: string, rest: string, sep: char)
    requires Lacks(p, sep)
    ensures Split(p + [sep] + rest, sep) == [p] + Split(rest, sep)
  {
    var s := p + [sep] + rest;
    if p == "" {
      assert s == [sep] + rest && s[1..] == rest;
    } else {
      SplitAfter(p[1..], rest, sep);
      assert s[1..] == p[1..] + [sep] + rest && p == [p[0]] + p[1..];
    }
  }

  lemma {:induction false} SplitOfJoin(parts: seq<string>, sep: char)
    requires parts != [] && AllLack(parts, sep)
    ensures Split(Join(parts, sep), sep) == parts
  {
    if |parts| == 1 {
      SplitOfLacking(parts[0], sep);
    } else {
      SplitOfJoin(parts[1..], sep);
      SplitAfter(parts[0], Join(parts[1..], sep), sep);
      assert parts == [parts[0]] + parts[1..];
    }
  }

  /** Apart from the separator, a text and its parts have the same characters. */
  lemma {:induction false} PartsKeep(s: string, sep: char, ok: char -> bool)
    ensures PartsOf(Split(s, sep), ok) ==> AllOf(s, OrSeparator(sep, ok))
    ensures AllOf(s, OrSeparator(sep, ok)) && !ok(sep) ==> PartsOf(Split(s, sep), ok)
  {
    if s != "" {
      var rest := Split(s[1..], sep);
      PartsKeep(s[1..], sep, ok);
      assert rest == [rest[0]] + rest[1..];
      if s[0] == sep {
        assert ([""] + rest)[1..] == rest;
      } else {
        var parts := [[s[0]] + rest[0]] + rest[1..];
        assert parts[1..] == rest[1..] && parts[0][1..] == rest[0];
      }
    }
  }
}
