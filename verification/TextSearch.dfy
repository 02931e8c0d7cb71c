/** Query matching and the place of its first match (apps/server/src/common/text-search.ts). */
module TextSearch {

  /** Letters and numbers, as the regular expressions' `\p{L}\p{N}` class. */
  type Class = char -> bool

  // ---------------------------------------------------------------------- tokens

  /** The end of the run of characters from `i` whose class is `inside`. */
  function RunEnd(alnum: Class, s: string, i: nat, inside: bool): (n: nat)
    requires i <= |s|
    ensures i <= n <= |s| && (n < |s| ==> alnum(s[n]) != inside)
    decreases |s| - i
  {
    if i < |s| && alnum(s[i]) == inside then RunEnd(alnum, s, i + 1, inside) else i
  }

  /** `split` at runs of separators: the words between them, empty ones at the ends. */
  function SplitWords(alnum: Class, s: string): seq<string>
    decreases |s|
  {
    var n := RunEnd(alnum, s, 0, true);
    if n == |s| then [s]
    else
      var m := RunEnd(alnum, s, n, false);
      StepsOn(alnum, s, n, false);
      [s[..n]] + SplitWords(alnum, s[m..])
  }

  function NonEmpty(words: seq<string>): seq<string> {
    if words == [] then [] else (if words[0] == "" then [] else [words[0]]) + NonEmpty(words[1..])
  }

  function SearchTokens(alnum: Class, folded: string): seq<string> { NonEmpty(SplitWords(alnum, folded)) }

  datatype Match = Match(index: nat, token: string)

  /** `matchAll` from position `i`: the runs of letters and numbers, each with its place. */
  function MatchAll(alnum: Class, s: string, i: nat): seq<Match>
    requires i <= |s|
    decreases |s| - i
  {
    if i == |s| then []
    else if !alnum(s[i]) then MatchAll(alnum, s, i + 1)
    else
      var n := RunEnd(alnum, s, i, true);
      StepsOn(alnum, s, i, true);
      [Match(i, s[i..n])] + MatchAll(alnum, s, n)
  }

  lemma StepsOn(alnum: Class, s: string, i: nat, inside: bool)
    requires i < |s| && alnum(s[i]) == inside
    ensures RunEnd(alnum, s, i, inside) > i
  {}

  function Tokens(ms: seq<Match>): seq<string> { if ms == [] then [] else [ms[0].token] + Tokens(ms[1..]) }

  predicate MatchesSearchQuery(alnum: Class, fold: string -> string, haystack: string, needle: string) {
    var need := SearchTokens(alnum, needle);
    var hay := SearchTokens(alnum, fold(haystack));
    && needle != "" && need != [] && hay != []
    && forall i :: 0 <= i < |need| ==> exists j :: 0 <= j < |hay| && need[i] <= hay[j]
  }

  predicate StartsWithAny(token: string, need: seq<string>) { exists i :: 0 <= i < |need| && need[i] <= token }

  /** The first match that starts with a query token, or -1. */
  function FirstIndex(ms: seq<Match>, need: seq<string>): int {
    if ms == [] then -1 else if StartsWithAny(ms[0].token, need) then ms[0].index else FirstIndex(ms[1..], need)
  }

  function FirstTokenMatchIndex(alnum: Class, fold: string -> string, haystack: string, needle: string): int {
    var need := SearchTokens(alnum, needle);
    if needle == "" || need == [] then -1 else FirstIndex(MatchAll(alnum, fold(haystack), 0), need)
  }

  /** The scan that stops at the first match. */
  method FindTokenMatch(alnum: Class, fold: string -> string, haystack: string, needle: string) returns (r: int)
    ensures r == FirstTokenMatchIndex(alnum, fold, haystack, needle)
  {
    if needle == "" { return -1; }
    var need := SearchTokens(alnum, needle);
    if |need| == 0 { return -1; }
    var matches := MatchAll(alnum, fold(haystack), 0);
    var k := 0;
    while k < |matches|
      invariant k <= |matches| && FirstIndex(matches[k..], need) == FirstIndex(matches, need)
    {
      assert matches[k..][1..] == matches[k + 1..];
      if StartsWithAny(matches[k].token, need) { return matches[k].index; }
      k := k + 1;
    }
    r := -1;
  }

  // ------------------------------------------------------------- two tokenizers agree

  lemma {:induction false} RunEndShift(alnum: Class, s: string, m: nat, k: nat, inside: bool)
    requires m <= k <= |s|
    ensures RunEnd(alnum, s[m..], k - m, inside) == RunEnd(alnum, s, k, inside) - m
    decreases |s| - k
  {
    if k < |s| && alnum(s[k]) == inside { RunEndShift(alnum, s, m, k + 1, inside); }
  }

  lemma {:induction false} SkipRun(alnum: Class, s: string, i: nat)
    requires i <= |s|
    ensures MatchAll(alnum, s, i) == MatchAll(alnum, s, RunEnd(alnum, s, i, false))
    decreases |s| - i
  {
    if i < |s| && !alnum(s[i]) { SkipRun(alnum, s, i + 1); }
  }

  lemma SliceOfSlice(s: string, i: nat, n: nat)
    requires i <= n <= |s|
    ensures s[i..][..n - i] == s[i..n] && s[i..][n - i..] == s[n..]
  {}

  lemma SplitOnce(alnum: Class, t: string, n: nat, m: nat, w: string, rest: string)
    requires n < |t| && RunEnd(alnum, t, 0, true) == n && RunEnd(alnum, t, n, false) == m
    requires t[..n] == w && t[m..] == rest
    ensures SplitWords(alnum, t) == [w] + SplitWords(alnum, rest)
  {}

  lemma SplitNever(alnum: Class, t: string)
    requires RunEnd(alnum, t, 0, true) == |t|
    ensures SplitWords(alnum, t) == [t]
  {}

  lemma SplitAt(alnum: Class, s: string, i: nat, n: nat)
    requires i <= n < |s| && n == RunEnd(alnum, s, i, true)
    ensures SplitWords(alnum, s[i..]) == [s[i..n]] + SplitWords(alnum, s[RunEnd(alnum, s, n, false)..])
  {
    var m := RunEnd(alnum, s, n, false);
    RunEndShift(alnum, s, i, i, true);
    RunEndShift(alnum, s, i, n, false);
    SliceOfSlice(s, i, n);
    SliceOfSlice(s, i, m);
    SplitOnce(alnum, s[i..], n - i, m - i, s[i..n], s[m..]);
  }

  lemma ScanAt(alnum: Class, s: string, i: nat)
    requires i <= |s|
    ensures var n := RunEnd(alnum, s, i, true);
      MatchAll(alnum, s, i) ==
        (if i < n then [Match(i, s[i..n])] else []) + MatchAll(alnum, s, RunEnd(alnum, s, n, false))
  {
    var n := RunEnd(alnum, s, i, true);
    SkipRun(alnum, s, n);
    if i < |s| && alnum(s[i]) { StepsOn(alnum, s, i, true); }
    assert [] + MatchAll(alnum, s, n) == MatchAll(alnum, s, n);
  }

  lemma NonEmptyOf(w: string, rest: seq<string>)
    ensures NonEmpty([w] + rest) == (if w == "" then [] else [w]) + NonEmpty(rest)
  {
    assert ([w] + rest)[1..] == rest;
  }

  lemma TokensOf(i: nat, w: string, rest: seq<Match>)
    ensures Tokens((if w == "" then [] else [Match(i, w)]) + rest) == (if w == "" then [] else [w]) + Tokens(rest)
  {
    if w == "" {
      assert [] + rest == rest;
    } else {
      assert ([Match(i, w)] + rest)[1..] == rest;
    }
  }

  /** From any position, the words left after splitting are the tokens the scan finds. */
  lemma {:induction false} SplitIsScan(alnum: Class, s: string, i: nat)
    requires i <= |s|
    ensures SearchTokens(alnum, s[i..]) == Tokens(MatchAll(alnum, s, i))
    decreases |s| - i
  {
    var n := RunEnd(alnum, s, i, true);
    var m := RunEnd(alnum, s, n, false);
    ScanAt(alnum, s, i);
    TokensOf(i, s[i..n], MatchAll(alnum, s, m));
    if n < |s| {
      SplitAt(alnum, s, i, n);
      StepsOn(alnum, s, n, false);
      NonEmptyOf(s[i..n], SplitWords(alnum, s[m..]));
      SplitIsScan(alnum, s, m);
    } else {
      RunEndShift(alnum, s, i, i, true);
      SplitNever(alnum, s[i..]);
      NonEmptyOf(s[i..n], []);
      assert s[i..] == s[i..n] && [s[i..n]] + [] == [s[i..n]];
    }
  }

  /** Splitting and scanning give the same tokens, for every text. */
  lemma TokenizersAgree(alnum: Class, s: string)
    ensures SearchTokens(alnum, s) == Tokens(MatchAll(alnum, s, 0))
  {
    SplitIsScan(alnum, s, 0);
    assert s[0..] == s;
  }

  // ----------------------------------------------------------------- the first match

  /** `s[p..q]` is a token: a run of letters and numbers that cannot be longer at either end. */
  ghost predicate IsToken(alnum: Class, s: string, p: nat, q: nat) {
    && p < q <= |s| && (forall k :: p <= k < q ==> alnum(s[k]))
    && (p > 0 ==> !alnum(s[p - 1])) && (q < |s| ==> !alnum(s[q]))
  }

  lemma {:induction false} RunHolds(alnum: Class, s: string, i: nat, inside: bool, k: nat)
    requires i <= |s| && i <= k < RunEnd(alnum, s, i, inside)
    ensures alnum(s[k]) == inside
    decreases |s| - i
  {
    if i < k { RunHolds(alnum, s, i + 1, inside, k); }
  }

  /** The run from the start of a token ends where the token does. */
  lemma {:induction false} RunIsToken(alnum: Class, s: string, i: nat, q: nat)
    requires i <= q <= |s| && (forall k :: i <= k < q ==> alnum(s[k])) && (q < |s| ==> !alnum(s[q]))
    ensures RunEnd(alnum, s, i, true) == q
    decreases q - i
  {
    if i < q { RunIsToken(alnum, s, i + 1, q); }
  }

  /** A place to scan from: not inside a token. */
  ghost predicate Boundary(alnum: Class, s: string, i: nat)
    requires i <= |s|
  {
    i == 0 || i == |s| || !alnum(s[i - 1]) || !alnum(s[i])
  }

  /** The scan's matches are tokens, and every token is among them. */
  lemma {:induction false} ScanFindsTokens(alnum: Class, s: string, i: nat)
    requires i <= |s| && Boundary(alnum, s, i)
    ensures forall m :: m in MatchAll(alnum, s, i) ==>
      i <= m.index && IsToken(alnum, s, m.index, m.index + |m.token|) && s[m.index..m.index + |m.token|] == m.token
    ensures forall p: nat, q: nat :: i <= p && IsToken(alnum, s, p, q) ==> Match(p, s[p..q]) in MatchAll(alnum, s, i)
    decreases |s| - i
  {
    if i < |s| && !alnum(s[i]) {
      ScanFindsTokens(alnum, s, i + 1);
    } else if i < |s| {
      var n := RunEnd(alnum, s, i, true);
      StepsOn(alnum, s, i, true);
      forall k | i <= k < n ensures alnum(s[k]) { RunHolds(alnum, s, i, true, k); }
      ScanFindsTokens(alnum, s, n);
      forall p: nat, q: nat | i < p < n ensures !IsToken(alnum, s, p, q) { assert alnum(s[p - 1]); }
      forall p: nat, q: nat | i <= p && IsToken(alnum, s, p, q) ensures Match(p, s[p..q]) in MatchAll(alnum, s, i) {
        if p == i { RunIsToken(alnum, s, i, q); }
      }
    }
  }

  /** The matches come in the order of their places. */
  lemma {:induction false} ScanInOrder(alnum: Class, s: string, i: nat, a: nat, b: nat)
    requires i <= |s| && a < b < |MatchAll(alnum, s, i)|
    ensures MatchAll(alnum, s, i)[a].index < MatchAll(alnum, s, i)[b].index
    decreases |s| - i
  {
    if !alnum(s[i]) {
      ScanInOrder(alnum, s, i + 1, a, b);
    } else {
      var n := RunEnd(alnum, s, i, true);
      StepsOn(alnum, s, i, true);
      if a > 0 { ScanInOrder(alnum, s, n, a - 1, b - 1); } else { ScanFrom(alnum, s, n, b - 1); }
    }
  }

  lemma {:induction false} ScanFrom(alnum: Class, s: string, i: nat, k: nat)
    requires i <= |s| && k < |MatchAll(alnum, s, i)|
    ensures MatchAll(alnum, s, i)[k].index >= i
    decreases |s| - i
  {
    if !alnum(s[i]) {
      ScanFrom(alnum, s, i + 1, k);
    } else {
      StepsOn(alnum, s, i, true);
      if k > 0 { ScanFrom(alnum, s, RunEnd(alnum, s, i, true), k - 1); }
    }
  }

  lemma {:induction false} FirstIndexHolds(ms: seq<Match>, need: seq<string>)
    requires forall a, b :: 0 <= a < b < |ms| ==> ms[a].index < ms[b].index
    ensures FirstIndex(ms, need) == -1 <==> forall m :: m in ms ==> !StartsWithAny(m.token, need)
    ensures FirstIndex(ms, need) != -1 ==>
      exists m :: m in ms && m.index == FirstIndex(ms, need) && StartsWithAny(m.token, need)
    ensures forall m :: m in ms && StartsWithAny(m.token, need) ==> 0 <= FirstIndex(ms, need) <= m.index
  {
    if ms != [] {
      FirstIndexHolds(ms[1..], need);
      assert ms == [ms[0]] + ms[1..];
      if StartsWithAny(ms[0].token, need) { assert ms[0] in ms; }
    }
  }

  /** A token at `p` that starts with some query token. */
  ghost predicate MatchesAt(alnum: Class, folded: string, need: seq<string>, p: nat, q: nat) {
    IsToken(alnum, folded, p, q) && StartsWithAny(folded[p..q], need)
  }

  /** The index is the least start of a token that has a query token as prefix, or -1 when there is no such token. */
  lemma FirstIndexIsLeast(alnum: Class, folded: string, need: seq<string>)
    ensures var r := FirstIndex(MatchAll(alnum, folded, 0), need);
      && (r != -1 ==> exists q: nat :: 0 <= r && MatchesAt(alnum, folded, need, r, q))
      && forall p: nat, q: nat :: MatchesAt(alnum, folded, need, p, q) ==> 0 <= r <= p
  {
    var ms := MatchAll(alnum, folded, 0);
    var r := FirstIndex(ms, need);
    ScanFindsTokens(alnum, folded, 0);
    forall a, b | 0 <= a < b < |ms| ensures ms[a].index < ms[b].index { ScanInOrder(alnum, folded, 0, a, b); }
    FirstIndexHolds(ms, need);
    if r != -1 {
      var m :| m in ms && m.index == r && StartsWithAny(m.token, need);
      assert MatchesAt(alnum, folded, need, m.index, m.index + |m.token|);
    }
    forall p: nat, q: nat | MatchesAt(alnum, folded, need, p, q) ensures 0 <= r <= p {
      assert Match(p, folded[p..q]) in ms;
    }
  }

  /** Whenever the query matches, the snippet index is the least start of a token with some query token as prefix. */
  lemma MatchHasIndex(alnum: Class, fold: string -> string, haystack: string, needle: string)
    requires MatchesSearchQuery(alnum, fold, haystack, needle)
    ensures var r := FirstTokenMatchIndex(alnum, fold, haystack, needle);
      var need := SearchTokens(alnum, needle);
      && 0 <= r && (exists q: nat :: MatchesAt(alnum, fold(haystack), need, r, q))
      && forall p: nat, q: nat :: MatchesAt(alnum, fold(haystack), need, p, q) ==> r <= p
  {
    var need := SearchTokens(alnum, needle);
    var hay := SearchTokens(alnum, fold(haystack));
    FirstIndexIsLeast(alnum, fold(haystack), need);
    assert exists j :: 0 <= j < |hay| && need[0] <= hay[j];
    var j :| 0 <= j < |hay| && need[0] <= hay[j];
    PrefixIsMatch(alnum, fold(haystack), need, 0, j);
  }

  lemma PrefixIsMatch(alnum: Class, folded: string, need: seq<string>, i: nat, j: nat)
    requires i < |need| && j < |SearchTokens(alnum, folded)| && need[i] <= SearchTokens(alnum, folded)[j]
    ensures exists p: nat, q: nat :: MatchesAt(alnum, folded, need, p, q)
  {
    var ms := MatchAll(alnum, folded, 0);
    TokenizersAgree(alnum, folded);
    TokenOfMatch(ms, j);
    ScanFindsTokens(alnum, folded, 0);
    assert ms[j] in ms && StartsWithAny(ms[j].token, need);
    assert MatchesAt(alnum, folded, need, ms[j].index, ms[j].index + |ms[j].token|);
  }

  lemma {:induction false} TokenOfMatch(ms: seq<Match>, j: nat)
    requires j < |Tokens(ms)|
    ensures j < |ms| && Tokens(ms)[j] == ms[j].token
  {
    if j > 0 { TokenOfMatch(ms[1..], j - 1); }
  }

  // ------------------------------------------------------------- what matches

  /** A letter or number stands in the text. */
  predicate HasToken(alnum: Class, s: string) { exists i :: 0 <= i < |s| && alnum(s[i]) }

  /** The text has a token that starts with the given one. */
  ghost predicate Prefixed(alnum: Class, s: string, token: string) {
    exists p: nat, q: nat :: IsToken(alnum, s, p, q) && token <= s[p..q]
  }

  lemma {:induction false} MatchIn(ms: seq<Match>, m: Match)
    requires m in ms
    ensures m.token in Tokens(ms)
  {
    if ms[0] != m {
      assert ms == [ms[0]] + ms[1..];
      MatchIn(ms[1..], m);
    }
  }

  lemma {:induction false} TokenIn(ms: seq<Match>, token: string) returns (m: Match)
    requires token in Tokens(ms)
    ensures m in ms && m.token == token
  {
    if ms[0].token == token { m := ms[0]; } else { m := TokenIn(ms[1..], token); }
  }

  /** The tokens of a text are its maximal runs of letters and numbers. */
  lemma TokensAreRuns(alnum: Class, s: string, token: string)
    ensures token in SearchTokens(alnum, s) <==> exists p: nat, q: nat :: IsToken(alnum, s, p, q) && s[p..q] == token
  {
    TokenizersAgree(alnum, s);
    ScanFindsTokens(alnum, s, 0);
    if token in SearchTokens(alnum, s) {
      var m := TokenIn(MatchAll(alnum, s, 0), token);
      assert IsToken(alnum, s, m.index, m.index + |m.token|);
    }
    if p: nat, q: nat :| IsToken(alnum, s, p, q) && s[p..q] == token { MatchIn(MatchAll(alnum, s, 0), Match(p, token)); }
  }

  lemma PrefixedIff(alnum: Class, s: string, token: string)
    ensures Prefixed(alnum, s, token) <==> exists t :: t in SearchTokens(alnum, s) && token <= t
  {
    if p: nat, q: nat :| IsToken(alnum, s, p, q) && token <= s[p..q] { TokensAreRuns(alnum, s, s[p..q]); }
    if t :| t in SearchTokens(alnum, s) && token <= t { TokensAreRuns(alnum, s, t); }
  }

  lemma {:induction false} RunStart(alnum: Class, s: string, i: nat) returns (p: nat, q: nat)
    requires i < |s| && alnum(s[i])
    ensures IsToken(alnum, s, p, q)
  {
    p := i;
    while p > 0 && alnum(s[p - 1])
      invariant p <= i && forall k :: p <= k <= i ==> alnum(s[k])
    {
      p := p - 1;
    }
    q := i + 1;
    while q < |s| && alnum(s[q])
      invariant i < q <= |s| && forall k :: p <= k < q ==> alnum(s[k])
    {
      q := q + 1;
    }
  }

  lemma HasTokenIff(alnum: Class, s: string)
    ensures HasToken(alnum, s) <==> SearchTokens(alnum, s) != []
  {
    var tokens := SearchTokens(alnum, s);
    if HasToken(alnum, s) {
      var i :| 0 <= i < |s| && alnum(s[i]);
      var p, q := RunStart(alnum, s, i);
      TokensAreRuns(alnum, s, s[p..q]);
    }
    if tokens != [] {
      assert tokens[0] in tokens;
      TokensAreRuns(alnum, s, tokens[0]);
      var p: nat, q: nat :| IsToken(alnum, s, p, q) && s[p..q] == tokens[0];
      assert alnum(s[p]);
    }
  }

  /** Each token of the query starts some token of the text. */
  ghost predicate AllPrefixed(alnum: Class, text: string, needle: string) {
    forall p: nat, q: nat :: IsToken(alnum, needle, p, q) ==> Prefixed(alnum, text, needle[p..q])
  }

  predicate StartsSome(token: string, hay: seq<string>) { exists j :: 0 <= j < |hay| && token <= hay[j] }

  lemma StartsSomeIff(alnum: Class, text: string, token: string)
    ensures StartsSome(token, SearchTokens(alnum, text)) <==> Prefixed(alnum, text, token)
  {
    var hay := SearchTokens(alnum, text);
    PrefixedIff(alnum, text, token);
    if StartsSome(token, hay) {
      var j :| 0 <= j < |hay| && token <= hay[j];
      assert hay[j] in hay;
    }
  }

  lemma AllPrefixedIff(alnum: Class, text: string, needle: string)
    ensures AllPrefixed(alnum, text, needle) <==>
      forall token :: token in SearchTokens(alnum, needle) ==> StartsSome(token, SearchTokens(alnum, text))
  {
    var need, hay := SearchTokens(alnum, needle), SearchTokens(alnum, text);
    if AllPrefixed(alnum, text, needle) {
      forall token | token in need ensures StartsSome(token, hay) {
        TokensAreRuns(alnum, needle, token);
        StartsSomeIff(alnum, text, token);
      }
    }
    if forall token :: token in need ==> StartsSome(token, hay) {
      forall p: nat, q: nat | IsToken(alnum, needle, p, q) ensures Prefixed(alnum, text, needle[p..q]) {
        TokensAreRuns(alnum, needle, needle[p..q]);
        StartsSomeIff(alnum, text, needle[p..q]);
      }
    }
  }

  /** A query matches a text when it has a token, and each of its tokens starts some token of the folded text. */
  lemma MatchesIff(alnum: Class, fold: string -> string, haystack: string, needle: string)
    ensures MatchesSearchQuery(alnum, fold, haystack, needle) <==>
      HasToken(alnum, needle) && AllPrefixed(alnum, fold(haystack), needle)
  {
    var need, hay := SearchTokens(alnum, needle), SearchTokens(alnum, fold(haystack));
    HasTokenIff(alnum, needle);
    AllPrefixedIff(alnum, fold(haystack), needle);
    if MatchesSearchQuery(alnum, fold, haystack, needle) {
      forall token | token in need ensures StartsSome(token, hay) { var i :| 0 <= i < |need| && need[i] == token; }
    }
    if need != [] && forall token :: token in need ==> StartsSome(token, hay) {
      forall i | 0 <= i < |need| ensures exists j :: 0 <= j < |hay| && need[i] <= hay[j] {
        assert StartsSome(need[i], hay);
      }
      assert need[0] in need;
    }
  }

  /** The index is -1 exactly when no token of the folded text starts with a token of the query. */
  lemma NoIndexIff(alnum: Class, fold: string -> string, haystack: string, needle: string)
    ensures FirstTokenMatchIndex(alnum, fold, haystack, needle) == -1 <==>
      forall p: nat, q: nat :: !MatchesAt(alnum, fold(haystack), SearchTokens(alnum, needle), p, q)
  {
    FirstIndexIsLeast(alnum, fold(haystack), SearchTokens(alnum, needle));
    if needle == "" { HasTokenIff(alnum, needle); }
  }
}
