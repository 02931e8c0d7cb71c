/** Strings as the source uses them: code-unit order, decimal numerals and padding. */
module Text {

  datatype Option<+T> = None | Some(value: T)

  datatype Result<+T, +E> = Ok(value: T) | Err(error: E)

  // ---------------------------------------------------------------- order

  /** `a < b` on two JavaScript strings. */
  predicate Less(a: string, b: string) {
    if b == [] then false
    else if a == [] then true
    else a[0] < b[0] || (a[0] == b[0] && Less(a[1..], b[1..]))
  }

  lemma {:induction false} LessTrichotomy(a: string, b: string)
    ensures Less(a, b) ==> a != b && !Less(b, a)
    ensures !Less(a, b) && !Less(b, a) ==> a == b
  {
    if a != [] && b != [] && a[0] == b[0] {
      LessTrichotomy(a[1..], b[1..]);
      assert a == [a[0]] + a[1..] && b == [b[0]] + b[1..];
    }
  }

  lemma {:induction false} LessTransitive(a: string, b: string, c: string)
    requires Less(a, b) && Less(b, c)
    ensures Less(a, c)
  {
    if a != [] && a[0] == b[0] && b[0] == c[0] {
      LessTransitive(a[1..], b[1..], c[1..]);
    }
  }

  /** Two strings with prefixes of one length compare by the prefixes first. */
  lemma {:induction false} LessByPrefix(a: string, b: string, c: string, d: string)
    requires |a| == |b|
    ensures Less(a + c, b + d) <==> Less(a, b) || (a == b && Less(c, d))
  {
    if a == [] {
      assert a + c == c && b + d == d;
    } else {
      LessByPrefix(a[1..], b[1..], c, d);
      assert (a + c)[1..] == a[1..] + c && (b + d)[1..] == b[1..] + d;
      assert a == [a[0]] + a[1..] && b == [b[0]] + b[1..];
    }
  }

  // ------------------------------------------------------------- numerals

  predicate IsDigit(c: char) { '0' <= c <= '9' }

  predicate AllDigits(s: string) { forall i :: 0 <= i < |s| ==> IsDigit(s[i]) }

  function DigitChar(d: nat): (c: char)
    requires d < 10
    ensures IsDigit(c) && DigitValue(c) == d
  {
    (48 + d) as char
  }

  function DigitValue(c: char): (d: nat)
    requires IsDigit(c)
    ensures d < 10
  {
    c as int - 48
  }

  /** `String(n)` for a non-negative integer. */
  function Decimal(n: nat): (s: string)
    ensures s != [] && AllDigits(s)
  {
    if n < 10 then [DigitChar(n)] else Decimal(n / 10) + [DigitChar(n % 10)]
  }

  /** `Number(s)` for a string of digits. */
  function ParseDecimal(s: string): nat
    requires AllDigits(s)
  {
    if s == [] then 0 else 10 * ParseDecimal(s[..|s| - 1]) + DigitValue(s[|s| - 1])
  }

  /** `String(n)` for any integer. */
  function IntText(n: int): string {
    if n < 0 then "-" + Decimal(-n) else Decimal(n)
  }

  lemma {:induction false} ParseOfDecimal(n: nat)
    ensures ParseDecimal(Decimal(n)) == n
  {
    if n >= 10 {
      ParseOfDecimal(n / 10);
      assert Decimal(n)[..|Decimal(n)| - 1] == Decimal(n / 10);
    } else {
      assert Decimal(n)[..0] == [];
    }
  }

  /** A numeral without a superfluous leading zero. */
  predicate Canonical(s: string) {
    s != [] && AllDigits(s) && (|s| > 1 ==> s[0] != '0')
  }

  lemma {:induction false} DecimalIsCanonical(n: nat)
    ensures Canonical(Decimal(n))
    ensures n > 0 ==> Decimal(n)[0] != '0'
  {
    if n >= 10 {
      DecimalIsCanonical(n / 10);
    }
  }

  lemma {:induction false} DecimalOfParse(s: string)
    requires Canonical(s)
    ensures Decimal(ParseDecimal(s)) == s
    ensures s[0] != '0' ==> ParseDecimal(s) > 0
  {
    var init, last := s[..|s| - 1], s[|s| - 1];
    assert s == init + [last];
    if |s| > 1 {
      DecimalOfParse(init);
    } else {
      assert ParseDecimal(init) == 0;
    }
  }

  /** The first run of digits of `s`. */
  function DigitRun(s: string): (n: nat)
    ensures n <= |s| && AllDigits(s[..n])
    ensures n < |s| ==> !IsDigit(s[n])
  {
    if s == [] || !IsDigit(s[0]) then 0
    else
      var n := 1 + DigitRun(s[1..]);
      assert s[..n] == [s[0]] + s[1..][..n - 1];
      n
  }

  lemma {:induction false} DigitRunOf(a: string, b: string)
    requires AllDigits(a) && (b == "" || !IsDigit(b[0]))
    ensures DigitRun(a + b) == |a|
  {
    if a == "" {
      assert a + b == b;
    } else {
      DigitRunOf(a[1..], b);
      assert (a + b)[1..] == a[1..] + b;
    }
  }

  lemma {:induction false} DigitRunAll(s: string)
    requires AllDigits(s)
    ensures DigitRun(s) == |s|
  {
    if s != "" { DigitRunAll(s[1..]); }
  }

  // -------------------------------------------------------------- padding

  function PadStart(s: string, width: nat): string
    decreases width - |s|
  {
    if |s| >= width then s else PadStart("0" + s, width)
  }

  function Pow10(w: nat): (p: nat)
    ensures p >= 1
  {
    if w == 0 then 1 else 10 * Pow10(w - 1)
  }

  /** The last `w` decimal digits of `n`. */
  function Digits(n: nat, w: nat): (s: string)
    ensures |s| == w && AllDigits(s)
  {
    if w == 0 then [] else Digits(n / 10, w - 1) + [DigitChar(n % 10)]
  }

  lemma {:induction false} ParseOfDigits(n: nat, w: nat)
    requires n < Pow10(w)
    ensures ParseDecimal(Digits(n, w)) == n
  {
    if w > 0 {
      ParseOfDigits(n / 10, w - 1);
      assert Digits(n, w)[..w - 1] == Digits(n / 10, w - 1);
    }
  }

  lemma {:induction false} DigitsOfParse(s: string)
    requires AllDigits(s)
    ensures ParseDecimal(s) < Pow10(|s|) && Digits(ParseDecimal(s), |s|) == s
  {
    if s != [] {
      var init := s[..|s| - 1];
      DigitsOfParse(init);
      assert s == init + [s[|s| - 1]];
    }
  }

  lemma {:induction false} DigitsLeadingZero(n: nat, w: nat)
    requires n < Pow10(w)
    ensures Digits(n, w + 1) == "0" + Digits(n, w)
  {
    if w > 0 {
      DigitsLeadingZero(n / 10, w - 1);
      assert Digits(n, w + 1) == Digits(n / 10, w) + [DigitChar(n % 10)];
      assert "0" + Digits(n, w) == "0" + Digits(n / 10, w - 1) + [DigitChar(n % 10)];
    }
  }

  lemma {:induction false} DecimalIsDigits(n: nat)
    ensures n < Pow10(|Decimal(n)|) && Decimal(n) == Digits(n, |Decimal(n)|)
  {
    if n >= 10 { DecimalIsDigits(n / 10); }
    else { assert Digits(n, 1) == Digits(n / 10, 0) + [DigitChar(n % 10)]; }
  }

  lemma {:induction false} PadDigits(n: nat, k: nat, w: nat)
    requires n < Pow10(k) && k <= w
    ensures PadStart(Digits(n, k), w) == Digits(n, w)
    decreases w - k
  {
    if k < w {
      DigitsLeadingZero(n, k);
      Pow10Grows(k);
      PadDigits(n, k + 1, w);
    }
  }

  lemma Pow10Grows(w: nat)
    ensures Pow10(w + 1) == 10 * Pow10(w)
  {}

  lemma {:induction false} DecimalLength(n: nat, w: nat)
    requires 0 < w && n < Pow10(w)
    ensures |Decimal(n)| <= w
  {
    if n >= 10 { DecimalLength(n / 10, w - 1); }
  }

  /** Padding a number that fits writes exactly its `w` digits. */
  lemma PadFits(n: nat, w: nat)
    requires 0 < w && n < Pow10(w)
    ensures PadStart(Decimal(n), w) == Digits(n, w)
  {
    DecimalLength(n, w);
    DecimalIsDigits(n);
    PadDigits(n, |Decimal(n)|, w);
  }

  /** On numerals of one width, string order is numeric order. */
  lemma {:induction false} DigitsOrder(a: nat, b: nat, w: nat)
    requires a < Pow10(w) && b < Pow10(w)
    ensures Less(Digits(a, w), Digits(b, w)) <==> a < b
  {
    if w > 0 {
      DigitsOrder(a / 10, b / 10, w - 1);
      LessByPrefix(Digits(a / 10, w - 1), Digits(b / 10, w - 1), [DigitChar(a % 10)], [DigitChar(b % 10)]);
      if Digits(a / 10, w - 1) == Digits(b / 10, w - 1) {
        ParseOfDigits(a / 10, w - 1);
        ParseOfDigits(b / 10, w - 1);
      }
      assert Less([DigitChar(a % 10)], [DigitChar(b % 10)]) <==> a % 10 < b % 10;
    }
  }

  // ----------------------------------------------------------- whitespace

  /** JavaScript's `\s`, which is also what `trim` removes. */
  predicate IsSpace(c: char) {
    c == ' ' || '\U{0009}' <= c <= '\U{000d}' || c == '\U{00a0}' || c == '\U{1680}' || '\U{2000}' <= c <= '\U{200a}'
    || c == '\U{2028}' || c == '\U{2029}' || c == '\U{202f}' || c == '\U{205f}' || c == '\U{3000}' || c == '\U{feff}'
  }

  function TrimStart(s: string): (r: string)
    ensures r != [] ==> !IsSpace(r[0])
  {
    if s != [] && IsSpace(s[0]) then TrimStart(s[1..]) else s
  }

  lemma {:induction false} TrimStartShrinks(s: string)
    ensures |TrimStart(s)| <= |s|
  {
    if s != "" { TrimStartShrinks(s[1..]); }
  }

  function TrimEnd(s: string): (r: string)
    ensures r != [] ==> !IsSpace(r[|r| - 1])
    ensures r <= s
  {
    if s != [] && IsSpace(s[|s| - 1]) then TrimEnd(s[..|s| - 1]) else s
  }

  function Trim(s: string): (r: string)
    ensures r != [] ==> !IsSpace(r[0]) && !IsSpace(r[|r| - 1])
  {
    TrimEnd(TrimStart(s))
  }

  predicate NoSpace(s: string) { forall i :: 0 <= i < |s| ==> !IsSpace(s[i]) }

  lemma TrimOfNoSpace(s: string)
    requires s == [] || (!IsSpace(s[0]) && !IsSpace(s[|s| - 1]))
    ensures Trim(s) == s
  {}

  lemma TrimTwice(s: string)
    ensures Trim(Trim(s)) == Trim(s)
  {
    TrimOfNoSpace(Trim(s));
  }

  /** White space only. */
  predicate Blank(s: string) { forall i :: 0 <= i < |s| ==> IsSpace(s[i]) }

  lemma {:induction false} TrimStartBlank(b: string, x: string)
    requires Blank(b)
    ensures TrimStart(b + x) == TrimStart(x)
  {
    if b == "" {
      assert b + x == x;
    } else {
      assert (b + x)[1..] == b[1..] + x;
      TrimStartBlank(b[1..], x);
    }
  }

  lemma {:induction false} TrimEndBlank(x: string, b: string)
    requires Blank(b) && (x == "" || !IsSpace(x[|x| - 1]))
    ensures TrimEnd(x + b) == x
  {
    if b == "" {
      assert x + b == x;
    } else {
      assert (x + b)[..|x + b| - 1] == x + b[..|b| - 1] && (x + b)[|x + b| - 1] == b[|b| - 1];
      TrimEndBlank(x, b[..|b| - 1]);
    }
  }

  lemma {:induction false} LeadingBlank(s: string) returns (blank: string)
    ensures Blank(blank) && s == blank + TrimStart(s)
  {
    blank := "";
    if s != "" && IsSpace(s[0]) {
      var more := LeadingBlank(s[1..]);
      blank := [s[0]] + more;
      assert s == [s[0]] + s[1..];
    }
  }

  lemma {:induction false} TrailingBlank(s: string) returns (blank: string)
    ensures Blank(blank) && s == TrimEnd(s) + blank
  {
    blank := "";
    if s != "" && IsSpace(s[|s| - 1]) {
      var more := TrailingBlank(s[..|s| - 1]);
      blank := more + [s[|s| - 1]];
      assert s == s[..|s| - 1] + [s[|s| - 1]];
    }
  }
}
