/** Two JSON values with the same text are the same value. */
module JsonText {
  import opened Sequences
  import opened Json

  lemma Cancel(a: string, x: string, y: string)
    requires a + x == a + y
    ensures x == y
  {
    assert (a + x)[|a|..] == x && (a + y)[|a|..] == y;
  }

  // --------------------------------------------------------------- characters

  lemma HexDigits(a: nat, b: nat)
    requires a < 16 && b < 16 && HexDigit(a) == HexDigit(b)
    ensures a == b
  {}

  /** The second character of an escape tells which one it is. */
  function EscapeLetter(c: char): char {
    if c == '"' then '"' else if c == '\\' then '\\' else if c == '\U{0008}' then 'b' else if c == '\U{0009}' then 't'
    else if c == '\U{000a}' then 'n' else if c == '\U{000c}' then 'f' else if c == '\U{000d}' then 'r' else 'u'
  }

  predicate IsPlain(c: char) { c != '"' && c != '\\' && c >= ' ' }

  lemma EscapeShape(c: char)
    ensures IsPlain(c) ==> EscapeChar(c) == [c]
    ensures !IsPlain(c) ==> |EscapeChar(c)| >= 2 && EscapeChar(c)[0] == '\\' && EscapeChar(c)[1] == EscapeLetter(c)
    ensures !IsPlain(c) && EscapeLetter(c) == 'u' ==>
      EscapeChar(c) == ['\\', 'u', '0', '0', HexDigit(c as int / 16), HexDigit(c as int % 16)]
  {}

  lemma EscapesDiffer(c: char, d: char, x: string, y: string)
    requires EscapeChar(c) + x == EscapeChar(d) + y
    ensures c == d
  {
    EscapeShape(c);
    EscapeShape(d);
    var s, t := EscapeChar(c) + x, EscapeChar(d) + y;
    assert s[0] == EscapeChar(c)[0] && t[0] == EscapeChar(d)[0];
    if !IsPlain(c) && !IsPlain(d) {
      assert s[1] == EscapeLetter(c) && t[1] == EscapeLetter(d);
      if EscapeLetter(c) == 'u' {
        assert s[4] == HexDigit(c as int / 16) && t[4] == HexDigit(d as int / 16);
        assert s[5] == HexDigit(c as int % 16) && t[5] == HexDigit(d as int % 16);
        HexDigits(c as int / 16, d as int / 16);
        HexDigits(c as int % 16, d as int % 16);
      }
    }
  }

  lemma QuotedStart(s: string, x: string)
    ensures (Quoted(s) + x)[0] == '"' <==> s == ""
  {
    if s != "" { EscapeShape(s[0]); }
  }

  lemma {:induction false} DecodeQuoted(s: string, t: string, x: string, y: string)
    requires Quoted(s) + x == Quoted(t) + y
    ensures s == t && x == y
  {
    QuotedStart(s, x);
    QuotedStart(t, y);
    if s == "" {
      Cancel("\"", x, y);
    } else {
      Assoc(EscapeChar(s[0]), Quoted(s[1..]), x);
      Assoc(EscapeChar(t[0]), Quoted(t[1..]), y);
      EscapesDiffer(s[0], t[0], Quoted(s[1..]) + x, Quoted(t[1..]) + y);
      Cancel(EscapeChar(s[0]), Quoted(s[1..]) + x, Quoted(t[1..]) + y);
      DecodeQuoted(s[1..], t[1..], x, y);
      assert s == [s[0]] + s[1..] && t == [t[0]] + t[1..];
    }
  }

  // ------------------------------------------------------------------- values

  /** What may follow a value inside a text. */
  predicate Stops(x: string) { x == "" || x[0] == ',' || x[0] == ']' || x[0] == '}' }

  function NumberRun(s: string): (n: nat)
    ensures n <= |s|
  {
    if s == "" || !NumberChar(s[0]) then 0 else 1 + NumberRun(s[1..])
  }

  lemma {:induction false} NumberEnds(s: string, x: string)
    requires (forall i :: 0 <= i < |s| ==> NumberChar(s[i])) && Stops(x)
    ensures NumberRun(s + x) == |s|
  {
    if s == "" {
      assert s + x == x;
    } else {
      NumberEnds(s[1..], x);
      assert (s + x)[1..] == s[1..] + x;
    }
  }

  lemma DecodeNumber(s: string, t: string, x: string, y: string)
    requires IsNumberText(s) && IsNumberText(t) && Stops(x) && Stops(y) && s + x == t + y
    ensures s == t && x == y
  {
    NumberEnds(s, x);
    NumberEnds(t, y);
    assert (s + x)[..|s|] == s && (t + y)[..|t|] == t;
    Cancel(s, x, y);
  }

  /** The first character of a value's text. */
  function Lead(v: Value): char
    requires Printable(v)
  {
    match v
    case Null => 'n'
    case Bool(b) => if b then 't' else 'f'
    case Number(text) => text[0]
    case Str(_) => '"'
    case Arr(_) => '['
    case Obj(_) => '{'
  }

  lemma LeadIsFirst(v: Value, x: string)
    requires Printable(v)
    ensures Stringify(v) != "" && (Stringify(v) + x)[0] == Lead(v)
  {}

  lemma LeadTells(a: Value, b: Value)
    requires Printable(a) && Printable(b) && Lead(a) == Lead(b)
    ensures (a.Null? <==> b.Null?) && (a.Bool? <==> b.Bool?) && (a.Number? <==> b.Number?)
    ensures (a.Str? <==> b.Str?) && (a.Arr? <==> b.Arr?) && (a.Obj? <==> b.Obj?) && (a.Bool? ==> a == b)
    ensures Lead(a) != ']'
  {}

  lemma ArrayText(v: Value)
    requires v.Arr?
    ensures Stringify(v) == "[" + ItemsText(v.items)
  {}

  lemma ObjectText(v: Value)
    requires v.Obj?
    ensures Stringify(v) == "{" + FieldsText(v.fields)
  {}

  lemma {:induction false} Decode(a: Value, b: Value, x: string, y: string)
    requires Printable(a) && Printable(b) && Stops(x) && Stops(y) && Stringify(a) + x == Stringify(b) + y
    ensures a == b && x == y
    decreases a, 1
  {
    LeadIsFirst(a, x);
    LeadIsFirst(b, y);
    LeadTells(a, b);
    match a
    case Null => Cancel("null", x, y);
    case Bool(_) => Cancel(Stringify(a), x, y);
    case Number(text) => DecodeNumber(text, b.text, x, y);
    case Str(s) =>
      Assoc("\"", Quoted(s), x);
      Assoc("\"", Quoted(b.s), y);
      Cancel("\"", Quoted(s) + x, Quoted(b.s) + y);
      DecodeQuoted(s, b.s, x, y);
    case Arr(items) =>
      ArrayText(a);
      ArrayText(b);
      Assoc("[", ItemsText(items), x);
      Assoc("[", ItemsText(b.items), y);
      Cancel("[", ItemsText(items) + x, ItemsText(b.items) + y);
      DecodeItems(items, b.items, x, y);
    case Obj(fields) =>
      ObjectText(a);
      ObjectText(b);
      Assoc("{", FieldsText(fields), x);
      Assoc("{", FieldsText(b.fields), y);
      Cancel("{", FieldsText(fields) + x, FieldsText(b.fields) + y);
      DecodeFields(fields, b.fields, x, y);
  }

  predicate AllPrintable(items: seq<Value>) { forall i :: 0 <= i < |items| ==> Printable(items[i]) }

  predicate AllPrintableFields(fields: seq<Field>) { forall i :: 0 <= i < |fields| ==> Printable(fields[i].value) }

  lemma {:induction false} DecodeItems(a: seq<Value>, b: seq<Value>, x: string, y: string)
    requires AllPrintable(a) && AllPrintable(b) && ItemsText(a) + x == ItemsText(b) + y
    ensures a == b && x == y
    decreases a, 0
  {
    FirstItem(a, x);
    FirstItem(b, y);
    if a == [] {
      Cancel("]", x, y);
    } else {
      Assoc(Stringify(a[0]), MoreItems(a[1..]), x);
      Assoc(Stringify(b[0]), MoreItems(b[1..]), y);
      Decode(a[0], b[0], MoreItems(a[1..]) + x, MoreItems(b[1..]) + y);
      DecodeMoreItems(a[1..], b[1..], x, y);
      assert a == [a[0]] + a[1..] && b == [b[0]] + b[1..];
    }
  }

  lemma FirstItem(a: seq<Value>, x: string)
    requires AllPrintable(a)
    ensures (ItemsText(a) + x)[0] == ']' <==> a == []
  {
    if a != [] {
      LeadIsFirst(a[0], MoreItems(a[1..]) + x);
      LeadTells(a[0], a[0]);
      Assoc(Stringify(a[0]), MoreItems(a[1..]), x);
    }
  }

  lemma FirstOfMore(a: seq<Value>, x: string)
    ensures (MoreItems(a) + x)[0] == ']' <==> a == []
  {}

  lemma FirstField(a: seq<Field>, x: string)
    ensures (FieldsText(a) + x)[0] == '}' <==> a == []
  {}

  lemma FirstOfMoreFields(a: seq<Field>, x: string)
    ensures (MoreFields(a) + x)[0] == '}' <==> a == []
  {}

  lemma {:induction false} DecodeMoreItems(a: seq<Value>, b: seq<Value>, x: string, y: string)
    requires AllPrintable(a) && AllPrintable(b) && MoreItems(a) + x == MoreItems(b) + y
    ensures a == b && x == y
    decreases a, 0
  {
    FirstOfMore(a, x);
    FirstOfMore(b, y);
    if a == [] {
      Cancel("]", x, y);
    } else {
      var ra, rb := MoreItems(a[1..]), MoreItems(b[1..]);
      GroupMore(Stringify(a[0]), ra, x);
      GroupMore(Stringify(b[0]), rb, y);
      Cancel(",", Stringify(a[0]) + (ra + x), Stringify(b[0]) + (rb + y));
      Decode(a[0], b[0], ra + x, rb + y);
      DecodeMoreItems(a[1..], b[1..], x, y);
      assert a == [a[0]] + a[1..] && b == [b[0]] + b[1..];
    }
  }

  lemma GroupMore(a: string, b: string, c: string)
    ensures "," + a + b + c == "," + (a + (b + c))
  {}

  lemma {:induction false} DecodeField(a: Field, b: Field, x: string, y: string)
    requires Printable(a.value) && Printable(b.value) && Stops(x) && Stops(y) && FieldText(a) + x == FieldText(b) + y
    ensures a == b && x == y
    decreases a, 0
  {
    GroupField(Quoted(a.key), Stringify(a.value), x);
    GroupField(Quoted(b.key), Stringify(b.value), y);
    Cancel("\"", Quoted(a.key) + (":" + (Stringify(a.value) + x)), Quoted(b.key) + (":" + (Stringify(b.value) + y)));
    DecodeQuoted(a.key, b.key, ":" + (Stringify(a.value) + x), ":" + (Stringify(b.value) + y));
    Cancel(":", Stringify(a.value) + x, Stringify(b.value) + y);
    Decode(a.value, b.value, x, y);
  }

  lemma GroupField(k: string, v: string, x: string)
    ensures "\"" + k + ":" + v + x == "\"" + (k + (":" + (v + x)))
  {}

  lemma {:induction false} DecodeFields(a: seq<Field>, b: seq<Field>, x: string, y: string)
    requires AllPrintableFields(a) && AllPrintableFields(b) && FieldsText(a) + x == FieldsText(b) + y
    ensures a == b && x == y
    decreases a, 0
  {
    FirstField(a, x);
    FirstField(b, y);
    if a == [] {
      Cancel("}", x, y);
    } else {
      Assoc(FieldText(a[0]), MoreFields(a[1..]), x);
      Assoc(FieldText(b[0]), MoreFields(b[1..]), y);
      DecodeField(a[0], b[0], MoreFields(a[1..]) + x, MoreFields(b[1..]) + y);
      DecodeMoreFields(a[1..], b[1..], x, y);
      assert a == [a[0]] + a[1..] && b == [b[0]] + b[1..];
    }
  }

  lemma {:induction false} DecodeMoreFields(a: seq<Field>, b: seq<Field>, x: string, y: string)
    requires AllPrintableFields(a) && AllPrintableFields(b) && MoreFields(a) + x == MoreFields(b) + y
    ensures a == b && x == y
    decreases a, 0
  {
    FirstOfMoreFields(a, x);
    FirstOfMoreFields(b, y);
    if a == [] {
      Cancel("}", x, y);
    } else {
      var ra, rb := MoreFields(a[1..]), MoreFields(b[1..]);
      GroupMore(FieldText(a[0]), ra, x);
      GroupMore(FieldText(b[0]), rb, y);
      Cancel(",", FieldText(a[0]) + (ra + x), FieldText(b[0]) + (rb + y));
      DecodeField(a[0], b[0], ra + x, rb + y);
      DecodeMoreFields(a[1..], b[1..], x, y);
      assert a == [a[0]] + a[1..] && b == [b[0]] + b[1..];
    }
  }

  /** Stringifying is injective. */
  lemma SameTextSameValue(a: Value, b: Value)
    requires Printable(a) && Printable(b) && Stringify(a) == Stringify(b)
    ensures a == b
  {
    assert Stringify(a) + "" == Stringify(a) && Stringify(b) + "" == Stringify(b);
    Decode(a, b, "", "");
  }
}
