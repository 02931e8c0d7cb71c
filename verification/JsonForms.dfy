/** The text of a JSON value, form by form, and strings read back from it. */
module JsonForms {
  import opened Text
  import opened Sequences
  import opened Json

  /** Texts with commas between them. */
  function Commas(texts: seq<string>): string {
    if texts == [] then "" else if |texts| == 1 then texts[0] else Commas(texts[..|texts| - 1]) + "," + texts[|texts| - 1]
  }

  function ItemTexts(items: seq<Value>): seq<string> { seq(|items|, i requires 0 <= i < |items| => Stringify(items[i])) }

  function FieldTexts(fields: seq<Field>): seq<string> {
    seq(|fields|, i requires 0 <= i < |fields| => Stringify(Str(fields[i].key)) + ":" + Stringify(fields[i].value))
  }

  lemma {:induction false} CommasFirst(text: string, rest: seq<string>)
    requires rest != []
    ensures Commas([text] + rest) == text + "," + Commas(rest)
  {
    var all := [text] + rest;
    assert all[..|rest|] == [text] + rest[..|rest| - 1] && all[|rest|] == rest[|rest| - 1];
    if |rest| == 1 {
      assert all[..1] == [text];
    } else {
      CommasFirst(text, rest[..|rest| - 1]);
    }
  }

  lemma {:induction false} ItemsAre(items: seq<Value>)
    requires items != []
    ensures Stringify(items[0]) + MoreItems(items[1..]) == Commas(ItemTexts(items)) + "]"
  {
    if |items| > 1 {
      var rest := items[1..];
      ItemsAre(rest);
      CommasFirst(Stringify(items[0]), ItemTexts(rest));
      assert ItemTexts(items) == [Stringify(items[0])] + ItemTexts(rest);
      assert MoreItems(rest) == "," + (Stringify(rest[0]) + MoreItems(rest[1..]));
    } else {
      assert items[1..] == [] && ItemTexts(items) == [Stringify(items[0])];
    }
  }

  lemma FieldIs(f: Field)
    ensures FieldText(f) == Stringify(Str(f.key)) + ":" + Stringify(f.value)
  {}

  lemma FieldTextsFirst(fields: seq<Field>)
    requires fields != []
    ensures FieldTexts(fields) == [FieldText(fields[0])] + FieldTexts(fields[1..])
  {
    FieldIs(fields[0]);
  }

  lemma MoreFieldsFirst(fields: seq<Field>)
    requires fields != []
    ensures MoreFields(fields) == "," + (FieldText(fields[0]) + MoreFields(fields[1..]))
  {
    Assoc(",", FieldText(fields[0]), MoreFields(fields[1..]));
  }

  /** A text, a comma and the rest, closed. */
  lemma Closed(text: string, more: string, commas: string, rest: string, end: string)
    requires more == "," + rest && rest == commas + end
    ensures text + more == text + "," + commas + end
  {}

  lemma {:induction false} FieldsAre(fields: seq<Field>)
    requires fields != []
    ensures FieldText(fields[0]) + MoreFields(fields[1..]) == Commas(FieldTexts(fields)) + "}"
  {
    var rest := fields[1..];
    FieldTextsFirst(fields);
    if rest != [] {
      FieldsAre(rest);
      CommasFirst(FieldText(fields[0]), FieldTexts(rest));
      MoreFieldsFirst(rest);
      Closed(FieldText(fields[0]), MoreFields(rest), Commas(FieldTexts(rest)), FieldText(rest[0]) + MoreFields(rest[1..]), "}");
    } else {
      assert FieldTexts(rest) == [] && FieldTexts(fields) == [FieldText(fields[0])];
    }
  }

  /** The text of a value: the three words, numbers as they are, lists in brackets, fields in braces. */
  lemma Forms(v: Value)
    ensures v == Null ==> Stringify(v) == "null"
    ensures v == Bool(true) ==> Stringify(v) == "true"
    ensures v == Bool(false) ==> Stringify(v) == "false"
    ensures v.Number? ==> Stringify(v) == v.text
    ensures v.Arr? ==> Stringify(v) == "[" + (Commas(ItemTexts(v.items)) + "]")
    ensures v.Obj? ==> Stringify(v) == "{" + (Commas(FieldTexts(v.fields)) + "}")
  {
    if v.Arr? && v.items != [] { ItemsAre(v.items); }
    if v.Obj? && v.fields != [] { FieldsAre(v.fields); }
  }

  // ------------------------------------------------------------------ strings read back

  function HexValue(c: char): nat
    requires IsDigit(c) || 'a' <= c <= 'f'
  {
    if IsDigit(c) then DigitValue(c) else c as int - 87
  }

  predicate IsHex(c: char) { IsDigit(c) || 'a' <= c <= 'f' }

  /** The letter of an escape of two characters. */
  function Escaped(c: char): Option<char> {
    if c == '"' || c == '\\' then Some(c)
    else if c == 'b' then Some('\U{0008}')
    else if c == 't' then Some('\U{0009}')
    else if c == 'n' then Some('\U{000a}')
    else if c == 'f' then Some('\U{000c}')
    else if c == 'r' then Some('\U{000d}')
    else None
  }

  /** The string that a quoted text stands for, after its opening quote. */
  function Unquote(t: string): Option<string>
    decreases |t|
  {
    if t == "" then None
    else if t[0] == '"' then (if |t| == 1 then Some("") else None)
    else if t[0] != '\\' then Append(t[0], Unquote(t[1..]))
    else if |t| >= 2 && Escaped(t[1]).Some? then Append(Escaped(t[1]).value, Unquote(t[2..]))
    else if |t| >= 6 && t[1] == 'u' && t[2] == '0' && t[3] == '0' && IsHex(t[4]) && IsHex(t[5]) then
      Append((16 * HexValue(t[4]) + HexValue(t[5])) as char, Unquote(t[6..]))
    else None
  }

  function Append(c: char, rest: Option<string>): Option<string> { if rest.Some? then Some([c] + rest.value) else None }

  lemma HexIs(d: nat)
    requires d < 16
    ensures IsHex(HexDigit(d)) && HexValue(HexDigit(d)) == d
  {}

  lemma LongReads(d: nat, e: nat, t: string, rest: string)
    requires d < 16 && e < 16 && t == ['\\', 'u', '0', '0', HexDigit(d), HexDigit(e)] + rest
    ensures Unquote(t) == Append((16 * d + e) as char, Unquote(rest))
  {
    HexIs(d);
    HexIs(e);
    assert t[6..] == rest && t[1] == 'u';
  }

  lemma ShortReads(x: char, c: char, t: string, rest: string)
    requires Escaped(x) == Some(c) && t == ['\\', x] + rest
    ensures Unquote(t) == Append(c, Unquote(rest))
  {
    assert t[2..] == rest;
  }

  lemma PlainReads(c: char, t: string, rest: string)
    requires c != '\\' && c != '"' && t == [c] + rest
    ensures Unquote(t) == Append(c, Unquote(rest))
  {
    assert t[1..] == rest;
  }

  lemma EscapeReads(c: char, rest: string)
    ensures Unquote(EscapeChar(c) + rest) == Append(c, Unquote(rest))
  {
    var e := EscapeChar(c);
    if |e| == 6 {
      LongReads(c as int / 16, c as int % 16, e + rest, rest);
    } else if |e| == 2 {
      ShortReads(e[1], c, e + rest, rest);
    } else {
      PlainReads(c, e + rest, rest);
    }
  }

  /** Seven characters have an escape of two characters, the other control characters one of six, all others none. */
  lemma EscapeLength(c: char)
    ensures |EscapeChar(c)| ==
      if c in "\"\\\U{0008}\t\n\U{000c}\r" then 2 else if c as int < 32 then 6 else 1
  {}

  /** Text without quotes, backslashes and control characters is quoted as it is. */
  lemma {:induction false} PlainQuoted(s: string)
    requires forall i :: 0 <= i < |s| ==> s[i] as int >= 32 && s[i] != '"' && s[i] != '\\'
    ensures Quoted(s) == s + "\""
  {
    if s != "" {
      PlainQuoted(s[1..]);
      HeadTail(s);
      Assoc([s[0]], s[1..], "\"");
    }
  }

  /** A string is read back from its quoted text. */
  lemma {:induction false} QuotedReads(s: string)
    ensures Unquote(Quoted(s)) == Some(s) && Stringify(Str(s)) == "\"" + Quoted(s)
  {
    if s != "" {
      QuotedReads(s[1..]);
      EscapeReads(s[0], Quoted(s[1..]));
      assert s == [s[0]] + s[1..];
    }
  }
}
