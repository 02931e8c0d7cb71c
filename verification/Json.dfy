/** JSON values and the text `JSON.stringify` gives them. */
module Json {
  import opened Text

  /** A value as it comes out of `JSON.parse`; a number is the text `String` gives it. */
  datatype Value = Null | Bool(b: bool) | Number(text: string) | Str(s: string) | Arr(items: seq<Value>) | Obj(fields: seq<Field>)

  datatype Field = Field(key: string, value: Value)

  // ------------------------------------------------------------------- well-formed

  predicate NumberChar(c: char) { IsDigit(c) || c == '-' || c == '+' || c == '.' || c == 'e' }

  predicate IsNumberText(s: string) {
    s != "" && (IsDigit(s[0]) || s[0] == '-') && forall i :: 0 <= i < |s| ==> NumberChar(s[i])
  }

  predicate DistinctKeys(fields: seq<Field>) {
    forall i, j :: 0 <= i < j < |fields| ==> fields[i].key != fields[j].key
  }

  /** Every number is number text. */
  predicate Printable(v: Value) {
    match v
    case Number(text) => IsNumberText(text)
    case Arr(items) => forall i :: 0 <= i < |items| ==> Printable(items[i])
    case Obj(fields) => forall i :: 0 <= i < |fields| ==> Printable(fields[i].value)
    case _ => true
  }

  /** No object has a key twice. */
  predicate KeysOnce(v: Value) {
    match v
    case Arr(items) => forall i :: 0 <= i < |items| ==> KeysOnce(items[i])
    case Obj(fields) => DistinctKeys(fields) && forall i :: 0 <= i < |fields| ==> KeysOnce(fields[i].value)
    case _ => true
  }

  // ------------------------------------------------------------------------- text

  function HexDigit(d: nat): char
    requires d < 16
  {
    if d < 10 then DigitChar(d) else (87 + d) as char
  }

  /** One character inside quotes. */
  function EscapeChar(c: char): (e: string)
    ensures e != ""
  {
    if c == '"' then ['\\', '"']
    else if c == '\\' then ['\\', '\\']
    else if c == '\U{0008}' then ['\\', 'b']
    else if c == '\U{0009}' then ['\\', 't']
    else if c == '\U{000a}' then ['\\', 'n']
    else if c == '\U{000c}' then ['\\', 'f']
    else if c == '\U{000d}' then ['\\', 'r']
    else if c < ' ' then ['\\', 'u', '0', '0', HexDigit(c as int / 16), HexDigit(c as int % 16)]
    else [c]
  }

  /** The rest of a quoted text, with its closing quote. */
  function Quoted(s: string): string {
    if s == "" then "\"" else EscapeChar(s[0]) + Quoted(s[1..])
  }

  /** `JSON.stringify`. */
  function Stringify(v: Value): string {
    match v
    case Null => "null"
    case Bool(b) => if b then "true" else "false"
    case Number(text) => text
    case Str(s) => "\"" + Quoted(s)
    case Arr(items) => "[" + (if items == [] then "]" else Stringify(items[0]) + MoreItems(items[1..]))
    case Obj(fields) => "{" + (if fields == [] then "}" else FieldText(fields[0]) + MoreFields(fields[1..]))
  }

  /** The text of an array or object after its opening bracket. */
  function ItemsText(items: seq<Value>): string {
    if items == [] then "]" else Stringify(items[0]) + MoreItems(items[1..])
  }

  function FieldsText(fields: seq<Field>): string {
    if fields == [] then "}" else FieldText(fields[0]) + MoreFields(fields[1..])
  }

  function MoreItems(items: seq<Value>): string {
    if items == [] then "]" else "," + Stringify(items[0]) + MoreItems(items[1..])
  }

  function FieldText(f: Field): string { "\"" + Quoted(f.key) + ":" + Stringify(f.value) }

  function MoreFields(fields: seq<Field>): string {
    if fields == [] then "}" else "," + FieldText(fields[0]) + MoreFields(fields[1..])
  }
}
