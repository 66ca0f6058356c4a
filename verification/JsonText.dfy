/** JSON trees and the text cJSON prints for them. */
module JsonText {
  import opened Common

  /** A number is kept as the text that denotes it. */
  datatype Value =
    | Null
    | False
    | True
    | Number(text: Bytes)
    | Str(s: Bytes)
    | Arr(items: seq<Value>)
    | Obj(members: seq<Member>)

  datatype Member = Member(key: Bytes, value: Value)

  const QUOTE: byte := 34
  const BACKSLASH: byte := 92
  const COMMA: byte := 44
  const COLON: byte := 58
  const OPEN_BRACKET: byte := 91
  const CLOSE_BRACKET: byte := 93
  const OPEN_BRACE: byte := 123
  const CLOSE_BRACE: byte := 125
  const SPACE: byte := 32
  const TAB: byte := 9
  const MINUS: byte := 45
  const LOWER_U: byte := 117

  const NULL_TEXT: Bytes := [110, 117, 108, 108]
  const FALSE_TEXT: Bytes := [102, 97, 108, 115, 101]
  const TRUE_TEXT: Bytes := [116, 114, 117, 101]

  // ---------- strings ----------

  function HexDigit(n: int): byte
    requires 0 <= n < 16
  {
    if n < 10 then 48 + n else 87 + n
  }

  /** The letter of a two-character escape, or 0 when the byte has none. */
  function ShortEscape(b: byte): byte {
    match b
    case 34 => 34
    case 92 => 92
    case 8 => 98
    case 12 => 102
    case 10 => 110
    case 13 => 114
    case 9 => 116
    case _ => 0
  }

  function EscapedByte(b: byte): Bytes {
    if ShortEscape(b) != 0 then [BACKSLASH, ShortEscape(b)]
    else if b < 32 then [BACKSLASH, LOWER_U, 48, 48, HexDigit(b / 16), HexDigit(b % 16)]
    else [b]
  }

  function Escaped(s: Bytes): Bytes {
    if s == [] then [] else EscapedByte(s[0]) + Escaped(s[1..])
  }

  function Quoted(s: Bytes): Bytes {
    [QUOTE] + Escaped(s) + [QUOTE]
  }

  // ---------- trees ----------

  function Tabs(n: nat): (tabs: Bytes)
    ensures |tabs| == n
  {
    seq(n, _ => TAB)
  }

  /** The tabs in front of a line of a formatted text. */
  function Indent(format: bool, depth: nat): Bytes {
    if format then Tabs(depth) else []
  }

  /** What is printed for a value at the given nesting depth. */
  function Printed(v: Value, format: bool, depth: nat): Bytes
    decreases v, 1
  {
    match v
    case Null => NULL_TEXT
    case False => FALSE_TEXT
    case True => TRUE_TEXT
    case Number(text) => text
    case Str(s) => Quoted(s)
    case Arr(items) => [OPEN_BRACKET] + PrintedItems(items, format, depth + 1) + [CLOSE_BRACKET]
    case Obj(members) =>
      (if format then [OPEN_BRACE, NEWLINE] else [OPEN_BRACE])
      + PrintedMembers(members, format, depth + 1)
      + Indent(format, depth) + [CLOSE_BRACE]
  }

  function PrintedItems(items: seq<Value>, format: bool, depth: nat): Bytes
    decreases items, 0
  {
    if items == [] then []
    else if |items| == 1 then Printed(items[0], format, depth)
    else Printed(items[0], format, depth) + ItemSeparator(format) + PrintedItems(items[1..], format, depth)
  }

  function ItemSeparator(format: bool): Bytes {
    if format then [COMMA, SPACE] else [COMMA]
  }

  function PrintedMembers(members: seq<Member>, format: bool, depth: nat): Bytes
    decreases members, 0
  {
    if members == [] then []
    else
      PrintedMember(members[0], format, depth)
      + MemberEnd(|members| > 1, format)
      + PrintedMembers(members[1..], format, depth)
  }

  function PrintedMember(m: Member, format: bool, depth: nat): Bytes
    decreases m, 0
  {
    Indent(format, depth) + Quoted(m.key) + Colon(format) + Printed(m.value, format, depth)
  }

  function Colon(format: bool): Bytes {
    if format then [COLON, TAB] else [COLON]
  }

  function MemberEnd(more: bool, format: bool): Bytes {
    (if more then [COMMA] else []) + (if format then [NEWLINE] else [])
  }

  // ---------- well-formed trees ----------

  /** How deeply arrays and objects are nested inside the value. */
  function Nesting(v: Value): nat
    decreases v, 1
  {
    match v
    case Arr(items) => 1 + NestingOfItems(items)
    case Obj(members) => 1 + NestingOfMembers(members)
    case _ => 0
  }

  function NestingOfItems(items: seq<Value>): nat
    decreases items, 0
  {
    if items == [] then 0 else Max(Nesting(items[0]), NestingOfItems(items[1..]))
  }

  function NestingOfMembers(members: seq<Member>): nat
    decreases members, 0
  {
    if members == [] then 0 else Max(Nesting(members[0].value), NestingOfMembers(members[1..]))
  }

  function Max(a: nat, b: nat): nat {
    if a > b then a else b
  }

  predicate IsDigit(b: byte) {
    48 <= b <= 57
  }

  /** The bytes the number scanner accepts: digits, signs, exponent letters and the point. */
  predicate IsNumberByte(b: byte) {
    IsDigit(b) || b in {43, 45, 46, 69, 101}
  }

  /** The end of the run of digits that starts at p. */
  function DigitsEnd(t: Bytes, p: nat): (e: nat)
    requires p <= |t|
    ensures p <= e <= |t|
    decreases |t| - p
  {
    if p < |t| && IsDigit(t[p]) then DigitsEnd(t, p + 1) else p
  }

  function SignEnd(t: Bytes, p: nat): (e: nat)
    requires p <= |t|
    ensures p <= e <= |t|
  {
    if p < |t| && (t[p] == 43 || t[p] == 45) then p + 1 else p
  }

  /** Where the mantissa ends: digits with at most one point among them. */
  function MantissaEnd(t: Bytes): (e: nat)
    ensures e <= |t|
  {
    var a := DigitsEnd(t, SignEnd(t, 0));
    if a < |t| && t[a] == 46 then DigitsEnd(t, a + 1) else a
  }

  predicate HasMantissa(t: Bytes) {
    var a := DigitsEnd(t, SignEnd(t, 0));
    a > SignEnd(t, 0) || MantissaEnd(t) > a + 1
  }

  /** How many bytes `strtod` consumes from text over the number bytes; 0 means no number. */
  function StrtodLength(t: Bytes): (n: nat)
    ensures n <= |t|
  {
    if !HasMantissa(t) then 0
    else
      var b := MantissaEnd(t);
      if b < |t| && (t[b] == 69 || t[b] == 101) then
        var q := SignEnd(t, b + 1);
        if DigitsEnd(t, q) > q then DigitsEnd(t, q) else b
      else b
  }

  /** A text that the parser recognises as one whole number. */
  predicate IsNumberText(t: Bytes) {
    && 1 <= |t| <= 63
    && (forall i :: 0 <= i < |t| ==> IsNumberByte(t[i]))
    && (t[0] == MINUS || IsDigit(t[0]))
    && StrtodLength(t) == |t|
  }

  /** C strings are NUL-free; number texts are numbers. */
  ghost predicate WellFormed(v: Value)
    decreases v, 1
  {
    match v
    case Number(text) => IsNumberText(text)
    case Str(s) => NulFree(s)
    case Arr(items) => WellFormedItems(items)
    case Obj(members) => WellFormedMembers(members)
    case _ => true
  }

  ghost predicate WellFormedItems(items: seq<Value>)
    decreases items, 0
  {
    items == [] || (WellFormed(items[0]) && WellFormedItems(items[1..]))
  }

  ghost predicate WellFormedMembers(members: seq<Member>)
    decreases members, 0
  {
    members == [] ||
    (NulFree(members[0].key) && WellFormed(members[0].value) && WellFormedMembers(members[1..]))
  }
}
