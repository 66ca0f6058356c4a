/** Every way to write a tree down: blanks at every place where they may stand, and every spelling of
    every character of a string. */
module JsonRendering {
  import opened Common
  import opened JsonText

  /** A run of bytes that the parser takes for blanks: control characters and the space. */
  predicate Blank(text: Bytes) {
    forall i :: 0 <= i < |text| ==> text[i] <= 32
  }

  // ---------- UTF-8 ----------

  predicate Continuation(b: int) {
    0x80 <= b < 0xC0
  }

  /** The code point a UTF-8 sequence denotes (section 3 of RFC 3629), or -1. */
  function Utf8Value(s: Bytes): (cp: int)
    ensures cp <= 0x10FFFF
  {
    if |s| == 1 && s[0] < 0x80 then s[0]
    else if |s| == 2 && 0xC2 <= s[0] < 0xE0 && Continuation(s[1]) then
      (Lead(s) - 0xC0) * 0x40 + Tail(s, 1)
    else if |s| == 3 && 0xE0 <= s[0] < 0xF0 && Continuation(s[1]) && Continuation(s[2])
      && (s[0] == 0xE0 ==> s[1] >= 0xA0) then
      (Lead(s) - 0xE0) * 0x1000 + Tail(s, 1) * 0x40 + Tail(s, 2)
    else if |s| == 4 && 0xF0 <= s[0] <= 0xF4 && Continuation(s[1]) && Continuation(s[2]) && Continuation(s[3])
      && (s[0] == 0xF0 ==> s[1] >= 0x90) && (s[0] == 0xF4 ==> s[1] < 0x90) then
      (Lead(s) - 0xF0) * 0x40000 + Tail(s, 1) * 0x1000 + Tail(s, 2) * 0x40 + Tail(s, 3)
    else -1
  }

  function Lead(s: Bytes): int
    requires s != []
  {
    s[0]
  }

  /** The six payload bits of a continuation byte. */
  function Tail(s: Bytes, i: nat): int
    requires i < |s|
  {
    s[i] as int - 0x80
  }

  // ---------- strings ----------

  /** A byte as it is, a byte behind a backslash, or a UTF-8 sequence as one or two `\u` escapes, each
      hexadecimal digit in upper or lower case. `Cut` is a NUL character and all behind it, which a C
      string does not hold. */
  datatype Char =
    | Raw(b: byte)
    | Short(b: byte)
    | Unicode(bytes: Bytes, upper: seq<bool>)
    | Pair(bytes: Bytes, upper: seq<bool>)
    | Cut(text: Bytes)

  /** The letter of a two-character escape (section 7 of RFC 8259), or 0 when the byte has none. */
  function LetterOf(b: byte): byte {
    match b
    case 34 => 34
    case 92 => 92
    case 47 => 47
    case 8 => 98
    case 12 => 102
    case 10 => 110
    case 13 => 114
    case 9 => 116
    case _ => 0
  }

  predicate IsHex(b: byte) {
    48 <= b <= 57 || 65 <= b <= 70 || 97 <= b <= 102
  }

  /** A NUL byte, `\u0000`, or a `\u` without four hexadecimal digits, which is taken for it. */
  predicate StartsNul(text: Bytes) {
    && text != []
    && (text[0] == 0
        || (|text| >= 6 && text[..2] == [BACKSLASH, LOWER_U]
            && (text[2..6] == [48, 48, 48, 48] || exists i :: 2 <= i < 6 && !IsHex(text[i]))))
  }

  /** With `cuts` strings may also hold NUL characters. */
  predicate ValidChar(ch: Char, cuts: bool) {
    match ch
    case Raw(b) => b != QUOTE && b != BACKSLASH && b != 0
    case Short(b) => LetterOf(b) != 0
    case Unicode(bytes, upper) =>
      |upper| == 4 && 0 < Utf8Value(bytes) < 0x10000 && !(0xD800 <= Utf8Value(bytes) < 0xE000)
    case Pair(bytes, upper) => |upper| == 8 && Utf8Value(bytes) >= 0x10000
    case Cut(text) => cuts && StartsNul(text)
  }

  function HexChar(n: int, upper: bool): byte
    requires 0 <= n < 16
  {
    if n < 10 then 48 + n else if upper then 55 + n else 87 + n
  }

  /** `\u` and four digits. */
  function Escape(n: int, upper: seq<bool>): (e: Bytes)
    requires 0 <= n < 0x10000 && |upper| == 4
    ensures |e| == 6
  {
    [BACKSLASH, LOWER_U, HexChar(n / 0x1000, upper[0]), HexChar(n / 0x100 % 16, upper[1]),
     HexChar(n / 0x10 % 16, upper[2]), HexChar(n % 16, upper[3])]
  }

  function CharText(ch: Char): Bytes {
    match ch
    case Raw(b) => [b]
    case Short(b) => [BACKSLASH, LetterOf(b)]
    case Unicode(bytes, upper) => if ValidChar(ch, false) then Escape(Utf8Value(bytes), upper) else []
    case Pair(bytes, upper) =>
      if !ValidChar(ch, false) then []
      else
        var high, low := (Utf8Value(bytes) - 0x10000) / 0x400, (Utf8Value(bytes) - 0x10000) % 0x400;
        Escape(0xD800 + high, upper[..4]) + Escape(0xDC00 + low, upper[4..])
    case Cut(text) => text
  }

  function CharBytes(ch: Char): Bytes {
    match ch
    case Raw(b) => [b]
    case Short(b) => [b]
    case Unicode(bytes, _) => bytes
    case Pair(bytes, _) => bytes
    case Cut(_) => []
  }

  predicate ValidChars(chars: seq<Char>, cuts: bool) {
    chars == [] ||
    (ValidChar(chars[0], cuts) && (chars[0].Cut? ==> |chars| == 1) && ValidChars(chars[1..], cuts))
  }

  function CharsText(chars: seq<Char>): Bytes {
    if chars == [] then [] else CharText(chars[0]) + CharsText(chars[1..])
  }

  function CharsBytes(chars: seq<Char>): Bytes {
    if chars == [] then [] else CharBytes(chars[0]) + CharsBytes(chars[1..])
  }

  function LiteralText(chars: seq<Char>): Bytes {
    [QUOTE] + CharsText(chars) + [QUOTE]
  }

  // ---------- values ----------

  /** A tree with its spelling and its blanks; `blank` is what stands between empty brackets. */
  datatype Layout =
    | Plain(v: Value)
    | StrText(chars: seq<Char>)
    | ArrText(items: seq<Item>, blank: Bytes)
    | ObjText(members: seq<Entry>, blank: Bytes)

  datatype Item = Item(before: Bytes, value: Layout, after: Bytes)

  datatype Entry = Entry(
    before: Bytes,
    key: seq<Char>,
    beforeColon: Bytes,
    afterColon: Bytes,
    value: Layout,
    after: Bytes)

  predicate Valid(l: Layout, cuts: bool)
    decreases l, 1
  {
    match l
    case Plain(v) => v.Null? || v.False? || v.True? || (v.Number? && IsNumberText(v.text))
    case StrText(chars) => ValidChars(chars, cuts)
    case ArrText(items, blank) => Blank(blank) && ValidItems(items, cuts)
    case ObjText(members, blank) => Blank(blank) && ValidEntries(members, cuts)
  }

  predicate ValidItems(items: seq<Item>, cuts: bool)
    decreases items, 0
  {
    items == [] ||
    (Blank(items[0].before) && Valid(items[0].value, cuts) && Blank(items[0].after) && ValidItems(items[1..], cuts))
  }

  predicate ValidEntries(members: seq<Entry>, cuts: bool)
    decreases members, 0
  {
    members == [] || (ValidEntry(members[0], cuts) && ValidEntries(members[1..], cuts))
  }

  predicate ValidEntry(m: Entry, cuts: bool)
    decreases m, 0
  {
    && Blank(m.before) && ValidChars(m.key, cuts) && Blank(m.beforeColon) && Blank(m.afterColon)
    && Valid(m.value, cuts) && Blank(m.after)
  }

  /** The text of a layout. */
  function Text(l: Layout): Bytes
    decreases l, 1
  {
    match l
    case Plain(v) =>
      (match v
       case Number(text) => text
       case False => FALSE_TEXT
       case True => TRUE_TEXT
       case _ => NULL_TEXT)
    case StrText(chars) => LiteralText(chars)
    case ArrText(items, blank) => [OPEN_BRACKET] + (if items == [] then blank else ItemsText(items)) + [CLOSE_BRACKET]
    case ObjText(members, blank) =>
      [OPEN_BRACE] + (if members == [] then blank else EntriesText(members)) + [CLOSE_BRACE]
  }

  function ItemsText(items: seq<Item>): Bytes
    decreases items, 0
  {
    if items == [] then []
    else
      items[0].before + Text(items[0].value) + items[0].after
      + if |items| == 1 then [] else [COMMA] + ItemsText(items[1..])
  }

  function EntriesText(members: seq<Entry>): Bytes
    decreases members, 0
  {
    if members == [] then []
    else EntryText(members[0]) + if |members| == 1 then [] else [COMMA] + EntriesText(members[1..])
  }

  function EntryText(m: Entry): Bytes
    decreases m, 0
  {
    m.before + LiteralText(m.key) + m.beforeColon + [COLON] + m.afterColon + Text(m.value) + m.after
  }

  /** The tree that it is a text of. */
  function Tree(l: Layout): Value
    decreases l, 1
  {
    match l
    case Plain(v) => v
    case StrText(chars) => Str(CharsBytes(chars))
    case ArrText(items, _) => Arr(Trees(items))
    case ObjText(members, _) => Obj(MemberTrees(members))
  }

  function Trees(items: seq<Item>): seq<Value>
    decreases items, 0
  {
    if items == [] then [] else [Tree(items[0].value)] + Trees(items[1..])
  }

  function MemberTrees(members: seq<Entry>): seq<Member>
    decreases members, 0
  {
    if members == [] then []
    else [Member(CharsBytes(members[0].key), Tree(members[0].value))] + MemberTrees(members[1..])
  }

  // ---------- documents ----------

  /** A whole text: byte-order mark or not, the value, and blanks around it. */
  function DocumentText(bom: bool, lead: Bytes, l: Layout, trail: Bytes): Bytes {
    (if bom then [0xEF, 0xBB, 0xBF] else []) + lead + Text(l) + trail
  }
}
