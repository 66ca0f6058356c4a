/** What cJSON's parser makes of a text: functions on the whole text and an offset into it.
    The parser class is proved to follow them for every input, well-formed or not. */
module JsonGrammar {
  import opened Common
  import opened JsonText

  /** The outcome of parsing at an offset: a value and the offset behind it, or failure. */
  datatype Parse<+T> = Fail | Ok(value: T, offset: nat)

  const NESTING_LIMIT := 1000

  // ---------- whitespace ----------

  /** The first offset from i on whose byte is not whitespace or a control character. */
  function BlankEnd(c: Bytes, i: nat): (e: nat)
    requires i <= |c|
    ensures i <= e <= |c|
    decreases |c| - i
  {
    if i < |c| && c[i] <= 32 then BlankEnd(c, i + 1) else i
  }

  /** Skipping whitespace stays on the last byte when it would run off the end. */
  function Skip(c: Bytes, i: nat): (e: nat)
    requires i <= |c|
    ensures i <= e <= |c|
    ensures i < |c| ==> e < |c|
  {
    if i < |c| && BlankEnd(c, i) == |c| then |c| - 1 else BlankEnd(c, i)
  }

  // ---------- strings ----------

  /** The closing quote of the string whose contents start at j, skipping escaped bytes. */
  function ClosingQuote(c: Bytes, j: nat): (r: Parse<()>)
    requires j <= |c|
    ensures r.Ok? ==> j <= r.offset < |c| && c[r.offset] == QUOTE
    decreases |c| - j
  {
    if j >= |c| then Fail
    else if c[j] == QUOTE then Ok((), j)
    else if c[j] == BACKSLASH then (if j + 1 >= |c| then Fail else ClosingQuote(c, j + 2))
    else ClosingQuote(c, j + 1)
  }

  function HexValue(b: byte): int {
    if 48 <= b <= 57 then b - 48
    else if 65 <= b <= 70 then b - 55
    else if 97 <= b <= 102 then b - 87
    else -1
  }

  /** Four hexadecimal digits; 0 when one of them is not a digit. */
  function Hex4(c: Bytes, p: nat): (h: nat)
    requires p + 4 <= |c|
    ensures h < 0x10000
  {
    var a, b, d, e := HexValue(c[p]), HexValue(c[p + 1]), HexValue(c[p + 2]), HexValue(c[p + 3]);
    if a < 0 || b < 0 || d < 0 || e < 0 then 0 else ((a * 16 + b) * 16 + d) * 16 + e
  }

  /** The UTF-8 encoding of a code point. */
  function Utf8(cp: nat): Bytes
    requires cp <= 0x10FFFF
  {
    if cp < 0x80 then [cp]
    else if cp < 0x800 then [0xC0 + cp / 0x40, 0x80 + cp % 0x40]
    else if cp < 0x10000 then [0xE0 + cp / 0x1000, 0x80 + cp / 0x40 % 0x40, 0x80 + cp % 0x40]
    else [0xF0 + cp / 0x40000, 0x80 + cp / 0x1000 % 0x40, 0x80 + cp / 0x40 % 0x40, 0x80 + cp % 0x40]
  }

  /** The code point of the \u escape at p, and the offset behind the escape.  A high surrogate
      must be followed by an escape for a low one; everything lies before `end`. */
  function CodePoint(c: Bytes, p: nat, end: nat): (r: Parse<nat>)
    requires p < end <= |c|
    ensures r.Ok? ==> r.value <= 0x10FFFF && p + 6 <= r.offset <= end
  {
    if end - p < 6 then Fail
    else
      var first := Hex4(c, p + 2);
      if 0xDC00 <= first <= 0xDFFF then Fail
      else if 0xD800 <= first <= 0xDBFF then
        if end - (p + 6) < 6 || c[p + 6] != BACKSLASH || c[p + 7] != LOWER_U then Fail
        else
          var second := Hex4(c, p + 8);
          if second < 0xDC00 || second > 0xDFFF then Fail
          else Ok(0x10000 + (first % 0x400) * 0x400 + second % 0x400, p + 12)
      else Ok(first, p + 6)
  }

  /** The byte a two-character escape stands for, or -1. */
  function SimpleEscape(b: byte): int {
    match b
    case 98 => 8
    case 102 => 12
    case 110 => 10
    case 114 => 13
    case 116 => 9
    case 34 => 34
    case 92 => 92
    case 47 => 47
    case _ => -1
  }

  /** One step of decoding at p < end: the bytes produced and the next offset. */
  function DecodeStep(c: Bytes, p: nat, end: nat): (r: Parse<Bytes>)
    requires p < end < |c|
    ensures r.Ok? ==> p < r.offset <= end + 1
  {
    if c[p] != BACKSLASH then Ok([c[p]], p + 1)
    else if c[p + 1] == LOWER_U then
      (match CodePoint(c, p, end)
       case Fail => Fail
       case Ok(cp, next) => Ok(Utf8(cp), next))
    else if SimpleEscape(c[p + 1]) >= 0 then Ok([SimpleEscape(c[p + 1])], p + 2)
    else Fail
  }

  /** The decoded contents of the string literal between p and the closing quote at end. */
  function Decoded(c: Bytes, p: nat, end: nat): (r: Parse<Bytes>)
    requires p <= end + 1 && end < |c|
    decreases end + 1 - p
  {
    if p >= end then Ok([], p)
    else
      match DecodeStep(c, p, end)
      case Fail => Fail
      case Ok(bytes, next) =>
        match Decoded(c, next, end)
        case Fail => Fail
        case Ok(rest, last) => Ok(bytes + rest, last)
  }

  /** What a C string holds: the bytes before the first NUL. */
  function CString(s: Bytes): (r: Bytes)
    ensures NulFree(r)
    ensures NulFree(s) ==> r == s
  {
    if s == [] || s[0] == 0 then [] else [s[0]] + CString(s[1..])
  }

  function ParseString(c: Bytes, i: nat): (r: Parse<Bytes>)
    requires i <= |c|
    ensures r.Ok? ==> i < r.offset <= |c| && NulFree(r.value)
  {
    if i >= |c| || c[i] != QUOTE then Fail
    else
      match ClosingQuote(c, i + 1)
      case Fail => Fail
      case Ok(_, end) =>
        match Decoded(c, i + 1, end)
        case Fail => Fail
        case Ok(s, _) => Ok(CString(s), end + 1)
  }

  // ---------- numbers ----------

  /** The number bytes at i, at most 63 of them. */
  function NumberToken(c: Bytes, i: nat, k: nat): (e: nat)
    requires i + k <= |c| && k <= 63
    ensures i + k <= e <= |c| && e <= i + 63
    decreases 63 - k
  {
    if k < 63 && i + k < |c| && IsNumberByte(c[i + k]) then NumberToken(c, i, k + 1) else i + k
  }

  function ParseNumber(c: Bytes, i: nat): (r: Parse<Value>)
    requires i <= |c|
    ensures r.Ok? ==> i < r.offset <= |c| && r.value.Number?
  {
    var token := c[i..NumberToken(c, i, 0)];
    var n := StrtodLength(token);
    if n == 0 then Fail else Ok(Number(token[..n]), i + n)
  }

  // ---------- values ----------

  predicate At(c: Bytes, i: nat, text: Bytes) {
    i + |text| <= |c| && c[i..i + |text|] == text
  }

  function ParseValue(c: Bytes, i: nat, depth: nat): (r: Parse<Value>)
    requires i <= |c|
    ensures r.Ok? ==> i < r.offset <= |c|
    decreases |c| - i, 1
  {
    if At(c, i, NULL_TEXT) then Ok(Null, i + 4)
    else if At(c, i, FALSE_TEXT) then Ok(False, i + 5)
    else if At(c, i, TRUE_TEXT) then Ok(True, i + 4)
    else if i >= |c| then Fail
    else if c[i] == QUOTE then
      (match ParseString(c, i) case Fail => Fail case Ok(s, e) => Ok(Str(s), e))
    else if c[i] == MINUS || IsDigit(c[i]) then ParseNumber(c, i)
    else if c[i] == OPEN_BRACKET then
      (match ParseArray(c, i, depth) case Fail => Fail case Ok(items, e) => Ok(Arr(items), e))
    else if c[i] == OPEN_BRACE then
      (match ParseObject(c, i, depth) case Fail => Fail case Ok(members, e) => Ok(Obj(members), e))
    else Fail
  }

  function ParseArray(c: Bytes, i: nat, depth: nat): (r: Parse<seq<Value>>)
    requires i < |c|
    ensures r.Ok? ==> i < r.offset <= |c|
    decreases |c| - i, 0
  {
    if depth >= NESTING_LIMIT then Fail
    else
      var s := Skip(c, i + 1);
      if s >= |c| then Fail
      else if c[s] == CLOSE_BRACKET then Ok([], s + 1)
      else ParseItems(c, s, depth + 1)
  }

  /** The rest of an array from just behind its opening bracket or a comma. */
  function ParseItems(c: Bytes, p: nat, depth: nat): (r: Parse<seq<Value>>)
    requires p <= |c|
    ensures r.Ok? ==> p < r.offset <= |c|
    decreases |c| - p, 2
  {
    match ParseValue(c, Skip(c, p), depth)
    case Fail => Fail
    case Ok(v, e) =>
      var s := Skip(c, e);
      if s >= |c| then Fail
      else if c[s] == COMMA then
        (match ParseItems(c, s + 1, depth) case Fail => Fail case Ok(rest, e') => Ok([v] + rest, e'))
      else if c[s] == CLOSE_BRACKET then Ok([v], s + 1)
      else Fail
  }

  function ParseObject(c: Bytes, i: nat, depth: nat): (r: Parse<seq<Member>>)
    requires i < |c|
    ensures r.Ok? ==> i < r.offset <= |c|
    decreases |c| - i, 0
  {
    if depth >= NESTING_LIMIT then Fail
    else
      var s := Skip(c, i + 1);
      if s >= |c| then Fail
      else if c[s] == CLOSE_BRACE then Ok([], s + 1)
      else ParseMembers(c, s, depth + 1)
  }

  /** One `key : value`, up to the byte behind the value. */
  function ParseMember(c: Bytes, p: nat, depth: nat): (r: Parse<Member>)
    requires p <= |c|
    ensures r.Ok? ==> p < r.offset <= |c|
    decreases |c| - p, 2
  {
    match ParseString(c, Skip(c, p))
    case Fail => Fail
    case Ok(key, e) =>
      var s := Skip(c, e);
      if s >= |c| || c[s] != COLON then Fail
      else
        match ParseValue(c, Skip(c, s + 1), depth)
        case Fail => Fail
        case Ok(v, e') => Ok(Member(key, v), e')
  }

  /** The rest of an object from just behind its opening brace or a comma. */
  function ParseMembers(c: Bytes, p: nat, depth: nat): (r: Parse<seq<Member>>)
    requires p <= |c|
    ensures r.Ok? ==> p < r.offset <= |c|
    decreases |c| - p, 3
  {
    match ParseMember(c, p, depth)
    case Fail => Fail
    case Ok(m, e) =>
      var s := Skip(c, e);
      if s >= |c| then Fail
      else if c[s] == COMMA then
        (match ParseMembers(c, s + 1, depth) case Fail => Fail case Ok(rest, e') => Ok([m] + rest, e'))
      else if c[s] == CLOSE_BRACE then Ok([m], s + 1)
      else Fail
  }

  // ---------- documents ----------

  const BOM: Bytes := [0xEF, 0xBB, 0xBF]

  function BomEnd(c: Bytes): (e: nat)
    ensures e <= |c|
  {
    if 4 < |c| && At(c, 0, BOM) then 3 else 0
  }

  /** `cJSON_ParseWithLengthOpts` on a buffer; the offset is where parsing stopped. */
  function ParseBuffer(c: Bytes, requireNul: bool): (r: Parse<Value>) {
    match ParseValue(c, Skip(c, BomEnd(c)), 0)
    case Fail => Fail
    case Ok(v, e) =>
      if !requireNul then Ok(v, e)
      else if Skip(c, e) < |c| && c[Skip(c, e)] == 0 then Ok(v, Skip(c, e))
      else Fail
  }

  /** `cJSON_ParseWithOpts` on a C string: the buffer includes the terminating NUL. */
  function ParseText(text: Bytes, requireNul: bool): Parse<Value> {
    ParseBuffer(text + [0], requireNul)
  }
}
