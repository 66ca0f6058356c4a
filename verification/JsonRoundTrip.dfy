/** Parsing any text of a tree gives the tree, whatever its blanks and spellings; what is printed, in
    either format, is one of these texts. */
module JsonRoundTrip {
  import opened Common
  import opened JsonText
  import opened JsonGrammar
  import opened JsonRendering

  lemma AtConcat(c: Bytes, i: nat, a: Bytes, b: Bytes)
    requires At(c, i, a + b)
    ensures At(c, i, a) && At(c, i + |a|, b)
  {
    var w := c[i..i + |a + b|];
    assert w == a + b;
    assert c[i..i + |a|] == w[..|a|];
    assert c[i + |a|..i + |a| + |b|] == w[|a|..];
  }

  lemma AtBounds(c: Bytes, i: nat, text: Bytes)
    requires At(c, i, text)
    ensures i + |text| <= |c|
  {
  }

  lemma AtIndex(c: Bytes, i: nat, text: Bytes, k: nat)
    requires At(c, i, text) && k < |text|
    ensures c[i + k] == text[k]
  {
    assert c[i..i + |text|][k] == text[k];
  }

  lemma AtByte(c: Bytes, i: nat, b: byte)
    requires At(c, i, [b])
    ensures i < |c| && c[i] == b
  {
    assert c[i..i + 1][0] == b;
  }

  lemma AtFirst(c: Bytes, i: nat, text: Bytes)
    requires text != []
    ensures At(c, i, text) ==> c[i] == text[0]
  {
    if At(c, i, text) {
      assert c[i..i + |text|][0] == text[0];
    }
  }

  lemma AtConcat3(c: Bytes, i: nat, a: Bytes, b: Bytes, d: Bytes)
    requires At(c, i, a + b + d)
    ensures At(c, i, a) && At(c, i + |a|, b) && At(c, i + |a| + |b|, d)
  {
    AtConcat(c, i, a + b, d);
    AtConcat(c, i, a, b);
  }

  // ---------- whitespace ----------

  lemma {:induction false} SkipOver(c: Bytes, i: nat, blanks: Bytes)
    requires At(c, i, blanks) && Blank(blanks)
    requires i + |blanks| < |c| && c[i + |blanks|] > 32
    ensures Skip(c, i) == i + |blanks| == BlankEnd(c, i)
    decreases |blanks|
  {
    if blanks != [] {
      assert blanks == [blanks[0]] + blanks[1..];
      AtConcat(c, i, [blanks[0]], blanks[1..]);
      AtByte(c, i, blanks[0]);
      SkipOver(c, i + 1, blanks[1..]);
    }
  }

  lemma NoSkip(c: Bytes, i: nat)
    requires i < |c| && c[i] > 32
    ensures Skip(c, i) == i
  {
    SkipOver(c, i, []);
  }

  // ---------- strings ----------

  lemma Sextets(a: nat, b: nat, d: nat, e: nat)
    requires b < 0x40 && d < 0x40 && e < 0x40
    ensures var n := a * 0x40000 + b * 0x1000 + d * 0x40 + e;
      n / 0x40000 == a && n / 0x1000 % 0x40 == b && n / 0x40 % 0x40 == d && n % 0x40 == e
  {
    var n := a * 0x40000 + b * 0x1000 + d * 0x40 + e;
    assert n / 0x40 == a * 0x1000 + b * 0x40 + d;
    assert n / 0x1000 == a * 0x40 + b;
  }

  /** The encoder inverts the independent decoder. */
  lemma Utf8Inverse(s: Bytes)
    requires Utf8Value(s) >= 0
    ensures Utf8(Utf8Value(s)) == s
  {
    if |s| == 2 {
      Sextets(0, 0, s[0] - 0xC0, s[1] - 0x80);
    } else if |s| == 3 {
      Sextets(0, s[0] - 0xE0, s[1] - 0x80, s[2] - 0x80);
    } else if |s| == 4 {
      Sextets(s[0] - 0xF0, s[1] - 0x80, s[2] - 0x80, s[3] - 0x80);
    }
  }

  lemma HexDigitRead(k: int, upper: bool)
    requires 0 <= k < 16
    ensures HexValue(HexChar(k, upper)) == k && HexChar(k, upper) != BACKSLASH && HexChar(k, upper) != QUOTE
  {
  }

  lemma Nibbles(n: nat)
    requires n < 0x10000
    ensures n == ((n / 0x1000 * 16 + n / 0x100 % 16) * 16 + n / 0x10 % 16) * 16 + n % 16
  {
    assert n / 0x100 / 0x10 == n / 0x1000 && n / 0x10 / 0x10 == n / 0x100;
  }

  lemma HexRead(c: Bytes, p: nat, n: nat, upper: seq<bool>)
    requires n < 0x10000 && |upper| == 4 && At(c, p, Escape(n, upper))
    ensures p + 6 <= |c| && c[p] == BACKSLASH && c[p + 1] == LOWER_U && Hex4(c, p + 2) == n
    ensures forall i :: p + 2 <= i < p + 6 ==> c[i] != BACKSLASH && c[i] != QUOTE
  {
    hide HexChar, HexValue;
    var e := Escape(n, upper);
    assert c[p..p + 6] == e && forall i :: p <= i < p + 6 ==> c[i] == c[p..p + 6][i - p];
    HexDigitRead(n / 0x1000, upper[0]);
    HexDigitRead(n / 0x100 % 16, upper[1]);
    HexDigitRead(n / 0x10 % 16, upper[2]);
    HexDigitRead(n % 16, upper[3]);
    Nibbles(n);
  }

  lemma EscapeSkipped(c: Bytes, j: nat, n: nat, upper: seq<bool>)
    requires n < 0x10000 && |upper| == 4 && At(c, j, Escape(n, upper))
    ensures j + 6 <= |c| && ClosingQuote(c, j) == ClosingQuote(c, j + 6)
  {
    HexRead(c, j, n, upper);
    assert ClosingQuote(c, j) == ClosingQuote(c, j + 2);
    assert ClosingQuote(c, j + 2) == ClosingQuote(c, j + 3);
    assert ClosingQuote(c, j + 3) == ClosingQuote(c, j + 4);
    assert ClosingQuote(c, j + 4) == ClosingQuote(c, j + 5);
    assert ClosingQuote(c, j + 5) == ClosingQuote(c, j + 6);
  }

  /** The first pass steps over the spelling of a character as a unit. */
  lemma CharSkipped(c: Bytes, j: nat, ch: Char)
    requires ValidChar(ch, false) && At(c, j, CharText(ch))
    ensures j + |CharText(ch)| <= |c| && ClosingQuote(c, j) == ClosingQuote(c, j + |CharText(ch)|)
  {
    hide Escape, Utf8Value;
    match ch
    case Raw(b) => AtByte(c, j, b);
    case Short(b) =>
      AtIndex(c, j, CharText(ch), 0);
      AtIndex(c, j, CharText(ch), 1);
    case Unicode(bytes, upper) =>
      EscapeSkipped(c, j, Utf8Value(bytes), upper);
    case Pair(bytes, upper) =>
      var high, low := (Utf8Value(bytes) - 0x10000) / 0x400, (Utf8Value(bytes) - 0x10000) % 0x400;
      AtConcat(c, j, Escape(0xD800 + high, upper[..4]), Escape(0xDC00 + low, upper[4..]));
      EscapeSkipped(c, j, 0xD800 + high, upper[..4]);
      EscapeSkipped(c, j + 6, 0xDC00 + low, upper[4..]);
  }

  lemma PairRead(c: Bytes, p: nat, end: nat, n: nat, upper: seq<bool>)
    requires n < 0x100000 && |upper| == 8 && p + 12 <= end < |c|
    requires At(c, p, Escape(0xD800 + n / 0x400, upper[..4]) + Escape(0xDC00 + n % 0x400, upper[4..]))
    ensures c[p] == BACKSLASH && c[p + 1] == LOWER_U && CodePoint(c, p, end) == Ok(0x10000 + n, p + 12)
  {
    hide Escape, Hex4;
    AtConcat(c, p, Escape(0xD800 + n / 0x400, upper[..4]), Escape(0xDC00 + n % 0x400, upper[4..]));
    HexRead(c, p, 0xD800 + n / 0x400, upper[..4]);
    HexRead(c, p + 6, 0xDC00 + n % 0x400, upper[4..]);
    assert (0xD800 + n / 0x400) % 0x400 == n / 0x400 && (0xDC00 + n % 0x400) % 0x400 == n % 0x400;
  }

  /** The second pass decodes it. */
  lemma CharDecoded(c: Bytes, p: nat, end: nat, ch: Char)
    requires ValidChar(ch, false) && At(c, p, CharText(ch)) && p + |CharText(ch)| <= end < |c|
    ensures |CharText(ch)| > 0 && DecodeStep(c, p, end) == Ok(CharBytes(ch), p + |CharText(ch)|)
  {
    hide Escape, Utf8Value, Utf8, Hex4;
    match ch
    case Raw(b) => AtByte(c, p, b);
    case Short(b) =>
      AtIndex(c, p, CharText(ch), 0);
      AtIndex(c, p, CharText(ch), 1);
    case Unicode(bytes, upper) =>
      Utf8Inverse(bytes);
      HexRead(c, p, Utf8Value(bytes), upper);
    case Pair(bytes, upper) =>
      Utf8Inverse(bytes);
      hide CodePoint;
      PairRead(c, p, end, Utf8Value(bytes) - 0x10000, upper);
  }

  lemma {:induction false} CharsClose(c: Bytes, j: nat, chars: seq<Char>)
    requires ValidChars(chars, false) && At(c, j, CharsText(chars) + [QUOTE])
    ensures ClosingQuote(c, j) == Ok((), j + |CharsText(chars)|)
    decreases |chars|
  {
    hide At, CharText, ValidChar;
    if chars == [] {
      assert [] + [QUOTE] == [QUOTE];
      AtByte(c, j, QUOTE);
    } else {
      var first, rest := CharText(chars[0]), CharsText(chars[1..]) + [QUOTE];
      assert CharsText(chars) + [QUOTE] == first + rest;
      AtConcat(c, j, first, rest);
      CharSkipped(c, j, chars[0]);
      CharsClose(c, j + |first|, chars[1..]);
    }
  }

  lemma {:induction false} CharsDecode(c: Bytes, p: nat, end: nat, chars: seq<Char>)
    requires ValidChars(chars, false) && At(c, p, CharsText(chars)) && p + |CharsText(chars)| == end < |c|
    ensures Decoded(c, p, end) == Ok(CharsBytes(chars), end)
    decreases |chars|
  {
    hide At, CharText, CharBytes, DecodeStep, ValidChar;
    if chars != [] {
      AtConcat(c, p, CharText(chars[0]), CharsText(chars[1..]));
      CharDecoded(c, p, end, chars[0]);
      CharsDecode(c, p + |CharText(chars[0])|, end, chars[1..]);
    }
  }

  lemma CharNulFree(ch: Char)
    requires ValidChar(ch, false)
    ensures NulFree(CharBytes(ch))
  {
  }

  lemma {:induction false} CharsNulFree(chars: seq<Char>)
    requires ValidChars(chars, false)
    ensures NulFree(CharsBytes(chars))
  {
    hide ValidChar, CharBytes;
    if chars != [] {
      CharNulFree(chars[0]);
      CharsNulFree(chars[1..]);
    }
  }

  /** `parse_string` reads a literal in any spelling. */
  lemma StringRoundTrip(c: Bytes, i: nat, chars: seq<Char>)
    requires ValidChars(chars, false) && At(c, i, LiteralText(chars))
    ensures ParseString(c, i) == Ok(CharsBytes(chars), i + |LiteralText(chars)|)
  {
    hide At, NulFree, CharsText, CharsBytes, Decoded, ClosingQuote;
    assert LiteralText(chars) == [QUOTE] + (CharsText(chars) + [QUOTE]);
    AtConcat(c, i, [QUOTE], CharsText(chars) + [QUOTE]);
    AtByte(c, i, QUOTE);
    CharsClose(c, i + 1, chars);
    AtConcat(c, i + 1, CharsText(chars), [QUOTE]);
    CharsDecode(c, i + 1, i + 1 + |CharsText(chars)|, chars);
    CharsNulFree(chars);
  }

  // ---------- numbers ----------

  lemma {:induction false} TokenEnds(c: Bytes, i: nat, text: Bytes, k: nat)
    requires At(c, i, text) && k <= |text| <= 63
    requires forall j :: 0 <= j < |text| ==> IsNumberByte(text[j])
    requires i + |text| < |c| && !IsNumberByte(c[i + |text|])
    ensures NumberToken(c, i, k) == i + |text|
    decreases |text| - k
  {
    if k < |text| {
      assert c[i + k] == c[i..i + |text|][k] == text[k];
      TokenEnds(c, i, text, k + 1);
    }
  }

  lemma NumberRoundTrip(c: Bytes, i: nat, text: Bytes)
    requires IsNumberText(text) && At(c, i, text)
    requires i + |text| < |c| && !IsNumberByte(c[i + |text|])
    ensures ParseNumber(c, i) == Ok(Number(text), i + |text|)
  {
    TokenEnds(c, i, text, 0);
    assert text[..|text|] == text;
  }

  // ---------- values ----------

  /** The byte behind a value never continues a number, and is there. */
  predicate Delimited(c: Bytes, i: nat) {
    i < |c| && !IsNumberByte(c[i])
  }

  function Expected<T>(nesting: nat, depth: nat, v: T, offset: nat): Parse<T> {
    if depth + nesting <= NESTING_LIMIT then Ok(v, offset) else Fail
  }

  /** A value starts with a visible byte that closes nothing. */
  lemma TextStart(l: Layout, c: Bytes, i: nat)
    requires Valid(l, false) && At(c, i, Text(l))
    ensures i < |c| && c[i] > 32 && c[i] != CLOSE_BRACKET && c[i] != 0xEF && |Text(l)| > 0
  {
    hide CharsText, ItemsText, EntriesText, StrtodLength;
    assert Text(l) != [];
    AtIndex(c, i, Text(l), 0);
  }

  /** Blanks before one of the bytes that separate or close. */
  lemma BlanksEnd(c: Bytes, i: nat, blanks: Bytes)
    requires Blank(blanks) && At(c, i, blanks) && i + |blanks| < |c|
    requires c[i + |blanks|] in {COMMA, COLON, CLOSE_BRACKET, CLOSE_BRACE}
    ensures Delimited(c, i) && Skip(c, i) == i + |blanks|
  {
    SkipOver(c, i, blanks);
    if blanks != [] {
      AtIndex(c, i, blanks, 0);
    }
  }

  lemma NestingOf(v: Value)
    ensures !v.Arr? && !v.Obj? ==> Nesting(v) == 0
    ensures v.Arr? ==> Nesting(v) == 1 + NestingOfItems(v.items)
    ensures v.Obj? ==> Nesting(v) == 1 + NestingOfMembers(v.members)
  {
  }

  /** Parsing any text of a value yields the value, exactly when it is not nested too deeply. */
  lemma {:induction false} ValueRoundTrip(l: Layout, c: Bytes, i: nat, depth: nat)
    requires Valid(l, false) && At(c, i, Text(l)) && Delimited(c, i + |Text(l)|) && depth <= NESTING_LIMIT
    ensures ParseValue(c, i, depth) == Expected(Nesting(Tree(l)), depth, Tree(l), i + |Text(l)|)
    decreases l, 1
  {
    hide At, Nesting, ValidItems, ValidEntries, ParseString, ParseNumber, ParseArray, ParseObject,
      LiteralText, ItemsText, EntriesText, ValidChars, CharsBytes, NulFree, StrtodLength, Trees, MemberTrees;
    TextStart(l, c, i);
    AtIndex(c, i, Text(l), 0);
    AtFirst(c, i, NULL_TEXT);
    AtFirst(c, i, FALSE_TEXT);
    AtFirst(c, i, TRUE_TEXT);
    NestingOf(Tree(l));
    match l
    case Plain(v) =>
      if v.Number? {
        NumberRoundTrip(c, i, v.text);
      }
    case StrText(chars) =>
      LiteralStart(chars);
      StringRoundTrip(c, i, chars);
    case ArrText(items, blank) =>
      ArrayRoundTrip(items, blank, c, i, depth);
    case ObjText(members, blank) =>
      ObjectRoundTrip(members, blank, c, i, depth);
  }

  lemma LiteralStart(chars: seq<Char>)
    ensures LiteralText(chars) != [] && LiteralText(chars)[0] == QUOTE
  {
  }

  // ---------- arrays ----------

  lemma {:induction false} ArrayRoundTrip(items: seq<Item>, blank: Bytes, c: Bytes, i: nat, depth: nat)
    requires ValidItems(items, false) && Blank(blank) && depth <= NESTING_LIMIT
    requires At(c, i, Text(ArrText(items, blank)))
    ensures i < |c| && ParseArray(c, i, depth) ==
      Expected(1 + NestingOfItems(Trees(items)), depth, Trees(items), i + |Text(ArrText(items, blank))|)
    decreases items, 1
  {
    hide At, Skip, Blank, Nesting, NestingOfItems, Trees, ValidItems, ItemsText, ParseItems;
    var inner := if items == [] then blank else ItemsText(items);
    AtConcat3(c, i, [OPEN_BRACKET], inner, [CLOSE_BRACKET]);
    AtByte(c, i, OPEN_BRACKET);
    AtByte(c, i + 1 + |inner|, CLOSE_BRACKET);
    if items == [] {
      NothingNested();
      BlanksEnd(c, i + 1, blank);
    } else if depth < NESTING_LIMIT {
      ItemsStart(items, c, i + 1);
      ItemsFrom(c, i + 1, Skip(c, i + 1), depth + 1);
      ItemsRoundTrip(items, c, i + 1, depth + 1);
    }
  }

  lemma NothingNested()
    ensures Trees([]) == [] && MemberTrees([]) == [] && NestingOfItems([]) == 0 && NestingOfMembers([]) == 0
  {
  }

  /** The parser looks only at where the blanks end. */
  lemma ItemsFrom(c: Bytes, p: nat, q: nat, depth: nat)
    requires p <= |c| && q <= |c| && Skip(c, p) == Skip(c, q)
    ensures ParseItems(c, p, depth) == ParseItems(c, q, depth)
  {
    hide Skip, ParseValue;
  }

  lemma ItemPieces(items: seq<Item>, c: Bytes, p: nat)
    requires items != [] && At(c, p, ItemsText(items))
    ensures var it := items[0];
            var q := p + |it.before|;
            var e := q + |Text(it.value)| + |it.after|;
      && At(c, p, it.before) && At(c, q, Text(it.value)) && At(c, q + |Text(it.value)|, it.after)
      && (|items| == 1 ==> p + |ItemsText(items)| == e)
      && (|items| > 1 ==>
            e < |c| && c[e] == COMMA && At(c, e + 1, ItemsText(items[1..]))
            && p + |ItemsText(items)| == e + 1 + |ItemsText(items[1..])|)
  {
    hide At, Text;
    var it := items[0];
    var rest := if |items| == 1 then [] else [COMMA] + ItemsText(items[1..]);
    assert ItemsText(items) == it.before + Text(it.value) + it.after + rest;
    hide ItemsText;
    AtConcat(c, p, it.before + Text(it.value) + it.after, rest);
    AtConcat3(c, p, it.before, Text(it.value), it.after);
    if |items| > 1 {
      var e := p + |it.before + Text(it.value) + it.after|;
      AtConcat(c, e, [COMMA], ItemsText(items[1..]));
      AtByte(c, e, COMMA);
    }
  }

  /** Skipping leads to the first element. */
  lemma ItemsStart(items: seq<Item>, c: Bytes, p: nat)
    requires items != [] && ValidItems(items, false) && At(c, p, ItemsText(items))
    ensures p <= |c| && Skip(c, p) == p + |items[0].before| < |c|
    ensures Skip(c, Skip(c, p)) == Skip(c, p) && c[Skip(c, p)] != CLOSE_BRACKET
  {
    hide Skip, At, Blank, Text, ItemsText;
    ItemPieces(items, c, p);
    AtBounds(c, p, items[0].before);
    TextStart(items[0].value, c, p + |items[0].before|);
    SkipOver(c, p, items[0].before);
    NoSkip(c, p + |items[0].before|);
  }

  lemma TreesStep(items: seq<Item>)
    requires items != []
    ensures Trees(items) == [Tree(items[0].value)] + Trees(items[1..])
    ensures NestingOfItems(Trees(items)) == Max(Nesting(Tree(items[0].value)), NestingOfItems(Trees(items[1..])))
    ensures |items| == 1 ==> Trees(items) == [Tree(items[0].value)] && NestingOfItems(Trees(items[1..])) == 0
  {
    hide Tree, Nesting;
    assert ([Tree(items[0].value)] + Trees(items[1..]))[1..] == Trees(items[1..]);
  }

  lemma {:induction false} ItemsRoundTrip(items: seq<Item>, c: Bytes, p: nat, depth: nat)
    requires items != [] && ValidItems(items, false) && depth <= NESTING_LIMIT && At(c, p, ItemsText(items))
    requires var e := p + |ItemsText(items)|; e < |c| && c[e] == CLOSE_BRACKET
    ensures p <= |c| && ParseItems(c, p, depth) ==
      Expected(NestingOfItems(Trees(items)), depth, Trees(items), p + |ItemsText(items)| + 1)
    decreases items, 0
  {
    hide ParseValue, Skip, At, Blank, Delimited, Text, ItemsText, Tree, Trees, Nesting, NestingOfItems, Valid,
      IsNumberByte;
    ItemsStart(items, c, p);
    ItemPieces(items, c, p);
    TreesStep(items);
    var it := items[0];
    var q := p + |it.before|;
    BlanksEnd(c, q + |Text(it.value)|, it.after);
    ValueRoundTrip(it.value, c, q, depth);
    if |items| > 1 {
      ItemsRoundTrip(items[1..], c, q + |Text(it.value)| + |it.after| + 1, depth);
    }
  }

  // ---------- objects ----------

  lemma {:induction false} ObjectRoundTrip(members: seq<Entry>, blank: Bytes, c: Bytes, i: nat, depth: nat)
    requires ValidEntries(members, false) && Blank(blank) && depth <= NESTING_LIMIT
    requires At(c, i, Text(ObjText(members, blank)))
    ensures i < |c| && ParseObject(c, i, depth) ==
      Expected(1 + NestingOfMembers(MemberTrees(members)), depth, MemberTrees(members),
               i + |Text(ObjText(members, blank))|)
    decreases members, 1
  {
    hide At, Skip, Blank, Nesting, NestingOfMembers, MemberTrees, ValidEntries, EntriesText, ParseMembers;
    var inner := if members == [] then blank else EntriesText(members);
    AtConcat3(c, i, [OPEN_BRACE], inner, [CLOSE_BRACE]);
    AtByte(c, i, OPEN_BRACE);
    AtByte(c, i + 1 + |inner|, CLOSE_BRACE);
    if members == [] {
      NothingNested();
      BlanksEnd(c, i + 1, blank);
    } else if depth < NESTING_LIMIT {
      EntriesStart(members, c, i + 1);
      MembersFrom(c, i + 1, Skip(c, i + 1), depth + 1);
      MembersRoundTrip(members, c, i + 1, depth + 1);
    }
  }

  lemma MembersFrom(c: Bytes, p: nat, q: nat, depth: nat)
    requires p <= |c| && q <= |c| && Skip(c, p) == Skip(c, q)
    ensures ParseMembers(c, p, depth) == ParseMembers(c, q, depth)
  {
    hide Skip, ParseString, ParseValue;
    assert ParseMember(c, p, depth) == ParseMember(c, q, depth);
  }

  lemma EntryPieces(m: Entry, c: Bytes, p: nat)
    requires At(c, p, EntryText(m))
    ensures var k := p + |m.before|;
            var o := k + |LiteralText(m.key)| + |m.beforeColon|;
            var q := o + 1 + |m.afterColon|;
      && At(c, p, m.before) && At(c, k, LiteralText(m.key)) && At(c, k + |LiteralText(m.key)|, m.beforeColon)
      && o < |c| && c[o] == COLON && At(c, o + 1, m.afterColon) && At(c, q, Text(m.value))
      && At(c, q + |Text(m.value)|, m.after) && p + |EntryText(m)| == q + |Text(m.value)| + |m.after|
  {
    hide At, Text, LiteralText;
    var left := m.before + LiteralText(m.key) + m.beforeColon;
    assert EntryText(m) == left + [COLON] + (m.afterColon + Text(m.value) + m.after);
    AtConcat3(c, p, left, [COLON], m.afterColon + Text(m.value) + m.after);
    AtConcat3(c, p, m.before, LiteralText(m.key), m.beforeColon);
    AtByte(c, p + |left|, COLON);
    AtConcat3(c, p + |left| + 1, m.afterColon, Text(m.value), m.after);
  }

  lemma EntriesPieces(members: seq<Entry>, c: Bytes, p: nat)
    requires members != [] && At(c, p, EntriesText(members))
    ensures var e := p + |EntryText(members[0])|;
      && At(c, p, EntryText(members[0]))
      && (|members| == 1 ==> p + |EntriesText(members)| == e)
      && (|members| > 1 ==>
            e < |c| && c[e] == COMMA && At(c, e + 1, EntriesText(members[1..]))
            && p + |EntriesText(members)| == e + 1 + |EntriesText(members[1..])|)
  {
    hide At, EntryText;
    var rest := if |members| == 1 then [] else [COMMA] + EntriesText(members[1..]);
    assert EntriesText(members) == EntryText(members[0]) + rest;
    hide EntriesText;
    AtConcat(c, p, EntryText(members[0]), rest);
    if |members| > 1 {
      AtConcat(c, p + |EntryText(members[0])|, [COMMA], EntriesText(members[1..]));
      AtByte(c, p + |EntryText(members[0])|, COMMA);
    }
  }

  /** Skipping leads to the quote that opens the first key. */
  lemma EntriesStart(members: seq<Entry>, c: Bytes, p: nat)
    requires members != [] && ValidEntries(members, false) && At(c, p, EntriesText(members))
    ensures p <= |c| && Skip(c, p) == p + |members[0].before| < |c|
    ensures Skip(c, Skip(c, p)) == Skip(c, p) && c[Skip(c, p)] == QUOTE
  {
    hide Skip, At, EntryText, EntriesText, ValidEntries;
    assert ValidEntry(members[0], false) by {
      FirstValid(members);
    }
    EntriesPieces(members, c, p);
    KeyStart(members[0], c, p);
  }

  lemma FirstValid(members: seq<Entry>)
    requires members != [] && ValidEntries(members, false)
    ensures ValidEntry(members[0], false) && ValidEntries(members[1..], false)
  {
  }

  lemma KeyStart(m: Entry, c: Bytes, p: nat)
    requires ValidEntry(m, false) && At(c, p, EntryText(m))
    ensures p <= |c| && Skip(c, p) == p + |m.before| < |c|
    ensures Skip(c, Skip(c, p)) == Skip(c, p) && c[Skip(c, p)] == QUOTE
  {
    hide Skip, At, Blank, EntryText, LiteralText;
    EntryPieces(m, c, p);
    AtBounds(c, p, m.before);
    LiteralStart(m.key);
    AtIndex(c, p + |m.before|, LiteralText(m.key), 0);
    SkipOver(c, p, m.before);
    NoSkip(c, p + |m.before|);
  }

  /** One member, its blanks included, up to the comma or brace behind it. */
  lemma {:induction false} MemberRoundTrip(m: Entry, c: Bytes, p: nat, depth: nat)
    requires ValidEntry(m, false) && At(c, p, EntryText(m)) && depth <= NESTING_LIMIT
    requires var e := p + |EntryText(m)|; e < |c| && c[e] in {COMMA, CLOSE_BRACE}
    ensures p <= |c| && |m.after| <= |EntryText(m)|
    ensures var e := p + |EntryText(m)| - |m.after|;
      && Skip(c, e) == p + |EntryText(m)| && e <= |c|
      && ParseMember(c, p, depth) ==
           Expected(Nesting(Tree(m.value)), depth, Member(CharsBytes(m.key), Tree(m.value)), e)
    decreases m, 0
  {
    hide At, Skip, Blank, Delimited, ValidChars, Valid, Nesting, Tree, CharsBytes, Text, EntryText, LiteralText,
      ParseString, ParseValue;
    EntryPieces(m, c, p);
    KeyStart(m, c, p);
    var k := p + |m.before|;
    var o := k + |LiteralText(m.key)| + |m.beforeColon|;
    var q := o + 1 + |m.afterColon|;
    StringRoundTrip(c, k, m.key);
    BlanksEnd(c, k + |LiteralText(m.key)|, m.beforeColon);
    TextStart(m.value, c, q);
    SkipOver(c, o + 1, m.afterColon);
    BlanksEnd(c, q + |Text(m.value)|, m.after);
    ValueRoundTrip(m.value, c, q, depth);
  }

  lemma MemberTreesStep(members: seq<Entry>)
    requires members != []
    ensures var m := members[0];
      && MemberTrees(members) == [Member(CharsBytes(m.key), Tree(m.value))] + MemberTrees(members[1..])
      && NestingOfMembers(MemberTrees(members))
         == Max(Nesting(Tree(m.value)), NestingOfMembers(MemberTrees(members[1..])))
      && (|members| == 1 ==>
            MemberTrees(members) == [Member(CharsBytes(m.key), Tree(m.value))]
            && NestingOfMembers(MemberTrees(members[1..])) == 0)
  {
    hide Tree, Nesting;
    var m := members[0];
    assert ([Member(CharsBytes(m.key), Tree(m.value))] + MemberTrees(members[1..]))[1..] == MemberTrees(members[1..]);
  }

  lemma {:induction false} MembersRoundTrip(members: seq<Entry>, c: Bytes, p: nat, depth: nat)
    requires members != [] && ValidEntries(members, false) && depth <= NESTING_LIMIT
    requires At(c, p, EntriesText(members))
    requires var e := p + |EntriesText(members)|; e < |c| && c[e] == CLOSE_BRACE
    ensures p <= |c| && ParseMembers(c, p, depth) ==
      Expected(NestingOfMembers(MemberTrees(members)), depth, MemberTrees(members), p + |EntriesText(members)| + 1)
    decreases members, 0
  {
    hide At, Skip, ValidEntry, EntryText, EntriesText, Tree, MemberTrees, CharsBytes, Nesting, NestingOfMembers,
      ParseMember;
    EntriesPieces(members, c, p);
    FirstValid(members);
    MemberTreesStep(members);
    MemberRoundTrip(members[0], c, p, depth);
    if |members| > 1 {
      MembersRoundTrip(members[1..], c, p + |EntryText(members[0])| + 1, depth);
    }
  }

  // ---------- documents ----------

  /** `cJSON_Parse` of any text of a tree builds the tree, exactly for the trees nested at most a
      thousand deep. */
  lemma AnyTextParses(bom: bool, lead: Bytes, l: Layout, trail: Bytes, requireNul: bool)
    requires Valid(l, false) && Blank(lead) && Blank(trail)
    ensures var text := DocumentText(bom, lead, l, trail);
      ParseText(text, requireNul) ==
        Expected(Nesting(Tree(l)), 0, Tree(l), if requireNul then |text| else |text| - |trail|)
  {
    hide At, Blank, BomEnd, Delimited, DocumentText, Nesting, ParseValue, Skip, Text, Tree, Valid;
    var c := DocumentText(bom, lead, l, trail) + [0];
    var n := if bom then 3 else 0;
    var i := n + |lead|;
    DocumentPieces(bom, lead, l, trail, c);
    TextStart(l, c, i);
    SkipOver(c, n, lead);
    MarkRead(bom, c, lead, n);
    TrailSkipped(c, i + |Text(l)|, trail);
    ValueRoundTrip(l, c, i, 0);
  }

  lemma Regroup(a: Bytes, b: Bytes, d: Bytes, e: Bytes, f: Bytes)
    ensures a + b + d + e + f == a + (b + d + (e + f))
  {
  }

  lemma DocumentPieces(bom: bool, lead: Bytes, l: Layout, trail: Bytes, c: Bytes)
    requires c == DocumentText(bom, lead, l, trail) + [0]
    ensures var n := if bom then 3 else 0;
            var e := n + |lead| + |Text(l)|;
      && (bom ==> At(c, 0, BOM)) && At(c, n, lead) && At(c, n + |lead|, Text(l)) && At(c, e, trail + [0])
      && |c| == e + |trail| + 1 && |DocumentText(bom, lead, l, trail)| == |c| - 1
  {
    hide Text;
    var mark := if bom then BOM else [];
    var rest := lead + Text(l) + (trail + [0]);
    Regroup(mark, lead, Text(l), trail, [0]);
    assert c[0..|c|] == c && At(c, 0, mark + rest);
    hide At;
    AtConcat(c, 0, mark, rest);
    AtConcat3(c, |mark|, lead, Text(l), trail + [0]);
  }

  lemma MarkRead(bom: bool, c: Bytes, lead: Bytes, n: nat)
    requires n == (if bom then 3 else 0) && Blank(lead) && At(c, n, lead)
    requires n + |lead| + 1 < |c| && c[n + |lead|] != 0xEF && (bom ==> At(c, 0, BOM))
    ensures BomEnd(c) == n
  {
    if !bom {
      if lead != [] {
        AtIndex(c, n, lead, 0);
      }
      AtFirst(c, 0, BOM);
    }
  }

  lemma TrailSkipped(c: Bytes, e: nat, trail: Bytes)
    requires Blank(trail) && At(c, e, trail + [0]) && e + |trail| + 1 == |c|
    ensures Delimited(c, e) && Skip(c, e) == |c| - 1 && c[|c| - 1] == 0
  {
    var all := trail + [0];
    assert forall i :: 0 <= i < |all| ==> all[i] <= 32;
    BlankToEnd(c, e, all);
    AtIndex(c, e, all, 0);
    AtIndex(c, e, all, |trail|);
  }

  lemma {:induction false} BlankToEnd(c: Bytes, i: nat, blanks: Bytes)
    requires Blank(blanks) && At(c, i, blanks) && i + |blanks| == |c|
    ensures BlankEnd(c, i) == |c|
    decreases |blanks|
  {
    if blanks != [] {
      AtIndex(c, i, blanks, 0);
      assert blanks == [blanks[0]] + blanks[1..];
      AtConcat(c, i, [blanks[0]], blanks[1..]);
      BlankToEnd(c, i + 1, blanks[1..]);
    }
  }

  // ---------- what is printed ----------

  /** How the printer spells a byte. */
  function CharOf(b: byte): Char {
    if LetterOf(b) != 0 && b != 47 then Short(b)
    else if b < 32 then Unicode([b], [false, false, false, false])
    else Raw(b)
  }

  lemma CharOfRight(b: byte)
    requires b != 0
    ensures ValidChar(CharOf(b), false) && CharText(CharOf(b)) == EscapedByte(b) && CharBytes(CharOf(b)) == [b]
    ensures !CharOf(b).Cut?
  {
    if LetterOf(b) == 0 && b < 32 {
      assert b / 0x1000 == 0 && b / 0x100 % 16 == 0 && b / 0x10 % 16 == b / 16;
    }
  }

  function CharsOf(s: Bytes): seq<Char> {
    if s == [] then [] else [CharOf(s[0])] + CharsOf(s[1..])
  }

  lemma {:induction false} CharsOfRight(s: Bytes)
    requires NulFree(s)
    ensures ValidChars(CharsOf(s), false) && LiteralText(CharsOf(s)) == Quoted(s) && CharsBytes(CharsOf(s)) == s
    ensures CharsText(CharsOf(s)) == Escaped(s)
  {
    hide CharOf, ValidChar, CharText, CharBytes, EscapedByte;
    if s != [] {
      CharOfRight(s[0]);
      CharsOfRight(s[1..]);
      assert [s[0]] + s[1..] == s;
    }
  }

  function Newline(format: bool): Bytes {
    if format then [NEWLINE] else []
  }

  function Gap(format: bool, first: bool): Bytes {
    if format && !first then [SPACE] else []
  }

  /** How the printer lays a value out. */
  function Laid(v: Value, format: bool, tabs: nat): Layout
    decreases v, 1
  {
    match v
    case Str(s) => StrText(CharsOf(s))
    case Arr(items) => ArrText(LaidItems(items, format, tabs + 1, true), [])
    case Obj(members) => ObjText(LaidMembers(members, format, tabs + 1), Newline(format) + Indent(format, tabs))
    case _ => Plain(v)
  }

  function LaidItems(items: seq<Value>, format: bool, tabs: nat, first: bool): (laid: seq<Item>)
    ensures |laid| == |items|
    decreases items, 0
  {
    if items == [] then []
    else [Item(Gap(format, first), Laid(items[0], format, tabs), [])] + LaidItems(items[1..], format, tabs, false)
  }

  function LaidMembers(members: seq<Member>, format: bool, tabs: nat): (laid: seq<Entry>)
    requires tabs > 0
    ensures |laid| == |members|
    decreases members, 0
  {
    if members == [] then []
    else [LaidMember(members[0], format, tabs, |members| == 1)] + LaidMembers(members[1..], format, tabs)
  }

  function LaidMember(m: Member, format: bool, tabs: nat, last: bool): Entry
    requires tabs > 0
    decreases m, 0
  {
    Entry(Newline(format) + Indent(format, tabs), CharsOf(m.key), [], if format then [TAB] else [],
          Laid(m.value, format, tabs), if last then Newline(format) + Indent(format, tabs - 1) else [])
  }

  lemma LayoutIsBlank(format: bool, tabs: nat, first: bool)
    ensures Blank(Newline(format) + Indent(format, tabs)) && Blank(Gap(format, first)) && Blank([])
    ensures Blank(if format then [TAB] else [])
  {
  }

  lemma RegroupItems(gap: Bytes, item: Bytes, comma: Bytes, next: Bytes, rest: Bytes)
    ensures gap + item + [] + (comma + (next + rest)) == gap + (item + (comma + next) + rest)
    ensures gap + item + [] + [] == gap + item
  {
  }

  lemma RegroupMembers(newline: Bytes, member: Bytes, comma: Bytes, rest: Bytes, indent: Bytes)
    ensures newline + member + [] + (comma + (newline + rest + indent))
         == newline + (member + (comma + newline) + rest) + indent
    ensures newline + member + (newline + indent) + [] == newline + (member + newline + []) + indent
  {
  }

  lemma RegroupMember(newline: Bytes, indent: Bytes, key: Bytes, colon: Bytes, tab: Bytes, value: Bytes, end: Bytes)
    ensures newline + indent + key + [] + colon + tab + value + end
         == newline + (indent + key + (colon + tab) + value) + end
  {
  }

  /** What is printed is a text of the tree. */
  lemma {:induction false} PrintedIsText(v: Value, format: bool, tabs: nat)
    requires WellFormed(v)
    ensures var l := Laid(v, format, tabs); Valid(l, false) && Text(l) == Printed(v, format, tabs) && Tree(l) == v
    decreases v, 1
  {
    hide CharsOf, Quoted, LiteralText, ValidChars, CharsBytes, LaidItems, LaidMembers, NulFree, Blank, Newline, Indent,
      ItemsText, EntriesText, PrintedItems, PrintedMembers;
    LayoutIsBlank(format, tabs, true);
    match v
    case Str(s) => CharsOfRight(s);
    case Arr(items) =>
      PrintedItemsAreText(items, format, tabs + 1, true);
    case Obj(members) =>
      PrintedMembersAreText(members, format, tabs + 1);
      ObjectText(members, format, tabs);
    case _ =>
  }

  lemma ObjectText(members: seq<Member>, format: bool, tabs: nat)
    ensures var newline, indent := Newline(format), Indent(format, tabs);
            var inner := PrintedMembers(members, format, tabs + 1);
      Printed(Obj(members), format, tabs)
        == [OPEN_BRACE] + (if members == [] then newline + indent else newline + inner + indent) + [CLOSE_BRACE]
  {
    hide Indent;
    var newline, inner, indent := Newline(format), PrintedMembers(members, format, tabs + 1), Indent(format, tabs);
    var open := if format then [OPEN_BRACE, NEWLINE] else [OPEN_BRACE];
    assert open == [OPEN_BRACE] + newline && newline + [] == newline;
    assert Printed(Obj(members), format, tabs) == open + inner + indent + [CLOSE_BRACE];
    assert members == [] ==> inner == [];
    hide Newline, Printed, PrintedMembers;
    RegroupObject([OPEN_BRACE], newline, inner, indent, [CLOSE_BRACE]);
  }

  lemma RegroupObject(open: Bytes, newline: Bytes, inner: Bytes, indent: Bytes, close: Bytes)
    ensures open + newline + inner + indent + close == open + (newline + inner + indent) + close
  {
  }

  lemma {:induction false} PrintedItemsAreText(items: seq<Value>, format: bool, tabs: nat, first: bool)
    requires WellFormedItems(items)
    ensures var l := LaidItems(items, format, tabs, first);
      && ValidItems(l, false) && Trees(l) == items
      && (items != [] ==> ItemsText(l) == Gap(format, first) + PrintedItems(items, format, tabs))
    ensures items == [] ==> PrintedItems(items, format, tabs) == []
    decreases items, 0
  {
    hide Laid, Blank, Valid, WellFormed, Tree, Text, Printed;
    if items != [] {
      var l := LaidItems(items, format, tabs, first);
      var rest := LaidItems(items[1..], format, tabs, false);
      LayoutIsBlank(format, tabs, first);
      PrintedIsText(items[0], format, tabs);
      PrintedItemsAreText(items[1..], format, tabs, false);
      assert l[1..] == rest && [items[0]] + items[1..] == items;
      RegroupItems(Gap(format, first), Printed(items[0], format, tabs), [COMMA], Gap(format, false),
                   PrintedItems(items[1..], format, tabs));
      assert ItemSeparator(format) == [COMMA] + Gap(format, false);
      hide Gap, ItemSeparator;
    }
  }

  lemma {:induction false} PrintedMembersAreText(members: seq<Member>, format: bool, tabs: nat)
    requires WellFormedMembers(members) && tabs > 0
    ensures var l := LaidMembers(members, format, tabs);
      && ValidEntries(l, false) && MemberTrees(l) == members
      && (members != [] ==>
            EntriesText(l) == Newline(format) + PrintedMembers(members, format, tabs) + Indent(format, tabs - 1))
    decreases members, 0
  {
    hide LaidMember, ValidEntry, WellFormed, NulFree, Tree, EntryText, PrintedMember, CharsBytes, Indent;
    if members != [] {
      var l := LaidMembers(members, format, tabs);
      var rest := LaidMembers(members[1..], format, tabs);
      PrintedMemberIsText(members[0], format, tabs, |members| == 1);
      PrintedMembersAreText(members[1..], format, tabs);
      assert l[1..] == rest && [members[0]] + members[1..] == members;
      assert MemberEnd(true, format) == [COMMA] + Newline(format) && MemberEnd(false, format) == Newline(format);
      hide Newline, MemberEnd;
      RegroupMembers(Newline(format), PrintedMember(members[0], format, tabs), [COMMA],
                     PrintedMembers(members[1..], format, tabs), Indent(format, tabs - 1));
    }
  }

  lemma {:induction false} PrintedMemberIsText(m: Member, format: bool, tabs: nat, last: bool)
    requires NulFree(m.key) && WellFormed(m.value) && tabs > 0
    ensures var l := LaidMember(m, format, tabs, last);
      && ValidEntry(l, false) && Tree(l.value) == m.value && CharsBytes(l.key) == m.key
      && EntryText(l) == Newline(format) + PrintedMember(m, format, tabs)
                         + if last then Newline(format) + Indent(format, tabs - 1) else []
    decreases m, 0
  {
    hide CharsOf, Quoted, LiteralText, ValidChars, CharsBytes, NulFree, Blank, Newline, Indent, Laid, Valid, Tree, Text,
      Printed;
    LayoutIsBlank(format, tabs, true);
    LayoutIsBlank(format, tabs - 1, true);
    CharsOfRight(m.key);
    PrintedIsText(m.value, format, tabs);
    var tab := if format then [TAB] else [];
    var end := if last then Newline(format) + Indent(format, tabs - 1) else [];
    assert Colon(format) == [COLON] + tab;
    hide Colon;
    RegroupMember(Newline(format), Indent(format, tabs), Quoted(m.key), [COLON], tab, Printed(m.value, format, tabs),
                  end);
  }

  /** `cJSON_Parse` of what `cJSON_Print` or `cJSON_PrintUnformatted` wrote rebuilds the tree,
      exactly for the trees nested at most a thousand deep. */
  lemma DocumentRoundTrip(v: Value, format: bool, requireNul: bool)
    requires WellFormed(v)
    ensures ParseText(Printed(v, format, 0), requireNul) ==
      Expected(Nesting(v), 0, v, |Printed(v, format, 0)|)
  {
    hide Printed, Nesting, WellFormed, Laid, Valid, Text, Tree, ParseText;
    PrintedIsText(v, format, 0);
    AnyTextParses(false, [], Laid(v, format, 0), [], requireNul);
    assert DocumentText(false, [], Laid(v, format, 0), []) == Printed(v, format, 0);
  }
}
