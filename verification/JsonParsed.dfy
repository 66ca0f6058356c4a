/** What the parser accepts and produces on arbitrary input: nothing but texts of trees, and trees that
    are well formed and within the nesting limit; and correct UTF-8 for \u escapes. */
module JsonParsed {
  import opened Common
  import opened JsonText
  import opened JsonGrammar
  import opened JsonRendering
  import opened JsonRoundTrip

  // ---------- numbers ----------

  lemma {:induction false} DigitsOfPrefix(t: Bytes, n: nat, p: nat)
    requires p <= n <= |t| && DigitsEnd(t, p) <= n
    ensures DigitsEnd(t[..n], p) == DigitsEnd(t, p)
    decreases n - p
  {
    if p < n && IsDigit(t[p]) {
      DigitsOfPrefix(t, n, p + 1);
    }
  }

  lemma {:induction false} DigitsCut(t: Bytes, p: nat)
    requires p <= |t|
    ensures DigitsEnd(t, p) < |t| ==> !IsDigit(t[DigitsEnd(t, p)])
    decreases |t| - p
  {
    if p < |t| && IsDigit(t[p]) {
      DigitsCut(t, p + 1);
    }
  }

  /** Cutting the text where the number ends does not change where it ends. */
  lemma StrtodOfPrefix(t: Bytes)
    ensures StrtodLength(t[..StrtodLength(t)]) == StrtodLength(t)
  {
    var n := StrtodLength(t);
    var u := t[..n];
    if HasMantissa(t) {
      var s, a, b := SignEnd(t, 0), DigitsEnd(t, SignEnd(t, 0)), MantissaEnd(t);
      assert s <= a <= b <= n;
      DigitsOfPrefix(t, n, s);
      if a < |t| && t[a] == 46 {
        DigitsOfPrefix(t, n, a + 1);
      }
      assert SignEnd(u, 0) == s && DigitsEnd(u, s) == a && MantissaEnd(u) == b;
      if n > b {
        var q := SignEnd(t, b + 1);
        DigitsOfPrefix(t, n, q);
      }
    }
  }

  lemma {:induction false} TokenIsNumberBytes(c: Bytes, i: nat, k: nat)
    requires i + k <= |c| && k <= 63
    ensures forall j :: i + k <= j < NumberToken(c, i, k) ==> IsNumberByte(c[j])
    decreases 63 - k
  {
    if k < 63 && i + k < |c| && IsNumberByte(c[i + k]) {
      TokenIsNumberBytes(c, i, k + 1);
    }
  }

  lemma ParsedNumber(c: Bytes, i: nat)
    requires i < |c| && (c[i] == MINUS || IsDigit(c[i])) && ParseNumber(c, i).Ok?
    ensures WellFormed(ParseNumber(c, i).value)
  {
    var e := NumberToken(c, i, 0);
    var token := c[i..e];
    var n := StrtodLength(token);
    TokenIsNumberBytes(c, i, 0);
    StrtodOfPrefix(token);
    forall j | 0 <= j < n ensures IsNumberByte(token[..n][j]) {
      assert token[..n][j] == c[i + j];
    }
  }

  // ---------- values ----------

  /** A successful parse respects the nesting limit and yields a well-formed tree. */
  lemma {:induction false} ParsedValue(c: Bytes, i: nat, depth: nat)
    requires i <= |c| && depth <= NESTING_LIMIT && ParseValue(c, i, depth).Ok?
    ensures WellFormed(ParseValue(c, i, depth).value)
    ensures depth + Nesting(ParseValue(c, i, depth).value) <= NESTING_LIMIT
    decreases |c| - i, 1
  {
    hide ParseString, ParseNumber, ParseArray, ParseObject, At, NulFree, IsNumberText,
      WellFormedItems, WellFormedMembers, NestingOfItems, NestingOfMembers;
    var v := ParseValue(c, i, depth).value;
    match v
    case Number(t) =>
      ParsedNumber(c, i);
    case Arr(items) =>
      ParsedArray(c, i, depth);
    case Obj(members) =>
      ParsedObject(c, i, depth);
    case _ =>
  }

  lemma {:induction false} ParsedArray(c: Bytes, i: nat, depth: nat)
    requires i < |c| && depth <= NESTING_LIMIT && ParseArray(c, i, depth).Ok?
    ensures WellFormedItems(ParseArray(c, i, depth).value)
    ensures depth + 1 + NestingOfItems(ParseArray(c, i, depth).value) <= NESTING_LIMIT
    decreases |c| - i, 0
  {
    hide ParseItems, Skip;
    var s := Skip(c, i + 1);
    if c[s] != CLOSE_BRACKET {
      ParsedItems(c, s, depth + 1);
    }
  }

  lemma {:induction false} ParsedItems(c: Bytes, p: nat, depth: nat)
    requires p <= |c| && depth <= NESTING_LIMIT && ParseItems(c, p, depth).Ok?
    ensures WellFormedItems(ParseItems(c, p, depth).value)
    ensures depth + NestingOfItems(ParseItems(c, p, depth).value) <= NESTING_LIMIT
    decreases |c| - p, 2
  {
    hide ParseValue, Skip, WellFormed, Nesting;
    ParsedValue(c, Skip(c, p), depth);
    var Ok(v, e) := ParseValue(c, Skip(c, p), depth);
    var s := Skip(c, e);
    if c[s] == COMMA {
      ParsedItems(c, s + 1, depth);
      var rest := ParseItems(c, s + 1, depth).value;
      assert ([v] + rest)[1..] == rest;
    }
  }

  lemma {:induction false} ParsedObject(c: Bytes, i: nat, depth: nat)
    requires i < |c| && depth <= NESTING_LIMIT && ParseObject(c, i, depth).Ok?
    ensures WellFormedMembers(ParseObject(c, i, depth).value)
    ensures depth + 1 + NestingOfMembers(ParseObject(c, i, depth).value) <= NESTING_LIMIT
    decreases |c| - i, 0
  {
    hide ParseMembers, Skip;
    var s := Skip(c, i + 1);
    if c[s] != CLOSE_BRACE {
      ParsedMembers(c, s, depth + 1);
    }
  }

  lemma {:induction false} ParsedMembers(c: Bytes, p: nat, depth: nat)
    requires p <= |c| && depth <= NESTING_LIMIT && ParseMembers(c, p, depth).Ok?
    ensures WellFormedMembers(ParseMembers(c, p, depth).value)
    ensures depth + NestingOfMembers(ParseMembers(c, p, depth).value) <= NESTING_LIMIT
    decreases |c| - p, 3
  {
    hide ParseMember, Skip, WellFormed, Nesting, NulFree;
    ParsedMember(c, p, depth);
    var Ok(m, e) := ParseMember(c, p, depth);
    var s := Skip(c, e);
    if c[s] == COMMA {
      ParsedMembers(c, s + 1, depth);
      var rest := ParseMembers(c, s + 1, depth).value;
      assert ([m] + rest)[1..] == rest;
    }
  }

  lemma {:induction false} ParsedMember(c: Bytes, p: nat, depth: nat)
    requires p <= |c| && depth <= NESTING_LIMIT && ParseMember(c, p, depth).Ok?
    ensures NulFree(ParseMember(c, p, depth).value.key)
    ensures WellFormed(ParseMember(c, p, depth).value.value)
    ensures depth + Nesting(ParseMember(c, p, depth).value.value) <= NESTING_LIMIT
    decreases |c| - p, 2
  {
    hide ParseValue, ParseString, Skip, WellFormed, Nesting, NulFree;
    var e := ParseString(c, Skip(c, p)).offset;
    ParsedValue(c, Skip(c, Skip(c, e) + 1), depth);
  }

  /** Whatever text parses at all, printing the tree and parsing that rebuilds the tree. */
  lemma ParsedRoundTrip(text: Bytes, requireNul: bool, format: bool, requireNul': bool)
    requires ParseText(text, requireNul).Ok?
    ensures var v := ParseText(text, requireNul).value;
      ParseText(Printed(v, format, 0), requireNul') == Ok(v, |Printed(v, format, 0)|)
  {
    hide ParseValue, Skip, Printed, WellFormed, Nesting;
    var c := text + [0];
    ParsedValue(c, Skip(c, BomEnd(c)), 0);
    DocumentRoundTrip(ParseText(text, requireNul).value, format, requireNul');
  }

  // ---------- \u escapes ----------

  /** The encoder produces the shortest UTF-8 sequence of every code point. */
  lemma Utf8Correct(cp: nat)
    requires cp <= 0x10FFFF
    ensures Utf8Value(Utf8(cp)) == cp
  {
    if cp >= 0x10000 {
      assert cp == cp / 0x40000 * 0x40000 + cp / 0x1000 % 0x40 * 0x1000 + cp / 0x40 % 0x40 * 0x40 + cp % 0x40;
    } else if cp >= 0x800 {
      assert cp == cp / 0x1000 * 0x1000 + cp / 0x40 % 0x40 * 0x40 + cp % 0x40;
    }
  }

  /** The surrogate pair of a supplementary code point decodes to that code point. */
  lemma SurrogatePairDecodes(c: Bytes, p: nat, end: nat, cp: nat)
    requires 0x10000 <= cp <= 0x10FFFF && p + 12 <= end <= |c|
    requires c[p + 6] == BACKSLASH && c[p + 7] == LOWER_U
    requires Hex4(c, p + 2) == 0xD800 + (cp - 0x10000) / 0x400
    requires Hex4(c, p + 8) == 0xDC00 + (cp - 0x10000) % 0x400
    ensures CodePoint(c, p, end) == Ok(cp, p + 12)
  {
    var hi, lo := (cp - 0x10000) / 0x400, (cp - 0x10000) % 0x400;
    assert (0xD800 + hi) % 0x400 == hi && (0xDC00 + lo) % 0x400 == lo;
  }

  // ---------- accepted strings ----------

  predicate IsUpper(b: byte) {
    65 <= b <= 70
  }

  lemma HexDigitSpelled(b: byte)
    requires IsHex(b)
    ensures 0 <= HexValue(b) < 16 && HexChar(HexValue(b), IsUpper(b)) == b
    ensures HexValue(b) == 0 <==> b == 48
  {
  }

  /** A `\u` escape with four digits is one of the spellings of the number they denote. */
  lemma EscapeSpelled(c: Bytes, p: nat) returns (upper: seq<bool>)
    requires p + 6 <= |c| && c[p] == BACKSLASH && c[p + 1] == LOWER_U
    requires forall i :: p + 2 <= i < p + 6 ==> IsHex(c[i])
    ensures |upper| == 4 && Escape(Hex4(c, p + 2), upper) == c[p..p + 6]
    ensures Hex4(c, p + 2) == 0 ==> c[p + 2..p + 6] == [48, 48, 48, 48]
  {
    hide IsHex, IsUpper, HexChar, HexValue;
    upper := [IsUpper(c[p + 2]), IsUpper(c[p + 3]), IsUpper(c[p + 4]), IsUpper(c[p + 5])];
    HexDigitSpelled(c[p + 2]);
    HexDigitSpelled(c[p + 3]);
    HexDigitSpelled(c[p + 4]);
    HexDigitSpelled(c[p + 5]);
    Digits16(HexValue(c[p + 2]), HexValue(c[p + 3]), HexValue(c[p + 4]), HexValue(c[p + 5]));
  }

  lemma Digits16(a: nat, b: nat, d: nat, e: nat)
    requires a < 16 && b < 16 && d < 16 && e < 16
    ensures var n := ((a * 16 + b) * 16 + d) * 16 + e;
      n / 0x1000 == a && n / 0x100 % 16 == b && n / 0x10 % 16 == d && n % 16 == e && (n == 0 <==> a == b == d == e == 0)
  {
  }

  lemma HexFour(c: Bytes, p: nat)
    requires p + 4 <= |c| && Hex4(c, p) != 0
    ensures forall i :: p <= i < p + 4 ==> IsHex(c[i])
  {
    forall i | p <= i < p + 4 ensures IsHex(c[i]) {
      assert HexValue(c[i]) >= 0;
    }
  }

  /** One decoding step that produces no NUL reads one character in one of its spellings. */
  lemma StepIsChar(c: Bytes, p: nat, end: nat) returns (ch: Char)
    requires p < end < |c| && ClosingQuote(c, p) == Ok((), end)
    requires DecodeStep(c, p, end).Ok? && !StartsNul(c[p..end])
    ensures ValidChar(ch, false) && CharBytes(ch) == DecodeStep(c, p, end).value
    ensures var next := DecodeStep(c, p, end).offset;
      next <= end && CharText(ch) == c[p..next] && ClosingQuote(c, next) == Ok((), end)
  {
    hide Escape, Utf8, Utf8Value, Hex4, CodePoint;
    assert c[p..end][0] == c[p];
    if c[p] != BACKSLASH {
      ch := Raw(c[p]);
    } else if c[p + 1] != LOWER_U {
      ch := Short(SimpleEscape(c[p + 1]));
    } else {
      ch := UnicodeChar(c, p, end);
      var next := CodePoint(c, p, end).offset;
      assert c[p..next] == CharText(ch);
      CharSkipped(c, p, ch);
    }
  }

  lemma NotNul(c: Bytes, p: nat, end: nat)
    requires p + 6 <= end <= |c| && c[p] == BACKSLASH && c[p + 1] == LOWER_U && !StartsNul(c[p..end])
    ensures forall i :: p + 2 <= i < p + 6 ==> IsHex(c[i])
    ensures c[p + 2..p + 6] != [48, 48, 48, 48]
  {
    hide IsHex;
    var t := c[p..end];
    assert forall i :: 0 <= i < 6 ==> t[i] == c[p + i];
    assert t[..2] == [BACKSLASH, LOWER_U] && t[2..6] == c[p + 2..p + 6];
    forall i | p + 2 <= i < p + 6 ensures IsHex(c[i]) {
      assert t[i - p] == c[i];
    }
  }

  lemma UnicodeChar(c: Bytes, p: nat, end: nat) returns (ch: Char)
    requires p < end < |c| && c[p] == BACKSLASH && c[p + 1] == LOWER_U
    requires CodePoint(c, p, end).Ok? && !StartsNul(c[p..end])
    ensures ValidChar(ch, false) && CharBytes(ch) == Utf8(CodePoint(c, p, end).value)
    ensures CharText(ch) == c[p..CodePoint(c, p, end).offset]
  {
    hide Escape, Utf8, Utf8Value, Hex4, StartsNul, IsHex;
    var Ok(cp, next) := CodePoint(c, p, end);
    NotNul(c, p, end);
    var upper := EscapeSpelled(c, p);
    Utf8Correct(cp);
    if next == p + 6 {
      ch := Unicode(Utf8(cp), upper);
    } else {
      HexFour(c, p + 8);
      var more := EscapeSpelled(c, p + 6);
      ch := Pair(Utf8(cp), upper + more);
      assert (upper + more)[..4] == upper && (upper + more)[4..] == more;
      SurrogateParts(Hex4(c, p + 2), Hex4(c, p + 8));
      assert c[p..p + 12] == c[p..p + 6] + c[p + 6..p + 12];
    }
  }

  lemma SurrogateParts(first: nat, second: nat)
    requires 0xD800 <= first <= 0xDBFF && 0xDC00 <= second <= 0xDFFF
    ensures var n := (first % 0x400) * 0x400 + second % 0x400;
      0xD800 + n / 0x400 == first && 0xDC00 + n % 0x400 == second && n < 0x100000
  {
  }

  lemma ScanStaysBefore(c: Bytes, p: nat, end: nat)
    requires p <= |c| && ClosingQuote(c, p) == Ok((), end)
    ensures p <= end < |c| && c[end] == QUOTE
  {
  }

  /** A decoding step that reads a NUL character produces a NUL. */
  lemma NulDecoded(c: Bytes, p: nat, end: nat)
    requires p < end < |c| && StartsNul(c[p..end]) && DecodeStep(c, p, end).Ok?
    ensures DecodeStep(c, p, end).value == [0]
  {
    var t := c[p..end];
    assert forall i :: 0 <= i < |t| ==> t[i] == c[p + i];
    if c[p] != 0 {
      assert t[..2][0] == t[0] && t[..2][1] == t[1];
      NulDigits(c, p, t);
    }
  }

  lemma NulDigits(c: Bytes, p: nat, t: Bytes)
    requires |t| >= 6 && p + |t| <= |c| && forall i :: 0 <= i < |t| ==> t[i] == c[p + i]
    requires t[2..6] == [48, 48, 48, 48] || exists i :: 2 <= i < 6 && !IsHex(t[i])
    ensures Hex4(c, p + 2) == 0
  {
    if t[2..6] == [48, 48, 48, 48] {
      assert t[2] == t[2..6][0] && t[3] == t[2..6][1] && t[4] == t[2..6][2] && t[5] == t[2..6][3];
    } else {
      var i :| 2 <= i < 6 && !IsHex(t[i]);
      assert HexValue(t[i]) < 0;
      assert i == 2 || i == 3 || i == 4 || i == 5;
    }
  }

  lemma {:induction false} CStringConcat(a: Bytes, b: Bytes)
    requires NulFree(a)
    ensures CString(a + b) == a + CString(b)
  {
    if a == [] {
      assert a + b == b;
    } else {
      assert (a + b)[1..] == a[1..] + b;
      CStringConcat(a[1..], b);
    }
  }

  lemma CStringOfNul(b: Bytes)
    ensures CString([0] + b) == []
  {
  }

  lemma {:induction false} DecodedIsChars(c: Bytes, p: nat, end: nat) returns (chars: seq<Char>)
    requires p <= end < |c| && ClosingQuote(c, p) == Ok((), end) && Decoded(c, p, end).Ok?
    ensures ValidChars(chars, true) && CharsText(chars) == c[p..end]
    ensures CharsBytes(chars) == CString(Decoded(c, p, end).value)
    decreases end - p
  {
    hide ClosingQuote, DecodeStep, StartsNul, NulFree, ValidChar, CharText, CharBytes, CString;
    chars := [];
    if p == end {
      CStringConcat([], []);
      EmptyCString();
    } else {
      var Ok(bytes, next) := DecodeStep(c, p, end);
      if StartsNul(c[p..end]) {
        chars := [Cut(c[p..end])];
        NulDecoded(c, p, end);
        CStringOfNul(Decoded(c, next, end).value);
        CutIs(c[p..end]);
      } else {
        var ch := StepIsChar(c, p, end);
        var rest := DecodedIsChars(c, next, end);
        chars := [ch] + rest;
        UncutChar(ch);
        CStringConcat(bytes, Decoded(c, next, end).value);
        assert c[p..end] == c[p..next] + c[next..end];
      }
    }
  }

  lemma EmptyCString()
    ensures CString([]) == []
  {
  }

  lemma CutIs(text: Bytes)
    requires StartsNul(text)
    ensures ValidChars([Cut(text)], true) && CharsText([Cut(text)]) == text && CharsBytes([Cut(text)]) == []
  {
    assert [Cut(text)][1..] == [];
  }

  lemma UncutChar(ch: Char)
    requires ValidChar(ch, false)
    ensures ValidChar(ch, true) && !ch.Cut? && NulFree(CharBytes(ch))
  {
  }

  /** Every literal that `parse_string` accepts is a literal of the string in some spelling, cut at its
      first NUL character. */
  lemma StringIsText(c: Bytes, i: nat) returns (chars: seq<Char>)
    requires i <= |c| && ParseString(c, i).Ok?
    ensures ValidChars(chars, true) && CharsBytes(chars) == ParseString(c, i).value
    ensures LiteralText(chars) == c[i..ParseString(c, i).offset]
  {
    hide ClosingQuote, Decoded, CString, CharsText, CharsBytes, ValidChars;
    var end := ClosingQuote(c, i + 1).offset;
    assert ClosingQuote(c, i + 1).value == ();
    ScanStaysBefore(c, i + 1, end);
    chars := DecodedIsChars(c, i + 1, end);
    assert c[i..end + 1] == [QUOTE] + c[i + 1..end] + [QUOTE];
  }

  // ---------- accepted values ----------

  lemma {:induction false} BlankUpTo(c: Bytes, i: nat)
    requires i <= |c|
    ensures Blank(c[i..BlankEnd(c, i)])
    decreases |c| - i
  {
    if i < |c| && c[i] <= 32 {
      BlankUpTo(c, i + 1);
      var t := c[i..BlankEnd(c, i)];
      assert t == [c[i]] + c[i + 1..BlankEnd(c, i + 1)];
    }
  }

  /** Skipping to a visible byte passes only blanks. */
  lemma SkipsBlanks(c: Bytes, i: nat)
    requires i <= |c| && Skip(c, i) < |c| && c[Skip(c, i)] > 32
    ensures Blank(c[i..Skip(c, i)])
  {
    BlankUpTo(c, i);
    assert c[i..|c|][|c| - 1 - i] == c[|c| - 1];
  }

  lemma VisibleStart(c: Bytes, i: nat, depth: nat)
    requires i <= |c| && ParseValue(c, i, depth).Ok?
    ensures i < |c| && c[i] > 32
  {
    AtFirst(c, i, NULL_TEXT);
    AtFirst(c, i, FALSE_TEXT);
    AtFirst(c, i, TRUE_TEXT);
  }

  /** Every text that the parser accepts as a value is a text of that value. */
  lemma {:induction false} ValueIsText(c: Bytes, i: nat, depth: nat) returns (l: Layout)
    requires i <= |c| && ParseValue(c, i, depth).Ok?
    ensures Valid(l, true) && Tree(l) == ParseValue(c, i, depth).value
    ensures Text(l) == c[i..ParseValue(c, i, depth).offset]
    decreases |c| - i, 1
  {
    hide ParseString, ParseArray, ParseObject, ParseNumber, IsNumberText, ValidItems, ValidEntries, ValidChars,
      LiteralText, CharsBytes, ItemsText, EntriesText, Trees, MemberTrees, Blank;
    var v := ParseValue(c, i, depth).value;
    VisibleStart(c, i, depth);
    match v
    case Str(_) =>
      var chars := StringIsText(c, i);
      l := StrText(chars);
    case Arr(_) => l := ArrayIsText(c, i, depth);
    case Obj(_) => l := ObjectIsText(c, i, depth);
    case Number(_) =>
      NumberIsText(c, i);
      l := Plain(v);
    case _ => l := Plain(v);
  }

  lemma NumberIsText(c: Bytes, i: nat)
    requires i < |c| && (c[i] == MINUS || IsDigit(c[i])) && ParseNumber(c, i).Ok?
    ensures IsNumberText(ParseNumber(c, i).value.text)
    ensures ParseNumber(c, i).value.text == c[i..ParseNumber(c, i).offset]
  {
    ParsedNumber(c, i);
    hide StrtodLength, IsNumberText;
    var token := c[i..NumberToken(c, i, 0)];
    var n := StrtodLength(token);
    assert token[..n] == c[i..i + n];
  }

  lemma {:induction false} BlankEndVisible(c: Bytes, i: nat)
    requires i <= |c|
    ensures BlankEnd(c, i) < |c| ==> c[BlankEnd(c, i)] > 32
    decreases |c| - i
  {
    if i < |c| && c[i] <= 32 {
      BlankEndVisible(c, i + 1);
    }
  }

  lemma SkipTwice(c: Bytes, i: nat)
    requires i <= |c|
    ensures Skip(c, Skip(c, i)) == Skip(c, i)
  {
    BlankEndVisible(c, i);
    BlankUpTo(c, i);
    if BlankEnd(c, i) == |c| && i < |c| {
      assert c[i..|c|][|c| - 1 - i] == c[|c| - 1];
    }
  }

  lemma {:induction false} ArrayIsText(c: Bytes, i: nat, depth: nat) returns (l: Layout)
    requires i < |c| && c[i] == OPEN_BRACKET && ParseArray(c, i, depth).Ok?
    ensures Valid(l, true) && Tree(l) == Arr(ParseArray(c, i, depth).value)
    ensures Text(l) == c[i..ParseArray(c, i, depth).offset]
    decreases |c| - i, 0
  {
    hide Skip, ParseItems, ItemsText, ValidItems, Trees, Blank;
    var s, e := Skip(c, i + 1), ParseArray(c, i, depth).offset;
    if c[s] == CLOSE_BRACKET {
      SkipsBlanks(c, i + 1);
      NoItems();
      l := ArrText([], c[i + 1..s]);
      assert c[i..e] == [OPEN_BRACKET] + c[i + 1..s] + [CLOSE_BRACKET];
    } else {
      SkipTwice(c, i + 1);
      ItemsFrom(c, i + 1, s, depth + 1);
      var items := ItemsAreText(c, i + 1, depth + 1);
      NoItems();
      l := ArrText(items, []);
      assert c[i..e] == [OPEN_BRACKET] + c[i + 1..e];
    }
  }

  lemma NoItems()
    ensures Blank([]) && ValidItems([], true) && ValidEntries([], true) && Trees([]) == [] && MemberTrees([]) == []
  {
  }

  lemma Joined(c: Bytes, i: nat, j: nat, k: nat)
    requires i <= j <= k <= |c|
    ensures c[i..j] + c[j..k] == c[i..k]
  {
  }

  /** A piece, a separator, and what follows it. */
  lemma Separated(c: Bytes, p: nat, s: nat, e: nat, rest: Bytes, close: byte)
    requires p <= s < e <= |c| && rest + [close] == c[s + 1..e]
    ensures c[p..s] + ([c[s]] + rest) + [close] == c[p..e]
  {
    Joined(c, p, s, e);
    Joined(c, s, s + 1, e);
    assert c[s..s + 1] == [c[s]];
    assert c[p..s] + ([c[s]] + rest) + [close] == c[p..s] + ([c[s]] + (rest + [close]));
  }

  lemma Closed(c: Bytes, p: nat, s: nat)
    requires p <= s < |c|
    ensures c[p..s] + [c[s]] == c[p..s + 1]
  {
  }

  lemma {:induction false} ItemsAreText(c: Bytes, p: nat, depth: nat) returns (items: seq<Item>)
    requires p <= |c| && ParseItems(c, p, depth).Ok?
    ensures items != [] && ValidItems(items, true) && Trees(items) == ParseItems(c, p, depth).value
    ensures ItemsText(items) + [CLOSE_BRACKET] == c[p..ParseItems(c, p, depth).offset]
    decreases |c| - p, 2
  {
    hide Skip, ParseValue, Valid, Tree, Text, Blank;
    var q := Skip(c, p);
    var Ok(v, e) := ParseValue(c, q, depth);
    var s := Skip(c, e);
    VisibleStart(c, q, depth);
    SkipsBlanks(c, p);
    SkipsBlanks(c, e);
    var l := ValueIsText(c, q, depth);
    var item := Item(c[p..q], l, c[e..s]);
    Joined(c, p, q, e);
    Joined(c, p, e, s);
    if c[s] == COMMA {
      var rest := ItemsAreText(c, s + 1, depth);
      items := [item] + rest;
      var e' := ParseItems(c, p, depth).offset;
      assert items[1..] == rest && ItemsText(items) == c[p..s] + ([COMMA] + ItemsText(rest));
      Separated(c, p, s, e', ItemsText(rest), CLOSE_BRACKET);
    } else {
      items := [item];
      NoItems();
      assert items[1..] == [] && ItemsText(items) == c[p..s];
      Closed(c, p, s);
    }
  }

  lemma {:induction false} ObjectIsText(c: Bytes, i: nat, depth: nat) returns (l: Layout)
    requires i < |c| && c[i] == OPEN_BRACE && ParseObject(c, i, depth).Ok?
    ensures Valid(l, true) && Tree(l) == Obj(ParseObject(c, i, depth).value)
    ensures Text(l) == c[i..ParseObject(c, i, depth).offset]
    decreases |c| - i, 0
  {
    hide Skip, ParseMembers, EntriesText, ValidEntries, MemberTrees, Blank;
    var s, e := Skip(c, i + 1), ParseObject(c, i, depth).offset;
    NoItems();
    if c[s] == CLOSE_BRACE {
      SkipsBlanks(c, i + 1);
      l := ObjText([], c[i + 1..s]);
      assert c[i..e] == [OPEN_BRACE] + c[i + 1..s] + [CLOSE_BRACE];
    } else {
      SkipTwice(c, i + 1);
      MembersFrom(c, i + 1, s, depth + 1);
      var members := MembersAreText(c, i + 1, depth + 1);
      l := ObjText(members, []);
      assert c[i..e] == [OPEN_BRACE] + c[i + 1..e];
    }
  }

  /** A member, and the blanks up to the comma or brace behind it. */
  lemma {:induction false} MemberIsText(c: Bytes, p: nat, depth: nat, s: nat) returns (m: Entry)
    requires p <= |c| && ParseMember(c, p, depth).Ok? && s == Skip(c, ParseMember(c, p, depth).offset) < |c|
    requires c[s] > 32
    ensures ValidEntry(m, true) && p <= s && EntryText(m) == c[p..s]
    ensures Member(CharsBytes(m.key), Tree(m.value)) == ParseMember(c, p, depth).value
    decreases |c| - p, 2
  {
    hide Skip, ParseString, ParseValue, ValidChars, CharsBytes, LiteralText, Valid, Tree, Text, Blank;
    var k := Skip(c, p);
    var e := ParseString(c, k).offset;
    var o := Skip(c, e);
    var q := Skip(c, o + 1);
    var e' := ParseValue(c, q, depth).offset;
    QuoteStart(c, k);
    SkipsBlanks(c, p);
    SkipsBlanks(c, e);
    VisibleStart(c, q, depth);
    SkipsBlanks(c, o + 1);
    SkipsBlanks(c, e');
    var key := StringIsText(c, k);
    var l := ValueIsText(c, q, depth);
    m := Entry(c[p..k], key, c[e..o], c[o + 1..q], l, c[e'..s]);
    assert c[o..o + 1] == [COLON];
    Pieces(c, p, k, e, o, q, e', s);
  }

  lemma QuoteStart(c: Bytes, i: nat)
    requires i <= |c| && ParseString(c, i).Ok?
    ensures i < |c| && c[i] == QUOTE
  {
  }

  lemma Pieces(c: Bytes, p: nat, k: nat, e: nat, o: nat, q: nat, e': nat, s: nat)
    requires p <= k <= e <= o < q <= e' <= s <= |c|
    ensures c[p..k] + c[k..e] + c[e..o] + c[o..o + 1] + c[o + 1..q] + c[q..e'] + c[e'..s] == c[p..s]
  {
    Joined(c, p, k, e);
    Joined(c, p, e, o);
    Joined(c, p, o, o + 1);
    Joined(c, p, o + 1, q);
    Joined(c, p, q, e');
    Joined(c, p, e', s);
  }

  lemma {:induction false} MembersAreText(c: Bytes, p: nat, depth: nat) returns (members: seq<Entry>)
    requires p <= |c| && ParseMembers(c, p, depth).Ok?
    ensures members != [] && ValidEntries(members, true) && MemberTrees(members) == ParseMembers(c, p, depth).value
    ensures EntriesText(members) + [CLOSE_BRACE] == c[p..ParseMembers(c, p, depth).offset]
    decreases |c| - p, 3
  {
    hide Skip, ParseMember, ValidEntry, Tree, EntryText, CharsBytes;
    var Ok(_, e) := ParseMember(c, p, depth);
    var s := Skip(c, e);
    var m := MemberIsText(c, p, depth, s);
    if c[s] == COMMA {
      var rest := MembersAreText(c, s + 1, depth);
      members := [m] + rest;
      var e' := ParseMembers(c, p, depth).offset;
      assert members[1..] == rest && EntriesText(members) == c[p..s] + ([COMMA] + EntriesText(rest));
      Separated(c, p, s, e', EntriesText(rest), CLOSE_BRACE);
    } else {
      members := [m];
      NoItems();
      assert members[1..] == [] && EntriesText(members) == c[p..s];
      Closed(c, p, s);
    }
  }

  // ---------- accepted documents ----------

  lemma TextEnd(l: Layout)
    requires Valid(l, true)
    ensures Text(l) != [] && Text(l)[|Text(l)| - 1] != 0
  {
    hide CharsText, ItemsText, EntriesText, StrtodLength;
    match l
    case Plain(v) =>
      if v.Number? {
        assert IsNumberByte(v.text[|v.text| - 1]);
      }
    case _ =>
  }

  /** Whatever `cJSON_Parse` accepts begins with a text of the tree that it returns; with the check for
      the terminator the whole input is one, blanks included. */
  lemma AcceptedIsText(text: Bytes, requireNul: bool) returns (bom: bool, lead: Bytes, l: Layout, trail: Bytes)
    requires ParseText(text, requireNul).Ok?
    ensures Valid(l, true) && Blank(lead) && Tree(l) == ParseText(text, requireNul).value
    ensures Nesting(Tree(l)) <= NESTING_LIMIT
    ensures text == DocumentText(bom, lead, l, trail) && (requireNul ==> Blank(trail))
  {
    hide ParseValue, Skip, Valid, Tree, Text, Nesting, WellFormed, Blank, BomEnd;
    var c := text + [0];
    var n := BomEnd(c);
    var i := Skip(c, n);
    var Ok(_, e) := ParseValue(c, i, 0);
    ParsedValue(c, i, 0);
    VisibleStart(c, i, 0);
    SkipsBlanks(c, n);
    l := ValueIsText(c, i, 0);
    TextEnd(l);
    assert Text(l)[|Text(l)| - 1] == c[e - 1];
    bom, lead, trail := n == 3, c[n..i], text[e..];
    BomIs(c);
    if requireNul {
      TrailIsBlank(c, e);
      assert c[e..|c| - 1] == trail;
    }
    AllPieces(text, n, i, e);
  }

  lemma BomIs(c: Bytes)
    ensures BomEnd(c) == 0 || (BomEnd(c) == 3 && |c| > 4 && c[..3] == BOM)
  {
  }

  lemma AllPieces(text: Bytes, n: nat, i: nat, e: nat)
    requires n <= i <= e <= |text|
    ensures var c := text + [0]; c[..n] + c[n..i] + c[i..e] + text[e..] == text
  {
  }

  lemma TrailIsBlank(c: Bytes, e: nat)
    requires e < |c| && c[Skip(c, e)] == 0
    ensures Blank(c[e..|c| - 1])
  {
    BlankUpTo(c, e);
    BlankEndVisible(c, e);
    assert BlankEnd(c, e) == |c|;
    var blanks := c[e..|c|];
    var trail := c[e..|c| - 1];
    forall k | 0 <= k < |trail| ensures trail[k] <= 32 {
      assert trail[k] == c[e + k] == blanks[k];
    }
  }
}
