/** cJSON's parser over a buffer with a moving offset, proved against the grammar functions on
    every input.  Array bounds in `ParseString` are the law that the decoded string never
    outgrows the size estimated by the first pass over the literal. */
module JsonParser {
  import opened Common
  import opened JsonText
  import opened JsonGrammar

  // ---------- the size estimate of the first pass ----------

  /** Whether the first pass, started at `start`, steps over p as the second half of an escape. */
  ghost predicate SecondHalf(c: Bytes, start: nat, p: nat)
    requires start <= p <= |c|
    decreases p
  {
    p > start && !SecondHalf(c, start, p - 1) && c[p - 1] == BACKSLASH
  }

  /** How many bytes the first pass has discounted between `start` and p. */
  ghost function Discount(c: Bytes, start: nat, p: nat): (d: nat)
    requires start <= p <= |c|
    decreases p
  {
    if p == start then 0
    else Discount(c, start, p - 1) + if SecondHalf(c, start, p) then 1 else 0
  }

  lemma {:induction false} DiscountGrows(c: Bytes, start: nat, p: nat, q: nat)
    requires start <= p <= q <= |c|
    ensures Discount(c, start, p) <= Discount(c, start, q) <= Discount(c, start, p) + (q - p)
    decreases q - p
  {
    if p < q {
      DiscountGrows(c, start, p, q - 1);
    }
  }

  /** Two neighbouring bytes are never both discounted. */
  lemma DiscountOfTwo(c: Bytes, start: nat, p: nat)
    requires start <= p && p + 2 <= |c|
    ensures Discount(c, start, p + 2) <= Discount(c, start, p) + 1
    ensures c[p] != BACKSLASH && c[p + 1] != BACKSLASH ==> Discount(c, start, p + 2) == Discount(c, start, p)
  {
    assert Discount(c, start, p + 2) == Discount(c, start, p + 1) + if SecondHalf(c, start, p + 2) then 1 else 0;
    assert Discount(c, start, p + 1) == Discount(c, start, p) + if SecondHalf(c, start, p + 1) then 1 else 0;
  }

  lemma DiscountOfSix(c: Bytes, start: nat, p: nat)
    requires start <= p && p + 6 <= |c|
    ensures Discount(c, start, p + 6) <= Discount(c, start, p) + 3
    ensures (forall k :: p < k < p + 6 ==> c[k] != BACKSLASH) ==>
      Discount(c, start, p + 6) <= Discount(c, start, p) + 1
  {
    DiscountOfTwo(c, start, p);
    DiscountOfTwo(c, start, p + 2);
    DiscountOfTwo(c, start, p + 4);
  }

  /** The bytes one decoding step produces are covered by the bytes it consumes before the
      closing quote, less those the first pass discounted. */
  lemma StepWithinEstimate(c: Bytes, start: nat, p: nat, end: nat)
    requires start <= p < end < |c| && !SecondHalf(c, start, end) && DecodeStep(c, p, end).Ok?
    ensures var Ok(bytes, next) := DecodeStep(c, p, end);
      var next' := if next > end then end else next;
      |bytes| + Discount(c, start, next') <= Discount(c, start, p) + (next' - p)
  {
    var next := DecodeStep(c, p, end).offset;
    if c[p] == BACKSLASH && c[p + 1] == LOWER_U {
      var cp := CodePoint(c, p, end).value;
      DiscountOfSix(c, start, p);
      if next == p + 12 {
        DiscountOfSix(c, start, p + 6);
      }
    } else if c[p] == BACKSLASH && p + 1 < end {
      DiscountOfTwo(c, start, p);
    }
  }

  class ParseBuffer {
    const content: Bytes
    var offset: nat
    var depth: nat

    constructor (content: Bytes)
      ensures this.content == content && offset == 0 && depth == 0
    {
      this.content := content;
      offset, depth := 0, 0;
    }

    method SkipWhitespace()
      requires offset <= |content|
      modifies this`offset
      ensures offset == Skip(content, old(offset))
    {
      if offset >= |content| {
        return;
      }
      while offset < |content| && content[offset] <= 32
        invariant old(offset) <= offset <= |content|
        invariant BlankEnd(content, old(offset)) == BlankEnd(content, offset)
      {
        offset := offset + 1;
      }
      if offset == |content| {
        offset := offset - 1;
      }
    }

    method ParseHex4(p: nat) returns (h: nat)
      requires p + 4 <= |content|
      ensures h == Hex4(content, p)
    {
      h := 0;
      var i := 0;
      while i < 4
        invariant 0 <= i <= 4
        invariant i >= 1 ==> HexValue(content[p]) >= 0
        invariant i >= 2 ==> HexValue(content[p + 1]) >= 0
        invariant i >= 3 ==> HexValue(content[p + 2]) >= 0
        invariant i == 0 ==> h == 0
        invariant i == 1 ==> h == HexValue(content[p]) * 16
        invariant i == 2 ==> h == (HexValue(content[p]) * 16 + HexValue(content[p + 1])) * 16
        invariant i == 3 ==>
          h == ((HexValue(content[p]) * 16 + HexValue(content[p + 1])) * 16 + HexValue(content[p + 2])) * 16
        invariant i == 4 ==> h == Hex4(content, p)
      {
        var digit := HexValue(content[p + i]);
        if digit < 0 {
          return 0;
        }
        h := h + digit;
        if i < 3 {
          h := h * 16;
        }
        i := i + 1;
      }
    }

    /** Appends the UTF-8 encoding of a code point at index n: continuation bytes from the last
        one backwards, then the first byte with its length mark. */
    method WriteUtf8(cp: nat, output: array<byte>, n: nat) returns (length: nat)
      requires cp <= 0x10FFFF && n + |Utf8(cp)| <= output.Length
      modifies output
      ensures length == |Utf8(cp)|
      ensures output[..n + length] == old(output[..n]) + Utf8(cp)
    {
      hide Utf8;
      Utf8Length(cp);
      var firstByteMark;
      if cp < 0x80 {
        length, firstByteMark := 1, 0;
      } else if cp < 0x800 {
        length, firstByteMark := 2, 0xC0;
      } else if cp < 0x10000 {
        length, firstByteMark := 3, 0xE0;
      } else {
        length, firstByteMark := 4, 0xF0;
      }
      var rest := WriteContinuation(cp, output, n, length);
      Utf8Byte(cp, 0);
      ghost var tail := output[n + 1..n + length];
      output[n] := firstByteMark + rest;
      assert output[n..n + length] == [Utf8(cp)[0]] + tail;
      assert output[..n + length] == output[..n] + output[n..n + length];
    }

    /** The bytes behind the first, last one first; what remains of the code point is returned. */
    method WriteContinuation(cp: nat, output: array<byte>, n: nat, length: nat) returns (rest: nat)
      requires cp <= 0x10FFFF && n + length <= output.Length && length == |Utf8(cp)| > 0
      modifies output
      ensures rest == Shifted(cp, length - 1) && output[..n] == old(output[..n])
      ensures output[n + 1..n + length] == Utf8(cp)[1..]
    {
      hide Utf8;
      var position := length - 1;
      rest := cp;
      while position > 0
        invariant 0 <= position < length
        invariant rest == Shifted(cp, length - 1 - position)
        invariant output[..n] == old(output[..n])
        invariant output[n + position + 1..n + length] == Utf8(cp)[position + 1..]
      {
        ghost var tail := output[n + position + 1..n + length];
        output[n + position] := 0x80 + rest % 0x40;
        rest := rest / 0x40;
        Utf8Byte(cp, position);
        assert output[n + position..n + length] == [Utf8(cp)[position]] + tail;
        position := position - 1;
      }
    }

    /** `utf16_literal_to_utf8`: decodes the escape at p, appends its bytes at index n.
        The consumed length is 0 when the escape is malformed. */
    method Utf16LiteralToUtf8(p: nat, end: nat, output: array<byte>, n: nat)
      returns (consumed: nat, length: nat)
      requires p < end <= |content| && n <= output.Length
      requires CodePoint(content, p, end).Ok? ==>
        n + |Utf8(CodePoint(content, p, end).value)| <= output.Length
      modifies output
      ensures consumed == 0 <==> CodePoint(content, p, end).Fail?
      ensures consumed > 0 ==>
        CodePoint(content, p, end).offset == p + consumed
        && n + length <= output.Length
        && output[..n + length] == old(output[..n]) + Utf8(CodePoint(content, p, end).value)
    {
      hide Utf8, Hex4;
      if end - p < 6 {
        return 0, 0;
      }
      var first := ParseHex4(p + 2);
      if 0xDC00 <= first <= 0xDFFF {
        return 0, 0;
      }
      var cp := first;
      consumed := 6;
      if 0xD800 <= first <= 0xDBFF {
        consumed := 12;
        if end - (p + 6) < 6 {
          return 0, 0;
        }
        if content[p + 6] != BACKSLASH || content[p + 7] != LOWER_U {
          return 0, 0;
        }
        var second := ParseHex4(p + 8);
        if second < 0xDC00 || second > 0xDFFF {
          return 0, 0;
        }
        cp := 0x10000 + (first % 0x400) * 0x400 + second % 0x400;
      }
      length := WriteUtf8(cp, output, n);
    }

    /** The first pass over a literal: its closing quote and the discounted bytes. */
    method MeasureString(start: nat) returns (found: bool, end: nat, skipped: nat)
      requires start <= |content|
      ensures found == ClosingQuote(content, start).Ok?
      ensures found ==>
        end == ClosingQuote(content, start).offset
        && !SecondHalf(content, start, end) && skipped == Discount(content, start, end)
    {
      end, skipped := start, 0;
      while end < |content| && content[end] != QUOTE
        invariant start <= end <= |content|
        invariant ClosingQuote(content, start) == ClosingQuote(content, end)
        invariant !SecondHalf(content, start, end) && skipped == Discount(content, start, end)
      {
        if content[end] == BACKSLASH {
          if end + 1 >= |content| {
            return false, end, skipped;
          }
          skipped := skipped + 1;
          end := end + 1;
        }
        end := end + 1;
      }
      found := end < |content|;
    }

    /** The second pass: decodes the literal into `output` and returns how much it wrote. */
    method DecodeString(start: nat, end: nat, output: array<byte>) returns (ok: bool, n: nat, p: nat)
      requires start <= end < |content| && !SecondHalf(content, start, end)
      requires output.Length >= end - start - Discount(content, start, end)
      modifies output
      ensures ok == Decoded(content, start, end).Ok?
      ensures ok ==> n <= end - start - Discount(content, start, end) <= output.Length
      ensures ok ==> output[..n] == Decoded(content, start, end).value
      ensures p <= |content|
    {
      hide DecodeStep;
      ok, n, p := true, 0, start;
      ghost var whole := Decoded(content, start, end);
      DiscountGrows(content, start, start, end);
      assert whole.Ok? ==> [] + whole.value == whole.value;
      while p < end
        invariant start <= p <= end + 1
        invariant n + Discount(content, start, Clip(p, end)) <= Clip(p, end) - start
        invariant n <= end - start - Discount(content, start, end) <= output.Length
        invariant ok && whole == Prepended(output[..n], Decoded(content, p, end))
      {
        ghost var before := output[..n];
        ghost var step := DecodeStep(content, p, end);
        var p', n';
        ok, p', n' := DecodeOne(start, p, end, output, n);
        if !ok {
          return;
        }
        PrependedStep(before, step, content, p, end);
        p, n := p', n';
      }
    }

    /** One iteration of the second pass. */
    method DecodeOne(ghost start: nat, p: nat, end: nat, output: array<byte>, n: nat)
      returns (ok: bool, p': nat, n': nat)
      requires start <= p < end < |content| && !SecondHalf(content, start, end)
      requires n + Discount(content, start, p) <= p - start
      requires n <= end - start - Discount(content, start, end) <= output.Length
      modifies output
      ensures ok == DecodeStep(content, p, end).Ok?
      ensures ok ==> n' <= end - start - Discount(content, start, end)
      ensures ok ==>
        p' == DecodeStep(content, p, end).offset
        && n' + Discount(content, start, Clip(p', end)) <= Clip(p', end) - start
        && output[..n'] == old(output[..n]) + DecodeStep(content, p, end).value
    {
      hide Utf8, CodePoint;
      if DecodeStep(content, p, end).Ok? {
        StepWithinEstimate(content, start, p, end);
        DiscountGrows(content, start, Clip(DecodeStep(content, p, end).offset, end), end);
      }
      DiscountGrows(content, start, p, end);
      ok := true;
      if content[p] != BACKSLASH {
        output[n] := content[p];
        p', n' := p + 1, n + 1;
      } else if content[p + 1] == LOWER_U {
        var consumed, length := Utf16LiteralToUtf8(p, end, output, n);
        if consumed == 0 {
          return false, p, n;
        }
        p', n' := p + consumed, n + length;
      } else {
        var b := SimpleEscape(content[p + 1]);
        if b < 0 {
          return false, p, n;
        }
        output[n] := b;
        p', n' := p + 2, n + 1;
      }
    }

    /** `parse_string`. */
    method ParseString() returns (ok: bool, s: Bytes)
      requires offset <= |content|
      modifies this`offset
      ensures offset <= |content|
      ensures ok == JsonGrammar.ParseString(content, old(offset)).Ok?
      ensures ok ==> JsonGrammar.ParseString(content, old(offset)) == Ok(s, offset)
    {
      hide Decoded, ClosingQuote;
      s := [];
      if offset >= |content| || content[offset] != QUOTE {
        return false, s;
      }
      var start := offset + 1;
      var found, end, skipped := MeasureString(start);
      if !found {
        offset := start;
        return false, s;
      }
      DiscountGrows(content, start, start, end);
      var allocation := end - offset - skipped;
      var output := new byte[allocation + 1];
      var n, p;
      ok, n, p := DecodeString(start, end, output);
      if !ok {
        offset := p;
        return;
      }
      output[n] := 0;
      s := CString(output[..n]);
      offset := end + 1;
    }

    /** `parse_number`: the scanner takes at most 63 bytes, `strtod` a prefix of those. */
    method ParseNumber() returns (ok: bool, v: Value)
      requires offset <= |content|
      modifies this`offset
      ensures offset <= |content|
      ensures ok == JsonGrammar.ParseNumber(content, old(offset)).Ok?
      ensures ok ==> JsonGrammar.ParseNumber(content, old(offset)) == Ok(v, offset)
    {
      var i := 0;
      while i < 63 && offset + i < |content| && IsNumberByte(content[offset + i])
        invariant 0 <= i <= 63 && offset + i <= |content|
        invariant NumberToken(content, offset, 0) == NumberToken(content, offset, i)
      {
        i := i + 1;
      }
      var numberText := content[offset..offset + i];
      var used := StrtodLength(numberText);
      if used == 0 {
        return false, Null;
      }
      ok, v := true, Number(numberText[..used]);
      offset := offset + used;
    }

    /** `parse_value`. */
    method ParseValue() returns (ok: bool, v: Value)
      requires offset <= |content|
      modifies this`offset, this`depth
      ensures offset <= |content|
      ensures ok == JsonGrammar.ParseValue(content, old(offset), old(depth)).Ok?
      ensures ok ==> JsonGrammar.ParseValue(content, old(offset), old(depth)) == Ok(v, offset) && depth == old(depth)
      decreases |content| - offset, 2
    {
      hide JsonGrammar.ParseString, JsonGrammar.ParseNumber, JsonGrammar.ParseArray, JsonGrammar.ParseObject;
      v := Null;
      if At(content, offset, NULL_TEXT) {
        offset := offset + 4;
        return true, Null;
      }
      if At(content, offset, FALSE_TEXT) {
        offset := offset + 5;
        return true, False;
      }
      if At(content, offset, TRUE_TEXT) {
        offset := offset + 4;
        return true, True;
      }
      if offset < |content| && content[offset] == QUOTE {
        var s;
        ok, s := ParseString();
        v := Str(s);
      } else if offset < |content| && (content[offset] == MINUS || IsDigit(content[offset])) {
        ok, v := ParseNumber();
      } else if offset < |content| && content[offset] == OPEN_BRACKET {
        var items;
        ok, items := ParseArray();
        v := Arr(items);
      } else if offset < |content| && content[offset] == OPEN_BRACE {
        var members;
        ok, members := ParseObject();
        v := Obj(members);
      } else {
        ok := false;
      }
    }

    /** `parse_array`; the linked list of new items is the sequence `items`. */
    method ParseArray() returns (ok: bool, items: seq<Value>)
      requires offset < |content|
      modifies this`offset, this`depth
      ensures offset <= |content|
      ensures ok == JsonGrammar.ParseArray(content, old(offset), old(depth)).Ok?
      ensures ok ==>
        JsonGrammar.ParseArray(content, old(offset), old(depth)) == Ok(items, offset) && depth == old(depth)
      decreases |content| - offset, 1
    {
      hide JsonGrammar.ParseItems, Skip;
      items := [];
      if depth >= NESTING_LIMIT {
        return false, items;
      }
      depth := depth + 1;
      offset := offset + 1;
      SkipWhitespace();
      if offset < |content| && content[offset] == CLOSE_BRACKET {
        depth := depth - 1;
        offset := offset + 1;
        return true, items;
      }
      if offset >= |content| {
        offset := offset - 1;
        return false, items;
      }
      offset := offset - 1;
      ok, items := ParseItemLoop();
      if ok {
        depth := depth - 1;
        offset := offset + 1;
      }
    }

    /** The loop over the elements of `parse_array`: entered one byte before the first element, left on
        the closing bracket. */
    method ParseItemLoop() returns (ok: bool, items: seq<Value>)
      requires offset < |content|
      modifies this`offset, this`depth
      ensures offset <= |content| && (ok ==> offset < |content|)
      ensures ok == JsonGrammar.ParseItems(content, old(offset) + 1, old(depth)).Ok?
      ensures ok ==>
        JsonGrammar.ParseItems(content, old(offset) + 1, old(depth)) == Ok(items, offset + 1) && depth == old(depth)
      decreases |content| - offset, 0
    {
      hide JsonGrammar.ParseValue, Skip;
      items := [];
      ghost var whole := JsonGrammar.ParseItems(content, offset + 1, depth);
      assert whole.Ok? ==> [] + whole.value == whole.value;
      var more := true;
      while more
        invariant old(offset) <= offset <= |content| && depth == old(depth)
        invariant more ==> offset < |content|
        invariant more ==> whole == Prepended(items, JsonGrammar.ParseItems(content, offset + 1, depth))
        invariant !more ==>
          whole == if offset < |content| && content[offset] == CLOSE_BRACKET then Ok(items, offset + 1) else Fail
        decreases |content| - offset
      {
        offset := offset + 1;
        ghost var p := offset;
        SkipWhitespace();
        var item;
        ok, item := ParseValue();
        if !ok {
          return;
        }
        SkipWhitespace();
        items := items + [item];
        more := offset < |content| && content[offset] == COMMA;
        ParseItemLoopStep(items[..|items| - 1], item, content, p, offset, depth);
      }
      ok := offset < |content| && content[offset] == CLOSE_BRACKET;
    }

    /** `parse_object`. */
    method ParseObject() returns (ok: bool, members: seq<Member>)
      requires offset < |content|
      modifies this`offset, this`depth
      ensures offset <= |content|
      ensures ok == JsonGrammar.ParseObject(content, old(offset), old(depth)).Ok?
      ensures ok ==>
        JsonGrammar.ParseObject(content, old(offset), old(depth)) == Ok(members, offset) && depth == old(depth)
      decreases |content| - offset, 1
    {
      hide JsonGrammar.ParseMembers, Skip;
      members := [];
      if depth >= NESTING_LIMIT {
        return false, members;
      }
      depth := depth + 1;
      offset := offset + 1;
      SkipWhitespace();
      if offset < |content| && content[offset] == CLOSE_BRACE {
        depth := depth - 1;
        offset := offset + 1;
        return true, members;
      }
      if offset >= |content| {
        offset := offset - 1;
        return false, members;
      }
      offset := offset - 1;
      ok, members := ParseMemberLoop();
      if ok {
        depth := depth - 1;
        offset := offset + 1;
      }
    }

    /** The loop over the members of `parse_object`: entered one byte before the first element, left on
        the closing brace. */
    method ParseMemberLoop() returns (ok: bool, members: seq<Member>)
      requires offset < |content|
      modifies this`offset, this`depth
      ensures offset <= |content| && (ok ==> offset < |content|)
      ensures ok == JsonGrammar.ParseMembers(content, old(offset) + 1, old(depth)).Ok?
      ensures ok ==>
        JsonGrammar.ParseMembers(content, old(offset) + 1, old(depth)) == Ok(members, offset + 1) && depth == old(depth)
      decreases |content| - offset, 0
    {
      hide JsonGrammar.ParseMember, Skip;
      members := [];
      ghost var whole := JsonGrammar.ParseMembers(content, offset + 1, depth);
      assert whole.Ok? ==> [] + whole.value == whole.value;
      var more := true;
      while more
        invariant old(offset) <= offset <= |content| && depth == old(depth)
        invariant more ==> offset < |content|
        invariant more ==> whole == Prepended(members, JsonGrammar.ParseMembers(content, offset + 1, depth))
        invariant !more ==>
          whole == if offset < |content| && content[offset] == CLOSE_BRACE then Ok(members, offset + 1) else Fail
        decreases |content| - offset
      {
        offset := offset + 1;
        ghost var p := offset;
        var member;
        ok, member := ParseMember();
        if !ok {
          return;
        }
        SkipWhitespace();
        members := members + [member];
        more := offset < |content| && content[offset] == COMMA;
        ParseMemberLoopStep(members[..|members| - 1], member, content, p, offset, depth);
      }
      ok := offset < |content| && content[offset] == CLOSE_BRACE;
    }

    /** One iteration of that loop: the name, the colon and the value. */
    method ParseMember() returns (ok: bool, member: Member)
      requires offset <= |content|
      modifies this`offset, this`depth
      ensures offset <= |content|
      ensures ok == JsonGrammar.ParseMember(content, old(offset), old(depth)).Ok?
      ensures ok ==>
        JsonGrammar.ParseMember(content, old(offset), old(depth)) == Ok(member, offset) && depth == old(depth)
      decreases |content| - offset, 3
    {
      hide JsonGrammar.ParseValue, JsonGrammar.ParseString, Skip;
      member := Member([], Null);
      SkipWhitespace();
      var name;
      ok, name := ParseString();
      if !ok {
        return;
      }
      SkipWhitespace();
      if offset >= |content| || content[offset] != COLON {
        return false, member;
      }
      offset := offset + 1;
      SkipWhitespace();
      var value;
      ok, value := ParseValue();
      member := Member(name, value);
    }
  }

  lemma ParseItemLoopStep(done: seq<Value>, item: Value, c: Bytes, p: nat, s: nat, depth: nat)
    requires p <= |c| && s <= |c| && JsonGrammar.ParseValue(c, Skip(c, p), depth).Ok?
    requires JsonGrammar.ParseValue(c, Skip(c, p), depth).value == item
    requires s == Skip(c, JsonGrammar.ParseValue(c, Skip(c, p), depth).offset)
    ensures Prepended(done, JsonGrammar.ParseItems(c, p, depth)) ==
      if s < |c| && c[s] == COMMA then Prepended(done + [item], JsonGrammar.ParseItems(c, s + 1, depth))
      else if s < |c| && c[s] == CLOSE_BRACKET then Ok(done + [item], s + 1)
      else Fail
  {
    hide JsonGrammar.ParseValue, Skip;
    if s < |c| && c[s] == COMMA && JsonGrammar.ParseItems(c, s + 1, depth).Ok? {
      var rest := JsonGrammar.ParseItems(c, s + 1, depth).value;
      assert done + ([item] + rest) == (done + [item]) + rest;
    }
  }

  lemma ParseMemberLoopStep(done: seq<Member>, member: Member, c: Bytes, p: nat, s: nat, depth: nat)
    requires p <= |c| && s <= |c| && JsonGrammar.ParseMember(c, p, depth).Ok?
    requires JsonGrammar.ParseMember(c, p, depth).value == member
    requires s == Skip(c, JsonGrammar.ParseMember(c, p, depth).offset)
    ensures Prepended(done, JsonGrammar.ParseMembers(c, p, depth)) ==
      if s < |c| && c[s] == COMMA then Prepended(done + [member], JsonGrammar.ParseMembers(c, s + 1, depth))
      else if s < |c| && c[s] == CLOSE_BRACE then Ok(done + [member], s + 1)
      else Fail
  {
    hide JsonGrammar.ParseMember, Skip;
    if s < |c| && c[s] == COMMA && JsonGrammar.ParseMembers(c, s + 1, depth).Ok? {
      var rest := JsonGrammar.ParseMembers(c, s + 1, depth).value;
      assert done + ([member] + rest) == (done + [member]) + rest;
    }
  }

  /** `cJSON_ParseWithLengthOpts`: the whole parse of a buffer, for every input. */
  method Parse(content: Bytes, requireNul: bool) returns (ok: bool, v: Value, end: nat)
    ensures ok == JsonGrammar.ParseBuffer(content, requireNul).Ok?
    ensures ok ==> JsonGrammar.ParseBuffer(content, requireNul) == Ok(v, end)
  {
    hide JsonGrammar.ParseValue, Skip;
    v, end := Null, 0;
    if |content| == 0 {
      EmptyBuffer(content, requireNul);
      return false, v, end;
    }
    var buffer := new ParseBuffer(content);
    if 4 < |content| && At(content, 0, BOM) {
      buffer.offset := 3;
    }
    buffer.SkipWhitespace();
    ok, v := buffer.ParseValue();
    if ok && requireNul {
      buffer.SkipWhitespace();
      ok := buffer.offset < |content| && content[buffer.offset] == 0;
    }
    end := buffer.offset;
  }

  lemma EmptyBuffer(c: Bytes, requireNul: bool)
    requires |c| == 0
    ensures JsonGrammar.ParseBuffer(c, requireNul).Fail?
  {
  }

  function Clip(p: nat, end: nat): nat {
    if p > end then end else p
  }

  /** The outcome of parsing the rest, behind what has been parsed already. */
  function Prepended<T>(done: seq<T>, rest: Parse<seq<T>>): Parse<seq<T>> {
    match rest
    case Fail => Fail
    case Ok(more, offset) => Ok(done + more, offset)
  }

  lemma PrependedStep(done: Bytes, step: Parse<Bytes>, c: Bytes, p: nat, end: nat)
    requires p < end < |c| && step == DecodeStep(c, p, end) && step.Ok?
    ensures Prepended(done, Decoded(c, p, end)) == Prepended(done + step.value, Decoded(c, step.offset, end))
  {
    hide DecodeStep;
    var rest := Decoded(c, step.offset, end);
    if rest.Ok? {
      assert done + (step.value + rest.value) == (done + step.value) + rest.value;
    }
  }

  /** The code point without its k lowest groups of six bits. */
  function Shifted(cp: nat, k: nat): nat {
    if k == 0 then cp else Shifted(cp, k - 1) / 0x40
  }

  lemma Utf8Length(cp: nat)
    requires cp <= 0x10FFFF
    ensures |Utf8(cp)| == if cp < 0x80 then 1 else if cp < 0x800 then 2 else if cp < 0x10000 then 3 else 4
  {
  }

  /** Each byte of the encoding comes from one group of six bits. */
  lemma Utf8Byte(cp: nat, position: nat)
    requires cp <= 0x10FFFF && position < |Utf8(cp)|
    ensures var length := |Utf8(cp)|;
      var group := Shifted(cp, length - 1 - position);
      var mark := if length == 1 then 0 else if length == 2 then 0xC0 else if length == 3 then 0xE0 else 0xF0;
      if position > 0 then Utf8(cp)[position] == 0x80 + group % 0x40
      else Utf8(cp)[0] == mark + group
  {
    assert Shifted(cp, 1) == cp / 0x40 && Shifted(cp, 2) == cp / 0x40 / 0x40 == cp / 0x1000;
    assert Shifted(cp, 3) == Shifted(cp, 2) / 0x40 == cp / 0x40000;
  }
}
