/** cJSON's printer into a growing (or preallocated) byte buffer, proved to write exactly the
    text `Printed` and a terminating NUL, and never to write outside the reserved space. */
module JsonPrinter {
  import opened Common
  import opened JsonText

  const INT_MAX := 2147483647

  /** The longest text `print_number` accepts from its 26-byte conversion buffer. */
  const NUMBER_LIMIT := 25

  // ---------- printed text is NUL-free ----------

  lemma NulFreeConcat(a: Bytes, b: Bytes)
    ensures NulFree(a + b) <==> NulFree(a) && NulFree(b)
  {
    assert forall i :: 0 <= i < |a| ==> (a + b)[i] == a[i];
    assert forall i :: 0 <= i < |b| ==> (a + b)[|a| + i] == b[i];
  }

  lemma {:induction false} EscapedNulFree(s: Bytes)
    requires NulFree(s)
    ensures NulFree(Escaped(s))
  {
    if s != [] {
      EscapedNulFree(s[1..]);
      NulFreeConcat(EscapedByte(s[0]), Escaped(s[1..]));
    }
  }

  lemma QuotedNulFree(s: Bytes)
    requires NulFree(s)
    ensures NulFree(Quoted(s))
  {
    EscapedNulFree(s);
    NulFreeConcat([QUOTE] + Escaped(s), [QUOTE]);
    NulFreeConcat([QUOTE], Escaped(s));
  }

  lemma {:induction false} PrintedNulFree(v: Value, format: bool, tabs: nat)
    requires WellFormed(v)
    ensures NulFree(Printed(v, format, tabs))
    decreases v, 1
  {
    hide NulFree, WellFormedItems, WellFormedMembers, PrintedItems, PrintedMembers, Quoted;
    match v
    case Null => ConstantsNulFree(tabs);
    case False => ConstantsNulFree(tabs);
    case True => ConstantsNulFree(tabs);
    case Number(t) => NumberNulFree(t);
    case Str(s) => QuotedNulFree(s);
    case Arr(items) =>
      var inner := PrintedItems(items, format, tabs + 1);
      ItemsNulFree(items, format, tabs + 1);
      ConstantsNulFree(tabs);
      NulFreeConcat([OPEN_BRACKET] + inner, [CLOSE_BRACKET]);
      NulFreeConcat([OPEN_BRACKET], inner);
    case Obj(members) =>
      var inner := PrintedMembers(members, format, tabs + 1);
      var open := if format then [OPEN_BRACE, NEWLINE] else [OPEN_BRACE];
      var indent := if format then Tabs(tabs) else [];
      MembersNulFree(members, format, tabs + 1);
      ConstantsNulFree(tabs);
      NulFreeConcat(open + inner + indent, [CLOSE_BRACE]);
      NulFreeConcat(open + inner, indent);
      NulFreeConcat(open, inner);
  }

  lemma ConstantsNulFree(tabs: nat)
    ensures NulFree(NULL_TEXT) && NulFree(FALSE_TEXT) && NulFree(TRUE_TEXT) && NulFree(Tabs(tabs)) && NulFree([])
    ensures NulFree([OPEN_BRACKET]) && NulFree([CLOSE_BRACKET]) && NulFree([CLOSE_BRACE])
    ensures NulFree([OPEN_BRACE]) && NulFree([OPEN_BRACE, NEWLINE])
    ensures NulFree(Colon(false)) && NulFree(Colon(true))
    ensures forall more, format :: NulFree(MemberEnd(more, format))
    ensures forall format :: NulFree(ItemSeparator(format))
  {
  }

  lemma NumberNulFree(t: Bytes)
    requires IsNumberText(t)
    ensures NulFree(t)
  {
    assert forall i :: 0 <= i < |t| ==> IsNumberByte(t[i]);
  }

  lemma {:induction false} ItemsNulFree(items: seq<Value>, format: bool, tabs: nat)
    requires WellFormedItems(items)
    ensures NulFree(PrintedItems(items, format, tabs))
    decreases items, 0
  {
    hide NulFree, WellFormed, Printed;
    ConstantsNulFree(tabs);
    if items != [] {
      var first := Printed(items[0], format, tabs);
      PrintedNulFree(items[0], format, tabs);
      ItemsNulFree(items[1..], format, tabs);
      NulFreeConcat(first + ItemSeparator(format), PrintedItems(items[1..], format, tabs));
      NulFreeConcat(first, ItemSeparator(format));
    }
  }

  lemma {:induction false} MembersNulFree(members: seq<Member>, format: bool, tabs: nat)
    requires WellFormedMembers(members)
    ensures NulFree(PrintedMembers(members, format, tabs))
    decreases members, 0
  {
    hide NulFree, WellFormed, Printed, Quoted, MemberEnd;
    ConstantsNulFree(tabs);
    if members != [] {
      var m := members[0];
      var indent := if format then Tabs(tabs) else [];
      var colon := Colon(format);
      QuotedNulFree(m.key);
      PrintedNulFree(m.value, format, tabs);
      MembersNulFree(members[1..], format, tabs);
      NulFreeConcat(indent + Quoted(m.key) + colon, Printed(m.value, format, tabs));
      NulFreeConcat(indent + Quoted(m.key), colon);
      NulFreeConcat(indent, Quoted(m.key));
      var end := MemberEnd(|members| > 1, format);
      NulFreeConcat(PrintedMember(m, format, tabs) + end, PrintedMembers(members[1..], format, tabs));
      NulFreeConcat(PrintedMember(m, format, tabs), end);
    }
  }

  // ---------- the counting pass ----------

  function ExtraCharacters(s: Bytes): nat {
    if s == [] then 0 else |EscapedByte(s[0])| - 1 + ExtraCharacters(s[1..])
  }

  /** The counting pass predicts the length the writing pass produces. */
  lemma {:induction false} CountedLength(s: Bytes)
    ensures |Escaped(s)| == |s| + ExtraCharacters(s)
    ensures ExtraCharacters(s) == 0 ==> Escaped(s) == s
  {
    if s != [] {
      CountedLength(s[1..]);
      assert |EscapedByte(s[0])| == 1 ==> EscapedByte(s[0]) == [s[0]];
      assert [s[0]] + s[1..] == s;
    }
  }

  lemma {:induction false} EscapedSnoc(s: Bytes, i: nat)
    requires i < |s|
    ensures Escaped(s[..i + 1]) == Escaped(s[..i]) + EscapedByte(s[i])
    ensures ExtraCharacters(s[..i + 1]) == ExtraCharacters(s[..i]) + |EscapedByte(s[i])| - 1
    decreases i
  {
    hide EscapedByte;
    var t := s[..i + 1];
    if i > 0 {
      EscapedSnoc(s[1..], i - 1);
      assert s[1..][..i] == t[1..] && s[1..][..i - 1] == s[..i][1..];
    } else {
      assert s[..0] == [] && t == [s[0]] && t[1..] == [];
    }
  }

  class PrintBuffer {
    var buffer: array<byte>
    var offset: nat
    var depth: nat
    const noalloc: bool
    const format: bool

    ghost predicate Valid()
      reads this
    {
      offset < buffer.Length <= INT_MAX || (buffer.Length == 0 && offset == 0)
    }

    /** What has been printed so far. */
    ghost function Output(): Bytes
      requires Valid()
      reads this, buffer
    {
      buffer[..offset]
    }

    /** How large the buffer can become. */
    ghost function Room(): nat
      reads this
    {
      if noalloc then buffer.Length else INT_MAX
    }

    constructor (size: nat, noalloc: bool, format: bool)
      requires size <= INT_MAX
      ensures Valid() && Output() == [] && depth == 0 && fresh(buffer) && buffer.Length == size
      ensures this.noalloc == noalloc && this.format == format
    {
      buffer := new byte[size];
      offset, depth := 0, 0;
      this.noalloc, this.format := noalloc, format;
    }

    /** `ensure`: room for `needed` more bytes and a NUL, growing the buffer if allowed. */
    method Ensure(needed: nat) returns (ok: bool)
      requires Valid()
      modifies this`buffer
      ensures Valid() && (buffer == old(buffer) || fresh(buffer))
      ensures Output() == old(Output()) && Room() == old(Room())
      ensures ok <==> offset + needed + 1 <= Room() || offset + needed + 1 <= old(buffer.Length)
      ensures ok ==> offset + needed + 1 <= buffer.Length
    {
      if buffer.Length > 0 && offset >= buffer.Length {
        return false;
      }
      if needed > INT_MAX {
        return false;
      }
      var total := needed + offset + 1;
      if total <= buffer.Length {
        return true;
      }
      if noalloc {
        return false;
      }
      var newSize;
      if total > INT_MAX / 2 {
        if total <= INT_MAX {
          newSize := INT_MAX;
        } else {
          return false;
        }
      } else {
        newSize := total * 2;
      }
      var bigger := new byte[newSize];
      forall i | 0 <= i < buffer.Length {
        bigger[i] := buffer[i];
      }
      assert bigger[..offset] == buffer[..offset];
      buffer := bigger;
      ok := true;
    }

    /** `update_offset`: advance over the NUL-terminated text written behind the offset. */
    method UpdateOffset(ghost end: nat)
      requires Valid() && offset <= end < buffer.Length && buffer[end] == 0
      requires forall i :: offset <= i < end ==> buffer[i] != 0
      modifies this`offset
      ensures offset == end && Valid()
    {
      while buffer[offset] != 0
        invariant old(offset) <= offset <= end
        decreases end - offset
      {
        offset := offset + 1;
      }
    }

    /** Store bytes from index `at` on. */
    method Store(at: nat, text: Bytes)
      requires at + |text| <= buffer.Length
      modifies buffer
      ensures buffer[..at + |text|] == old(buffer[..at]) + text
    {
      forall i | 0 <= i < |text| {
        buffer[at + i] := text[i];
      }
      assert buffer[..at] == old(buffer[..at]);
      assert buffer[at..at + |text|] == text;
      assert buffer[..at + |text|] == buffer[..at] + buffer[at..at + |text|];
    }

    /** The text `all`, NUL-terminated, fills the buffer; the offset is somewhere inside it. */
    ghost predicate Pending(all: Bytes)
      reads this, buffer
    {
      Valid() && offset <= |all| < buffer.Length && buffer[..|all|] == all && buffer[|all|] == 0
    }

    /** Count, as the source does, the characters that escaping adds. */
    method CountEscapes(s: Bytes) returns (extra: nat)
      ensures extra == ExtraCharacters(s)
    {
      extra := 0;
      for i := 0 to |s|
        invariant extra == ExtraCharacters(s[..i])
      {
        EscapedSnoc(s, i);
        if s[i] in {34, 92, 8, 12, 10, 13, 9} {
          extra := extra + 1;
        } else if s[i] < 32 {
          extra := extra + 5;
        }
      }
      assert s[..|s|] == s;
    }

    /** Write the escape of one byte at index `at`. */
    method WriteEscaped(at: nat, b: byte) returns (n: nat)
      requires at + |EscapedByte(b)| <= buffer.Length
      modifies buffer
      ensures n == |EscapedByte(b)|
      ensures buffer[..at + n] == old(buffer[..at]) + EscapedByte(b)
    {
      if b > 31 && b != QUOTE && b != BACKSLASH {
        Store(at, [b]);
        return 1;
      }
      var letter := ShortEscape(b);
      if letter != 0 {
        Store(at, [BACKSLASH, letter]);
        return 2;
      }
      Store(at, [BACKSLASH, LOWER_U, 48, 48, HexDigit(b / 16), HexDigit(b % 16)]);
      return 6;
    }

    /** Nothing to escape: the string is copied between the quotes. */
    method WritePlain(s: Bytes)
      requires Valid() && offset + |s| + 3 <= buffer.Length
      modifies buffer
      ensures buffer[..offset + |s| + 3] == old(Output()) + ([QUOTE] + s + [QUOTE]) + [0]
    {
      Store(offset, [QUOTE]);
      Store(offset + 1, s);
      Store(offset + |s| + 1, [QUOTE, 0]);
    }

    /** The writing pass: every byte is copied or escaped. */
    method WriteEscapes(s: Bytes)
      requires Valid() && offset + |Escaped(s)| + 3 <= buffer.Length
      modifies buffer
      ensures buffer[..offset + |Escaped(s)| + 3] == old(Output()) + Quoted(s) + [0]
    {
      hide Escaped, ExtraCharacters, EscapedByte;
      ghost var before := Output();
      Store(offset, [QUOTE]);
      var k := offset + 1;
      EscapedNothing();
      assert s[..0] == [];
      for i := 0 to |s|
        invariant k == offset + 1 + |Escaped(s[..i])| < buffer.Length
        invariant buffer[..k] == before + [QUOTE] + Escaped(s[..i])
      {
        EscapedSnoc(s, i);
        EscapedPrefixLength(s, i + 1);
        var n := WriteEscaped(k, s[i]);
        k := k + n;
      }
      assert s[..|s|] == s;
      Store(k, [QUOTE, 0]);
    }

    /** `print_string_ptr`. */
    method PrintString(s: Bytes) returns (ok: bool)
      requires Valid()
      modifies this`buffer, buffer
      ensures Valid() && (buffer == old(buffer) || fresh(buffer)) && Room() == old(Room())
      ensures ok ==> Pending(old(Output()) + Quoted(s))
      ensures offset + |Quoted(s)| + 2 <= Room() ==> ok
    {
      hide Escaped, ExtraCharacters;
      var extra := CountEscapes(s);
      CountedLength(s);
      var length := |s| + extra;
      ok := Ensure(length + 3);
      if !ok {
        return;
      }
      if extra == 0 {
        WritePlain(s);
      } else {
        WriteEscapes(s);
      }
      TerminatedText(buffer[..offset + length + 3], old(Output()) + Quoted(s));
      assert buffer[..offset + length + 2] == buffer[..offset + length + 3][..offset + length + 2];
    }

    /** `print_number`: the text comes from a conversion buffer that holds 25 characters. */
    method PrintNumber(text: Bytes) returns (ok: bool)
      requires Valid()
      modifies this`buffer, this`offset, buffer
      ensures Valid() && (buffer == old(buffer) || fresh(buffer)) && Room() == old(Room())
      ensures ok ==> Pending(old(Output()) + text) && offset == old(offset) + |text|
      ensures |text| <= NUMBER_LIMIT && old(offset) + |text| + 2 <= Room() ==> ok
    {
      if |text| > NUMBER_LIMIT {
        return false;
      }
      ok := Ensure(|text| + 1);
      if ok {
        Store(offset, text + [0]);
        assert buffer[..offset + |text|] == old(Output()) + text;
        offset := offset + |text|;
      }
    }

    /** The literals `null`, `false` and `true`. */
    method PrintLiteral(text: Bytes) returns (ok: bool)
      requires Valid()
      modifies this`buffer, buffer
      ensures Valid() && (buffer == old(buffer) || fresh(buffer)) && Room() == old(Room())
      ensures ok ==> Pending(old(Output()) + text)
      ensures offset + |text| + 2 <= Room() ==> ok
    {
      ok := Ensure(|text| + 1);
      if ok {
        Store(offset, text + [0]);
        assert buffer[..offset + |text|] == old(Output()) + text;
      }
    }

    /** Reserve space, append text, advance the offset over it. */
    method Append(text: Bytes, needed: nat) returns (ok: bool)
      requires Valid() && |text| <= needed
      modifies this`buffer, this`offset, buffer
      ensures Valid() && (buffer == old(buffer) || fresh(buffer)) && Room() == old(Room())
      ensures ok ==> Output() == old(Output()) + text
      ensures old(offset) + needed + 1 <= Room() ==> ok
    {
      ok := Ensure(needed);
      if ok {
        Store(offset, text);
        offset := offset + |text|;
      }
    }

    /** Reserve space and write closing text with its NUL; the offset stays before it. */
    method Close(text: Bytes, needed: nat) returns (ok: bool)
      requires Valid() && |text| <= needed
      modifies this`buffer, buffer
      ensures Valid() && (buffer == old(buffer) || fresh(buffer)) && Room() == old(Room())
      ensures ok ==> Pending(old(Output()) + text)
      ensures offset + needed + 1 <= Room() ==> ok
    {
      ok := Ensure(needed);
      if ok {
        Store(offset, text + [0]);
        TerminatedText(buffer[..offset + |text| + 1], old(Output()) + text);
        assert buffer[..offset + |text|] == buffer[..offset + |text| + 1][..offset + |text|];
      }
    }

    /** Advance over the pending text of a value. */
    method AdvanceOver(ghost before: Bytes, ghost text: Bytes)
      requires Pending(before + text) && |before| <= offset && NulFree(text)
      modifies this`offset
      ensures Valid() && Output() == before + text
    {
      ghost var all := before + text;
      forall i | offset <= i < |all| ensures buffer[i] != 0 {
        assert buffer[i] == buffer[..|all|][i] == text[i - |before|];
      }
      UpdateOffset(|all|);
    }

    /** `print_value`. */
    method PrintValue(v: Value) returns (ok: bool)
      requires Valid() && WellFormed(v)
      modifies this, buffer
      ensures Valid() && (buffer == old(buffer) || fresh(buffer)) && Room() == old(Room())
      ensures ok ==> Pending(old(Output()) + Printed(v, format, old(depth)))
      ensures ok ==> old(offset) <= offset && depth == old(depth)
      ensures Printable(v) && old(offset) + |Printed(v, format, old(depth))| + 2 <= Room() ==> ok
      decreases v, 1
    {
      hide Quoted, PrintedItems, PrintedMembers, WellFormedItems, WellFormedMembers;
      match v {
        case Null => ok := PrintLiteral(NULL_TEXT);
        case False => ok := PrintLiteral(FALSE_TEXT);
        case True => ok := PrintLiteral(TRUE_TEXT);
        case Number(text) => ok := PrintNumber(text);
        case Str(t) => ok := PrintString(t);
        case Arr(items) => ok := PrintArray(items);
        case Obj(members) => ok := PrintObject(members);
      }
    }

    /** The opening bracket and the elements. */
    method OpenItems(items: seq<Value>) returns (ok: bool)
      requires Valid() && WellFormedItems(items)
      modifies this, buffer
      ensures Valid() && (buffer == old(buffer) || fresh(buffer)) && Room() == old(Room())
      ensures ok ==> depth == old(depth) + 1
      ensures ok ==> Output() == old(Output()) + ([OPEN_BRACKET] + PrintedItems(items, format, old(depth) + 1))
      ensures PrintableItems(items) && old(offset) + |PrintedItems(items, format, old(depth) + 1)| + 4 <= Room() ==> ok
      decreases items, 2
    {
      hide PrintedItems, WellFormedItems, PrintableItems;
      ghost var before, inner := Output(), PrintedItems(items, format, depth + 1);
      ok := Append([OPEN_BRACKET], 1);
      if !ok {
        return;
      }
      depth := depth + 1;
      ok := PrintItems(items);
      assert before + [OPEN_BRACKET] + inner == before + ([OPEN_BRACKET] + inner);
    }

    /** `print_array`. */
    method PrintArray(items: seq<Value>) returns (ok: bool)
      requires Valid() && WellFormedItems(items)
      modifies this, buffer
      ensures Valid() && (buffer == old(buffer) || fresh(buffer)) && Room() == old(Room())
      ensures ok ==> Pending(old(Output()) + Printed(Arr(items), format, old(depth)))
      ensures ok ==> old(offset) <= offset && depth == old(depth)
      ensures PrintableItems(items) && old(offset) + |Printed(Arr(items), format, old(depth))| + 2 <= Room() ==> ok
      decreases items, 3
    {
      hide PrintedItems, WellFormedItems, PrintableItems;
      ghost var before, opened' := Output(), [OPEN_BRACKET] + PrintedItems(items, format, depth + 1);
      ok := OpenItems(items);
      if !ok {
        return;
      }
      ok := Close([CLOSE_BRACKET], 2);
      depth := depth - 1;
      assert before + opened' + [CLOSE_BRACKET] == before + (opened' + [CLOSE_BRACKET]);
    }

    /** One element and what follows it. */
    method PrintItem(v: Value, more: bool) returns (ok: bool)
      requires Valid() && WellFormed(v)
      modifies this, buffer
      ensures Valid() && (buffer == old(buffer) || fresh(buffer)) && Room() == old(Room())
      ensures ok ==> depth == old(depth)
      ensures ok ==> Output() == old(Output()) + ItemText(v, more, format, old(depth))
      ensures Printable(v) && old(offset) + |ItemText(v, more, format, old(depth))| + 3 <= Room() ==> ok
      decreases v, 2
    {
      hide Printed, NulFree, WellFormed, Printable;
      ghost var before, text := Output(), Printed(v, format, depth);
      ok := PrintValue(v);
      if !ok {
        return;
      }
      PrintedNulFree(v, format, depth);
      AdvanceOver(before, text);
      if more {
        var separator := ItemSeparator(format);
        ok := Append(separator, |separator| + 1);
        assert before + text + separator == before + (text + separator);
      }
    }

    /** The loop of `print_array` over the linked elements. */
    method PrintItems(items: seq<Value>) returns (ok: bool)
      requires Valid() && WellFormedItems(items)
      modifies this, buffer
      ensures Valid() && (buffer == old(buffer) || fresh(buffer)) && Room() == old(Room())
      ensures ok ==> Output() == old(Output()) + PrintedItems(items, format, old(depth)) && depth == old(depth)
      ensures PrintableItems(items) && old(offset) + |PrintedItems(items, format, old(depth))| + 3 <= Room() ==> ok
      decreases items, 1
    {
      hide PrintedItems, ItemText, WellFormedItems, WellFormed, PrintableItems, Printable, ItemsLeft;
      ok := true;
      ghost var before, done, deep := Output(), [], depth;
      var i := 0;
      FirstItems(items, format, deep);
      while i < |items|
        invariant 0 <= i <= |items| && ok && Valid() && (buffer == old(buffer) || fresh(buffer))
        invariant depth == deep && Room() == old(Room())
        invariant ItemsLeft(items, i, format, deep, done)
        invariant Output() == before + done
      {
        NextItem(items, i, format, deep, done);
        ghost var text := ItemText(items[i], i + 1 < |items|, format, deep);
        ok := PrintItem(items[i], i + 1 < |items|);
        if !ok {
          return;
        }
        assert before + done + text == before + (done + text);
        done := done + text;
        i := i + 1;
      }
      LastItems(items, format, deep, done);
    }

    /** The opening brace and the members. */
    method OpenMembers(members: seq<Member>) returns (ok: bool)
      requires Valid() && WellFormedMembers(members)
      modifies this, buffer
      ensures Valid() && (buffer == old(buffer) || fresh(buffer)) && Room() == old(Room())
      ensures ok ==> depth == old(depth) + 1
      ensures ok ==> Output() == old(Output()) + ObjectFront(members, format, old(depth))
      ensures PrintableMembers(members) && old(offset) + |ObjectFront(members, format, old(depth))| + 3 <= Room() ==> ok
      decreases members, 2
    {
      hide PrintedMembers, WellFormedMembers, PrintableMembers, ObjectOpen;
      ghost var before, inner := Output(), PrintedMembers(members, format, depth + 1);
      var open := ObjectOpen(format);
      ok := Append(open, |open| + 1);
      if !ok {
        return;
      }
      depth := depth + 1;
      ok := PrintMembers(members);
      assert before + open + inner == before + (open + inner);
    }

    /** `print_object`. */
    method PrintObject(members: seq<Member>) returns (ok: bool)
      requires Valid() && WellFormedMembers(members)
      modifies this, buffer
      ensures Valid() && (buffer == old(buffer) || fresh(buffer)) && Room() == old(Room())
      ensures ok ==> Pending(old(Output()) + Printed(Obj(members), format, old(depth)))
      ensures ok ==> old(offset) <= offset && depth == old(depth)
      ensures PrintableMembers(members) && old(offset) + |Printed(Obj(members), format, old(depth))| + 2 <= Room() ==>
        ok
      decreases members, 3
    {
      hide Printed, PrintedMembers, WellFormedMembers, PrintableMembers, Printable, WellFormed, ObjectOpen, ObjectClose;
      ghost var before, front := Output(), ObjectFront(members, format, depth);
      ObjectText(members, format, depth);
      ok := OpenMembers(members);
      if !ok {
        return;
      }
      var close := ObjectClose(format, depth - 1);
      ok := Close(close, if format then depth + 1 else 2);
      depth := depth - 1;
      assert before + front + close == before + (front + close);
    }

    /** The tabs in front of a key. */
    method PrintIndent() returns (ok: bool)
      requires Valid()
      modifies this`buffer, this`offset, buffer
      ensures Valid() && (buffer == old(buffer) || fresh(buffer)) && Room() == old(Room())
      ensures ok ==> Output() == old(Output()) + Indent(format, depth)
      ensures old(offset) + |Indent(format, depth)| + 1 <= Room() ==> ok
    {
      ok := true;
      if format {
        ok := Append(Tabs(depth), depth);
      }
    }

    /** Indentation, key and colon of one member. */
    method PrintKey(key: Bytes) returns (ok: bool)
      requires Valid() && NulFree(key)
      modifies this`buffer, this`offset, buffer
      ensures Valid() && (buffer == old(buffer) || fresh(buffer)) && Room() == old(Room())
      ensures ok ==> Output() == old(Output()) + KeyText(key, format, depth)
      ensures old(offset) + |KeyText(key, format, depth)| + 1 <= Room() ==> ok
    {
      hide NulFree, Quoted, Indent;
      ghost var before, indent := Output(), Indent(format, depth);
      ok := PrintIndent();
      if !ok {
        return;
      }
      ok := PrintString(key);
      if !ok {
        return;
      }
      QuotedNulFree(key);
      AdvanceOver(before + indent, Quoted(key));
      var colon := Colon(format);
      ok := Append(colon, |colon|);
      assert before + indent + Quoted(key) + colon == before + (indent + Quoted(key) + colon);
    }

    /** Indentation, key, colon and value of one member. */
    method PrintMember(m: Member) returns (ok: bool)
      requires Valid() && NulFree(m.key) && WellFormed(m.value)
      modifies this, buffer
      ensures Valid() && (buffer == old(buffer) || fresh(buffer)) && Room() == old(Room())
      ensures ok ==> Output() == old(Output()) + PrintedMember(m, format, old(depth)) && depth == old(depth)
      ensures Printable(m.value) && old(offset) + |PrintedMember(m, format, old(depth))| + 2 <= Room() ==> ok
      decreases m, 2
    {
      hide Printed, NulFree, WellFormed, Printable, PrintedMember, KeyText;
      ghost var before, key, value := Output(), KeyText(m.key, format, depth), Printed(m.value, format, depth);
      MemberText(m, format, depth);
      ok := PrintKey(m.key);
      if !ok {
        return;
      }
      ok := PrintValue(m.value);
      if !ok {
        return;
      }
      PrintedNulFree(m.value, format, depth);
      AdvanceOver(before + key, value);
      assert before + key + value == before + (key + value);
    }

    /** One member and what follows it. */
    method PrintMemberAndEnd(m: Member, more: bool) returns (ok: bool)
      requires Valid() && NulFree(m.key) && WellFormed(m.value)
      modifies this, buffer
      ensures Valid() && (buffer == old(buffer) || fresh(buffer)) && Room() == old(Room())
      ensures ok ==> depth == old(depth)
      ensures ok ==>
        Output() == old(Output()) + (PrintedMember(m, format, old(depth)) + MemberEnd(more, format))
      ensures Printable(m.value)
              && old(offset) + |PrintedMember(m, format, old(depth)) + MemberEnd(more, format)| + 3 <= Room()
              ==> ok
      decreases m, 3
    {
      hide Printed, NulFree, WellFormed, PrintedMember, MemberEnd, Printable;
      ghost var before, text := Output(), PrintedMember(m, format, depth);
      ok := PrintMember(m);
      if !ok {
        return;
      }
      var end := MemberEnd(more, format);
      ok := Append(end, |end| + 1);
      assert before + text + end == before + (text + end);
    }

    /** The loop of `print_object` over the linked members. */
    method PrintMembers(members: seq<Member>) returns (ok: bool)
      requires Valid() && WellFormedMembers(members)
      modifies this, buffer
      ensures Valid() && (buffer == old(buffer) || fresh(buffer)) && Room() == old(Room())
      ensures ok ==> Output() == old(Output()) + PrintedMembers(members, format, old(depth)) && depth == old(depth)
      ensures PrintableMembers(members) && old(offset) + |PrintedMembers(members, format, old(depth))| + 3 <= Room() ==>
        ok
      decreases members, 1
    {
      hide PrintedMembers, PrintedMember, MemberEnd, WellFormedMembers, WellFormed, PrintableMembers, Printable,
           NulFree;
      hide MembersLeft;
      ok := true;
      ghost var before, done, deep := Output(), [], depth;
      var i := 0;
      FirstMembers(members, format, deep);
      while i < |members|
        invariant 0 <= i <= |members| && ok && Valid() && (buffer == old(buffer) || fresh(buffer))
        invariant depth == deep && Room() == old(Room())
        invariant MembersLeft(members, i, format, deep, done)
        invariant Output() == before + done
      {
        NextMember(members, i, format, deep, done);
        ghost var text := PrintedMember(members[i], format, deep) + MemberEnd(i + 1 < |members|, format);
        ok := PrintMemberAndEnd(members[i], i + 1 < |members|);
        if !ok {
          return;
        }
        assert before + done + text == before + (done + text);
        done := done + text;
        i := i + 1;
      }
      LastMembers(members, format, deep, done);
    }
  }

  function KeyText(key: Bytes, format: bool, depth: nat): Bytes {
    Indent(format, depth) + Quoted(key) + Colon(format)
  }

  lemma MemberText(m: Member, format: bool, depth: nat)
    ensures PrintedMember(m, format, depth) == KeyText(m.key, format, depth) + Printed(m.value, format, depth)
  {
    hide Quoted, Tabs;
  }

  function ObjectOpen(format: bool): (r: Bytes)
    ensures |r| == if format then 2 else 1
  {
    if format then [OPEN_BRACE, NEWLINE] else [OPEN_BRACE]
  }

  function ObjectClose(format: bool, depth: nat): (r: Bytes)
    ensures |r| == if format then depth + 1 else 1
  {
    Indent(format, depth) + [CLOSE_BRACE]
  }

  /** All but the closing of an object. */
  function ObjectFront(members: seq<Member>, format: bool, depth: nat): Bytes {
    ObjectOpen(format) + PrintedMembers(members, format, depth + 1)
  }

  lemma ObjectText(members: seq<Member>, format: bool, depth: nat)
    ensures Printed(Obj(members), format, depth)
         == ObjectFront(members, format, depth) + ObjectClose(format, depth)
    ensures Printable(Obj(members)) == PrintableMembers(members)
  {
    hide Tabs, PrintedMembers;
    var front := ObjectOpen(format) + PrintedMembers(members, format, depth + 1);
    assert front + (Indent(format, depth) + [CLOSE_BRACE]) == front + Indent(format, depth) + [CLOSE_BRACE];
  }

  /** After i members, `done` is printed and the rest is still to come. */
  ghost predicate MembersLeft(members: seq<Member>, i: nat, format: bool, depth: nat, done: Bytes) {
    && i <= |members|
    && WellFormedMembers(members[i..]) && (PrintableMembers(members) ==> PrintableMembers(members[i..]))
    && PrintedMembers(members, format, depth) == done + PrintedMembers(members[i..], format, depth)
  }

  lemma FirstMembers(members: seq<Member>, format: bool, depth: nat)
    requires WellFormedMembers(members)
    ensures MembersLeft(members, 0, format, depth, [])
  {
    assert members[0..] == members;
  }

  lemma NextMember(members: seq<Member>, i: nat, format: bool, depth: nat, done: Bytes)
    requires i < |members| && MembersLeft(members, i, format, depth, done)
    ensures NulFree(members[i].key) && WellFormed(members[i].value)
    ensures PrintableMembers(members) ==> Printable(members[i].value)
    ensures MembersLeft(members, i + 1, format, depth,
                        done + (PrintedMember(members[i], format, depth) + MemberEnd(i + 1 < |members|, format)))
    ensures |done| + |PrintedMember(members[i], format, depth) + MemberEnd(i + 1 < |members|, format)|
         <= |PrintedMembers(members, format, depth)|
  {
    hide Printed, NulFree, WellFormed, PrintedMember, MemberEnd, Printable;
    var rest := members[i..];
    assert rest[0] == members[i] && rest[1..] == members[i + 1..];
  }

  lemma LastMembers(members: seq<Member>, format: bool, depth: nat, done: Bytes)
    requires MembersLeft(members, |members|, format, depth, done)
    ensures PrintedMembers(members, format, depth) == done
  {
    hide PrintedMember;
    assert members[|members|..] == [];
  }

  // ---------- whole documents ----------

  const DEFAULT_BUFFER_SIZE := 256

  /** `cJSON_Print` and `cJSON_PrintUnformatted`. */
  method Print(v: Value, format: bool) returns (ok: bool, text: Bytes)
    requires WellFormed(v)
    ensures ok ==> text == Printed(v, format, 0)
    ensures Printable(v) && |Printed(v, format, 0)| + 2 <= INT_MAX ==> ok
  {
    hide Printed, WellFormed, Printable;
    text := [];
    var buffer := new PrintBuffer(DEFAULT_BUFFER_SIZE, false, format);
    ok := buffer.PrintValue(v);
    if ok {
      PrintedNulFree(v, format, 0);
      assert [] + Printed(v, format, 0) == Printed(v, format, 0);
      buffer.AdvanceOver([], Printed(v, format, 0));
      text := buffer.buffer[..buffer.offset];
    }
  }

  /** `cJSON_PrintPreallocated`: the caller's buffer holds the text and its NUL, and two bytes
      more than the text are always enough. */
  method PrintPreallocated(v: Value, length: nat, format: bool) returns (ok: bool, memory: array<byte>)
    requires WellFormed(v) && length <= INT_MAX
    ensures memory.Length == length
    ensures ok ==> |Printed(v, format, 0)| < memory.Length
                   && memory[..|Printed(v, format, 0)|] == Printed(v, format, 0)
                   && memory[|Printed(v, format, 0)|] == 0
    ensures Printable(v) && |Printed(v, format, 0)| + 2 <= length ==> ok
  {
    hide Printed, WellFormed, Printable;
    var buffer := new PrintBuffer(length, true, format);
    ok := buffer.PrintValue(v);
    assert [] + Printed(v, format, 0) == Printed(v, format, 0);
    memory := buffer.buffer;
  }

  function ItemText(v: Value, more: bool, format: bool, depth: nat): Bytes {
    Printed(v, format, depth) + if more then ItemSeparator(format) else []
  }

  /** After i elements, `done` is printed and the rest is still to come. */
  ghost predicate ItemsLeft(items: seq<Value>, i: nat, format: bool, depth: nat, done: Bytes) {
    && i <= |items|
    && WellFormedItems(items[i..]) && (PrintableItems(items) ==> PrintableItems(items[i..]))
    && PrintedItems(items, format, depth) == done + PrintedItems(items[i..], format, depth)
  }

  lemma FirstItems(items: seq<Value>, format: bool, depth: nat)
    requires WellFormedItems(items)
    ensures ItemsLeft(items, 0, format, depth, [])
  {
    assert items[0..] == items;
  }

  lemma NextItem(items: seq<Value>, i: nat, format: bool, depth: nat, done: Bytes)
    requires i < |items| && ItemsLeft(items, i, format, depth, done)
    ensures WellFormed(items[i]) && (PrintableItems(items) ==> Printable(items[i]))
    ensures ItemsLeft(items, i + 1, format, depth, done + ItemText(items[i], i + 1 < |items|, format, depth))
    ensures |done| + |ItemText(items[i], i + 1 < |items|, format, depth)| <= |PrintedItems(items, format, depth)|
  {
    hide Printed, NulFree, WellFormed, Printable;
    var rest := items[i..];
    assert rest[0] == items[i] && rest[1..] == items[i + 1..];
    assert PrintedItems(rest, format, depth)
        == ItemText(items[i], i + 1 < |items|, format, depth) + PrintedItems(rest[1..], format, depth);
  }

  lemma LastItems(items: seq<Value>, format: bool, depth: nat, done: Bytes)
    requires ItemsLeft(items, |items|, format, depth, done)
    ensures PrintedItems(items, format, depth) == done
  {
    assert items[|items|..] == [];
  }

  /** Every number fits the conversion buffer. */
  ghost predicate Printable(v: Value)
    decreases v, 1
  {
    match v
    case Number(text) => |text| <= NUMBER_LIMIT
    case Arr(items) => PrintableItems(items)
    case Obj(members) => PrintableMembers(members)
    case _ => true
  }

  ghost predicate PrintableItems(items: seq<Value>)
    decreases items, 0
  {
    items == [] || (Printable(items[0]) && PrintableItems(items[1..]))
  }

  ghost predicate PrintableMembers(members: seq<Member>)
    decreases members, 0
  {
    members == [] || (Printable(members[0].value) && PrintableMembers(members[1..]))
  }

  lemma TerminatedText(stored: Bytes, text: Bytes)
    requires stored == text + [0]
    ensures stored[..|text|] == text && stored[|text|] == 0
  {
  }

  lemma EscapedNothing()
    ensures Escaped([]) == [] && ExtraCharacters([]) == 0
  {
  }

  lemma {:induction false} EscapedPrefixLength(s: Bytes, i: nat)
    requires i <= |s|
    ensures |Escaped(s[..i])| <= |Escaped(s)|
    decreases |s| - i
  {
    hide EscapedByte;
    if i < |s| {
      EscapedSnoc(s, i);
      EscapedPrefixLength(s, i + 1);
    } else {
      assert s[..i] == s;
    }
  }
}
