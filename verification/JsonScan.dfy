/** The printed text as a reader of bytes sees it: where blanks stand outside the string literals, in
    both formats. */
module JsonScan {
  import opened Common
  import opened JsonText

  // ---------- literals ----------

  /** Outside the literals, inside one, or behind a backslash in one. */
  datatype Mode = Outside | Inside | Escape

  function After(m: Mode, b: byte): Mode {
    match m
    case Outside => if b == 34 then Inside else Outside
    case Inside => if b == 34 then Outside else if b == 92 then Escape else Inside
    case Escape => Inside
  }

  function AfterAll(m: Mode, s: Bytes): Mode
    decreases |s|
  {
    if s == [] then m else AfterAll(After(m, s[0]), s[1..])
  }

  /** The text without the blanks outside its literals. */
  function Squeezed(m: Mode, s: Bytes): Bytes
    decreases |s|
  {
    if s == [] then []
    else (if m.Outside? && s[0] <= 32 then [] else [s[0]]) + Squeezed(After(m, s[0]), s[1..])
  }

  // ---------- layout ----------

  /** The reader's place: the brackets that are open, the last byte outside the literals that is no
      blank (0 before the first), and the blanks since. */
  datatype Place = Bad | Place(mode: Mode, open: Bytes, last: byte, blanks: Bytes)

  /** A new line with n tabs. */
  function Line(n: nat): Bytes {
    [10] + seq(n, _ => 9)
  }

  function Top(open: Bytes): byte {
    if open == [] then 0 else open[|open| - 1]
  }

  /** The blanks between two visible bytes. Unformatted text has none. In formatted text every member of
      an object has its own line, with a tab for each array and object that is open there; the line of
      the closing brace has one less; behind a colon stands a tab, behind the comma of an array a space. */
  function Wanted(format: bool, open: Bytes, last: byte, next: byte): Bytes {
    if !format then []
    else if next == 125 then Line(if open == [] then 0 else |open| - 1)
    else if last == 123 || (last == 44 && Top(open) == 123) then Line(|open|)
    else if last == 44 then [32]
    else if last == 58 then [9]
    else []
  }

  /** The place behind one more byte; `Bad` for blanks other than these, for a bracket that closes no
      bracket of its kind, and for a control character in a literal. */
  function Read(format: bool, p: Place, b: byte): Place {
    if p.Bad? then Bad
    else if !p.mode.Outside? then
      if b < 32 then Bad
      else Place(After(p.mode, b), p.open, p.last, [])
    else if b <= 32 then p.(blanks := p.blanks + [b])
    else if p.blanks != Wanted(format, p.open, p.last, b) then Bad
    else if b == 123 || b == 91 then Place(Outside, p.open + [b], b, [])
    else if b == 125 || b == 93 then
      if Top(p.open) != b - 2 then Bad else Place(Outside, p.open[..|p.open| - 1], b, [])
    else Place(After(Outside, b), p.open, b, [])
  }

  function ReadAll(format: bool, p: Place, s: Bytes): Place
    decreases |s|
  {
    if s == [] then p else ReadAll(format, Read(format, p, s[0]), s[1..])
  }

  /** The whole text is laid out as wanted, with all brackets and literals closed. */
  predicate LaidOut(format: bool, s: Bytes) {
    var p := ReadAll(format, Place(Outside, [], 0, []), s);
    p.Place? && p.mode.Outside? && p.open == [] && p.blanks == []
  }

  // ---------- reading what is printed ----------

  lemma {:induction false} ReadConcat(format: bool, p: Place, a: Bytes, b: Bytes)
    ensures ReadAll(format, p, a + b) == ReadAll(format, ReadAll(format, p, a), b)
    decreases |a|
  {
    hide Read;
    if a == [] {
      assert a + b == b;
    } else {
      assert (a + b)[1..] == a[1..] + b;
      ReadConcat(format, Read(format, p, a[0]), a[1..], b);
    }
  }

  lemma ReadOne(format: bool, p: Place, b: byte)
    ensures ReadAll(format, p, [b]) == Read(format, p, b)
  {
    hide Read;
    assert [b][1..] == [];
  }

  lemma {:induction false} BlanksRead(format: bool, p: Place, t: Bytes)
    requires p.Place? && p.mode.Outside? && forall i :: 0 <= i < |t| ==> t[i] <= 32
    ensures ReadAll(format, p, t) == p.(blanks := p.blanks + t)
    decreases |t|
  {
    if t == [] {
      assert p.blanks + t == p.blanks;
    } else {
      BlanksRead(format, Read(format, p, t[0]), t[1..]);
      assert p.blanks + [t[0]] + t[1..] == p.blanks + t;
    }
  }

  /** Behind this byte no blanks are wanted, unless a closing brace follows. */
  predicate Ended(b: byte) {
    b != 123 && b != 44 && b != 58
  }

  /** The place right behind a value or a key. */
  predicate Behind(p: Place, open: Bytes) {
    p.Place? && p == Place(Outside, open, p.last, []) && Ended(p.last)
  }

  /** A place where a value or a key may begin. */
  predicate Ready(format: bool, p: Place) {
    p.Place? && p.mode.Outside? && p.blanks == Wanted(format, p.open, p.last, 0)
  }

  predicate IsWordByte(b: byte) {
    b > 32 && b !in {34, 44, 58, 91, 93, 123, 125}
  }

  lemma {:induction false} WordRead(format: bool, p: Place, t: Bytes)
    requires Ready(format, p) && t != [] && forall i :: 0 <= i < |t| ==> IsWordByte(t[i])
    ensures Behind(ReadAll(format, p, t), p.open)
    decreases |t|
  {
    var q := Read(format, p, t[0]);
    if |t| > 1 {
      WordRead(format, q, t[1..]);
    } else {
      assert t[1..] == [];
    }
  }

  lemma EscapedByteRead(format: bool, p: Place, b: byte)
    requires p.Place? && p.mode.Inside? && p.blanks == []
    ensures ReadAll(format, p, EscapedByte(b)) == p
  {
    var e := EscapedByte(b);
    if |e| == 1 {
      ReadOne(format, p, b);
    } else {
      var q := Read(format, Read(format, p, e[0]), e[1]);
      assert q == p && e == [e[0], e[1]] + e[2..];
      ReadTwo(format, p, e[0], e[1]);
      ReadConcat(format, p, [e[0], e[1]], e[2..]);
      if |e| == 6 {
        DigitsRead(format, p, e[2..]);
      } else {
        assert e[2..] == [];
      }
    }
  }

  lemma ReadTwo(format: bool, p: Place, a: byte, b: byte)
    ensures ReadAll(format, p, [a, b]) == Read(format, Read(format, p, a), b)
  {
    hide Read;
    assert [a, b][1..] == [b];
    ReadOne(format, Read(format, p, a), b);
  }

  lemma {:induction false} DigitsRead(format: bool, p: Place, t: Bytes)
    requires p.Place? && p.mode.Inside? && p.blanks == []
    requires forall i :: 0 <= i < |t| ==> t[i] >= 32 && t[i] != 34 && t[i] != 92
    ensures ReadAll(format, p, t) == p
    decreases |t|
  {
    if t != [] {
      DigitsRead(format, p, t[1..]);
    }
  }

  lemma {:induction false} EscapedRead(format: bool, p: Place, s: Bytes)
    requires p.Place? && p.mode.Inside? && p.blanks == []
    ensures ReadAll(format, p, Escaped(s)) == p
    decreases |s|
  {
    hide Read, EscapedByte;
    if s != [] {
      EscapedByteRead(format, p, s[0]);
      EscapedRead(format, p, s[1..]);
      ReadConcat(format, p, EscapedByte(s[0]), Escaped(s[1..]));
    }
  }

  lemma QuotedRead(format: bool, p: Place, s: Bytes)
    requires Ready(format, p)
    ensures Behind(ReadAll(format, p, Quoted(s)), p.open)
  {
    hide Escaped;
    var q := Read(format, p, 34);
    ReadOne(format, p, 34);
    EscapedRead(format, q, s);
    ReadOne(format, q, 34);
    ReadConcat(format, p, [QUOTE] + Escaped(s), [QUOTE]);
    ReadConcat(format, p, [QUOTE], Escaped(s));
  }

  lemma NumberIsWord(t: Bytes)
    requires IsNumberText(t)
    ensures t != [] && forall i :: 0 <= i < |t| ==> IsWordByte(t[i])
  {
    assert forall i :: 0 <= i < |t| ==> IsNumberByte(t[i]);
  }

  /** A value is laid out as wanted, and leaves the brackets as they were. */
  lemma {:induction false} ValueRead(v: Value, format: bool, p: Place)
    requires WellFormed(v) && Ready(format, p)
    ensures Behind(ReadAll(format, p, Printed(v, format, |p.open|)), p.open)
    decreases v, 1
  {
    hide Read, ReadAll, Behind, WellFormedItems, WellFormedMembers, PrintedItems, PrintedMembers, Quoted, Indent,
      IsNumberText;
    match v
    case Str(s) => QuotedRead(format, p, s);
    case Number(t) =>
      NumberIsWord(t);
      WordRead(format, p, t);
    case Arr(items) => ArrayRead(items, format, p);
    case Obj(members) => ObjectRead(members, format, p);
    case _ => WordRead(format, p, Printed(v, format, |p.open|));
  }

  lemma OpenRead(format: bool, p: Place, b: byte)
    requires Ready(format, p) && (b == 91 || b == 123)
    ensures ReadAll(format, p, [b]) == Place(Outside, p.open + [b], b, [])
  {
    ReadOne(format, p, b);
  }

  lemma CloseBracketRead(format: bool, p: Place, open: Bytes)
    requires p.Place? && p == Place(Outside, open + [91], p.last, []) && Ended(p.last)
    ensures Behind(ReadAll(format, p, [93]), open)
  {
    ReadOne(format, p, 93);
    assert (open + [91])[..|open|] == open;
  }

  lemma {:induction false} ArrayRead(items: seq<Value>, format: bool, p: Place)
    requires WellFormedItems(items) && Ready(format, p)
    ensures Behind(ReadAll(format, p, Printed(Arr(items), format, |p.open|)), p.open)
    decreases items, 1
  {
    hide Read, ReadAll, PrintedItems, WellFormedItems;
    var inner := PrintedItems(items, format, |p.open| + 1);
    var q := Place(Outside, p.open + [91], 91, []);
    OpenRead(format, p, 91);
    if items == [] {
      NothingRead(format, q, |p.open| + 1);
    } else {
      ItemsRead(items, format, q);
    }
    CloseBracketRead(format, ReadAll(format, q, inner), p.open);
    ReadConcat(format, p, [OPEN_BRACKET] + inner, [CLOSE_BRACKET]);
    ReadConcat(format, p, [OPEN_BRACKET], inner);
  }

  lemma NothingRead(format: bool, p: Place, tabs: nat)
    ensures ReadAll(format, p, PrintedItems([], format, tabs)) == p
    ensures ReadAll(format, p, PrintedMembers([], format, tabs)) == p
  {
  }

  lemma SeparatorRead(format: bool, p: Place)
    requires p.Place? && Behind(p, p.open) && Top(p.open) == 91
    ensures var q := ReadAll(format, p, ItemSeparator(format)); Ready(format, q) && q.open == p.open
  {
    ReadOne(format, p, 44);
    ReadTwo(format, p, 44, 32);
  }

  lemma {:induction false} ItemsRead(items: seq<Value>, format: bool, p: Place)
    requires items != [] && WellFormedItems(items) && Ready(format, p) && Top(p.open) == 91
    ensures Behind(ReadAll(format, p, PrintedItems(items, format, |p.open|)), p.open)
    decreases items, 0
  {
    hide Read, ReadAll, Printed, WellFormed, ItemSeparator;
    var first := Printed(items[0], format, |p.open|);
    ValueRead(items[0], format, p);
    if |items| > 1 {
      var q := ReadAll(format, p, first);
      var rest := PrintedItems(items[1..], format, |p.open|);
      SeparatorRead(format, q);
      ItemsRead(items[1..], format, ReadAll(format, q, ItemSeparator(format)));
      assert PrintedItems(items, format, |p.open|) == first + ItemSeparator(format) + rest;
      ReadConcat(format, p, first + ItemSeparator(format), rest);
      ReadConcat(format, p, first, ItemSeparator(format));
    }
  }

  function Newline(format: bool): Bytes {
    if format then [10] else []
  }

  lemma BraceRead(format: bool, p: Place)
    requires Ready(format, p)
    ensures ReadAll(format, p, if format then [OPEN_BRACE, NEWLINE] else [OPEN_BRACE])
         == Place(Outside, p.open + [123], 123, Newline(format))
  {
    ReadOne(format, p, 123);
    ReadTwo(format, p, 123, 10);
  }

  /** Behind the members, at the start of the closing brace's line. */
  lemma CloseBraceRead(format: bool, p: Place, open: Bytes)
    requires p.Place? && p == Place(Outside, open + [123], p.last, Newline(format))
    ensures Behind(ReadAll(format, p, Indent(format, |open|) + [CLOSE_BRACE]), open)
  {
    var indent := Indent(format, |open|);
    var q := p.(blanks := p.blanks + indent);
    BlanksRead(format, p, indent);
    ReadConcat(format, p, indent, [CLOSE_BRACE]);
    ReadOne(format, q, 125);
    assert (open + [123])[..|open|] == open;
    if format {
      assert q.blanks == Line(|open|);
    }
  }

  lemma {:induction false} ObjectRead(members: seq<Member>, format: bool, p: Place)
    requires WellFormedMembers(members) && Ready(format, p)
    ensures Behind(ReadAll(format, p, Printed(Obj(members), format, |p.open|)), p.open)
    decreases members, 1
  {
    hide Read, ReadAll, PrintedMembers, WellFormedMembers, Indent, Newline;
    var open := if format then [OPEN_BRACE, NEWLINE] else [OPEN_BRACE];
    var inner, indent := PrintedMembers(members, format, |p.open| + 1), Indent(format, |p.open|);
    var q := Place(Outside, p.open + [123], 123, Newline(format));
    BraceRead(format, p);
    MembersRead(members, format, q);
    var r := ReadAll(format, q, inner);
    CloseBraceRead(format, r, p.open);
    assert Printed(Obj(members), format, |p.open|) == open + inner + (indent + [CLOSE_BRACE]);
    ReadConcat(format, p, open + inner, indent + [CLOSE_BRACE]);
    ReadConcat(format, p, open, inner);
  }

  lemma MemberEndRead(format: bool, p: Place, more: bool)
    requires p.Place? && Behind(p, p.open)
    ensures ReadAll(format, p, MemberEnd(more, format))
         == Place(Outside, p.open, if more then 44 else p.last, Newline(format))
  {
    if more {
      ReadOne(format, p, 44);
      ReadTwo(format, p, 44, 10);
      assert MemberEnd(true, format) == if format then [44, 10] else [44];
    } else {
      ReadOne(format, p, 10);
      assert MemberEnd(false, format) == Newline(format);
    }
  }

  lemma IndentRead(format: bool, p: Place)
    requires p.Place? && p == Place(Outside, p.open, p.last, Newline(format))
    requires p.last == 123 || (p.last == 44 && Top(p.open) == 123)
    ensures var q := ReadAll(format, p, Indent(format, |p.open|)); Ready(format, q) && q.open == p.open
  {
    BlanksRead(format, p, Indent(format, |p.open|));
  }

  lemma ColonRead(format: bool, p: Place)
    requires p.Place? && Behind(p, p.open)
    ensures var q := ReadAll(format, p, Colon(format)); Ready(format, q) && q.open == p.open
  {
    ReadOne(format, p, 58);
    ReadTwo(format, p, 58, 9);
  }

  lemma {:induction false} MemberRead(m: Member, format: bool, p: Place)
    requires WellFormed(m.value) && p.Place? && p == Place(Outside, p.open, p.last, Newline(format))
    requires p.last == 123 || (p.last == 44 && Top(p.open) == 123)
    ensures Behind(ReadAll(format, p, PrintedMember(m, format, |p.open|)), p.open)
    decreases m, 0
  {
    hide Read, ReadAll, Ready, Printed, Quoted, Colon, Indent, Newline;
    var indent, key, value := Indent(format, |p.open|), Quoted(m.key), Printed(m.value, format, |p.open|);
    IndentRead(format, p);
    var q := ReadAll(format, p, indent);
    QuotedRead(format, q, m.key);
    var k := ReadAll(format, q, key);
    ColonRead(format, k);
    ValueRead(m.value, format, ReadAll(format, k, Colon(format)));
    ReadConcat(format, p, indent + key + Colon(format), value);
    ReadConcat(format, p, indent + key, Colon(format));
    ReadConcat(format, p, indent, key);
  }

  lemma {:induction false} MembersRead(members: seq<Member>, format: bool, p: Place)
    requires WellFormedMembers(members) && p.Place? && Top(p.open) == 123
    requires p == Place(Outside, p.open, p.last, Newline(format))
    requires p.last == 123 || (p.last == 44 && members != [])
    ensures var q := ReadAll(format, p, PrintedMembers(members, format, |p.open|));
      q.Place? && q == Place(Outside, p.open, q.last, Newline(format)) && (q.last == 123 || Ended(q.last))
    decreases members, 0
  {
    hide Read, ReadAll, PrintedMember, WellFormed, NulFree, MemberEnd, Newline;
    if members == [] {
      NothingRead(format, p, |p.open|);
    } else {
      var member, end := PrintedMember(members[0], format, |p.open|), MemberEnd(|members| > 1, format);
      var rest := PrintedMembers(members[1..], format, |p.open|);
      MemberRead(members[0], format, p);
      var q := ReadAll(format, p, member);
      MemberEndRead(format, q, |members| > 1);
      var r := ReadAll(format, q, end);
      if |members| > 1 {
        MembersRead(members[1..], format, r);
      } else {
        NothingRead(format, r, |p.open|);
        assert members[1..] == [];
      }
      ReadConcat(format, p, member + end, rest);
      ReadConcat(format, p, member, end);
    }
  }

  // ---------- squeezing ----------

  lemma {:induction false} SqueezedConcat(m: Mode, a: Bytes, b: Bytes)
    ensures Squeezed(m, a + b) == Squeezed(m, a) + Squeezed(AfterAll(m, a), b)
    ensures AfterAll(m, a + b) == AfterAll(AfterAll(m, a), b)
    decreases |a|
  {
    if a == [] {
      assert a + b == b;
    } else {
      assert (a + b)[1..] == a[1..] + b;
      SqueezedConcat(After(m, a[0]), a[1..], b);
    }
  }

  /** This text stands outside the literals, or is a whole one, and becomes that one. */
  predicate SqueezesTo(s: Bytes, t: Bytes) {
    Squeezed(Outside, s) == t && AfterAll(Outside, s) == Outside
  }

  lemma SqueezesConcat(a: Bytes, b: Bytes, x: Bytes, y: Bytes)
    requires SqueezesTo(a, x) && SqueezesTo(b, y)
    ensures SqueezesTo(a + b, x + y)
  {
    SqueezedConcat(Outside, a, b);
  }

  lemma {:induction false} BlanksSqueezed(t: Bytes)
    requires forall i :: 0 <= i < |t| ==> t[i] <= 32
    ensures SqueezesTo(t, [])
  {
    if t != [] {
      BlanksSqueezed(t[1..]);
    }
  }

  lemma {:induction false} WordSqueezed(t: Bytes)
    requires forall i :: 0 <= i < |t| ==> t[i] > 32 && t[i] != 34
    ensures SqueezesTo(t, t)
  {
    if t != [] {
      WordSqueezed(t[1..]);
    }
  }

  lemma {:induction false} EscapedSqueezed(s: Bytes)
    ensures Squeezed(Inside, Escaped(s)) == Escaped(s) && AfterAll(Inside, Escaped(s)) == Inside
  {
    hide EscapedByte;
    if s != [] {
      EscapedByteSqueezed(s[0]);
      EscapedSqueezed(s[1..]);
      SqueezedConcat(Inside, EscapedByte(s[0]), Escaped(s[1..]));
    }
  }

  lemma {:induction false} DigitsSqueezed(t: Bytes)
    requires forall i :: 0 <= i < |t| ==> t[i] != 34 && t[i] != 92
    ensures Squeezed(Inside, t) == t && AfterAll(Inside, t) == Inside
  {
    if t != [] {
      DigitsSqueezed(t[1..]);
    }
  }

  lemma EscapedByteSqueezed(b: byte)
    ensures Squeezed(Inside, EscapedByte(b)) == EscapedByte(b) && AfterAll(Inside, EscapedByte(b)) == Inside
  {
    var e := EscapedByte(b);
    if |e| == 1 {
      DigitsSqueezed(e);
    } else {
      assert e == [e[0], e[1]] + e[2..] && [e[0], e[1]][1..] == [e[1]];
      SqueezedConcat(Inside, [e[0], e[1]], e[2..]);
      DigitsSqueezed(e[2..]);
    }
  }

  lemma QuotedSqueezed(s: Bytes)
    ensures SqueezesTo(Quoted(s), Quoted(s))
  {
    hide Escaped;
    EscapedSqueezed(s);
    assert [QUOTE][1..] == [];
    SqueezedConcat(Outside, [QUOTE] + Escaped(s), [QUOTE]);
    SqueezedConcat(Outside, [QUOTE], Escaped(s));
  }

  lemma LayoutSqueezed(format: bool, tabs: nat)
    ensures SqueezesTo(Colon(format), Colon(false)) && SqueezesTo(ItemSeparator(format), ItemSeparator(false))
    ensures SqueezesTo(Indent(format, tabs), []) && SqueezesTo(MemberEnd(false, format), MemberEnd(false, false))
    ensures SqueezesTo(MemberEnd(true, format), MemberEnd(true, false))
    ensures SqueezesTo(if format then [OPEN_BRACE, NEWLINE] else [OPEN_BRACE], [OPEN_BRACE])
    ensures SqueezesTo([OPEN_BRACKET], [OPEN_BRACKET]) && SqueezesTo([CLOSE_BRACKET], [CLOSE_BRACKET])
    ensures SqueezesTo([CLOSE_BRACE], [CLOSE_BRACE]) && SqueezesTo([], [])
  {
    BlanksSqueezed(Indent(format, tabs));
    TwoSqueezed(58, 9);
    TwoSqueezed(44, 32);
    TwoSqueezed(44, 10);
    TwoSqueezed(123, 10);
    BlanksSqueezed([10]);
    WordSqueezed([91]);
    WordSqueezed([93]);
    WordSqueezed([125]);
  }

  lemma TwoSqueezed(a: byte, b: byte)
    requires a > 32 && a != 34 && b <= 32
    ensures SqueezesTo([a, b], [a]) && SqueezesTo([a], [a])
  {
    WordSqueezed([a]);
    BlanksSqueezed([b]);
    SqueezesConcat([a], [b], [a], []);
    assert [a] + [b] == [a, b] && [a] + [] == [a];
  }

  /** Deleting the blanks outside the literals makes the unformatted text of any text of a value. */
  lemma {:induction false} ValueSqueezed(v: Value, format: bool, tabs: nat, tabs': nat)
    requires WellFormed(v)
    ensures SqueezesTo(Printed(v, format, tabs), Printed(v, false, tabs'))
    decreases v, 1
  {
    hide SqueezesTo, WellFormedItems, WellFormedMembers, PrintedItems, PrintedMembers, Quoted, Indent, IsNumberText;
    match v
    case Str(s) => QuotedSqueezed(s);
    case Number(t) =>
      NumberIsWord(t);
      WordSqueezed(t);
    case Arr(items) =>
      var x, y := PrintedItems(items, format, tabs + 1), PrintedItems(items, false, tabs' + 1);
      LayoutSqueezed(format, tabs);
      ItemsSqueezed(items, format, tabs + 1, tabs' + 1);
      SqueezesConcat([OPEN_BRACKET], x, [OPEN_BRACKET], y);
      SqueezesConcat([OPEN_BRACKET] + x, [CLOSE_BRACKET], [OPEN_BRACKET] + y, [CLOSE_BRACKET]);
    case Obj(members) =>
      var x, y := PrintedMembers(members, format, tabs + 1), PrintedMembers(members, false, tabs' + 1);
      var open := if format then [OPEN_BRACE, NEWLINE] else [OPEN_BRACE];
      LayoutSqueezed(format, tabs);
      MembersSqueezed(members, format, tabs + 1, tabs' + 1);
      SqueezesConcat(open, x, [OPEN_BRACE], y);
      SqueezesConcat(open + x, Indent(format, tabs), [OPEN_BRACE] + y, []);
      SqueezesConcat(open + x + Indent(format, tabs), [CLOSE_BRACE], [OPEN_BRACE] + y + [], [CLOSE_BRACE]);
      NoIndent();
    case _ => WordSqueezed(Printed(v, format, tabs));
  }

  lemma NoIndent()
    ensures forall tabs :: Indent(false, tabs) == []
  {
  }

  lemma {:induction false} ItemsSqueezed(items: seq<Value>, format: bool, tabs: nat, tabs': nat)
    requires WellFormedItems(items)
    ensures SqueezesTo(PrintedItems(items, format, tabs), PrintedItems(items, false, tabs'))
    decreases items, 0
  {
    hide SqueezesTo, Printed, WellFormed, ItemSeparator;
    LayoutSqueezed(format, tabs);
    if items != [] {
      var x, y := Printed(items[0], format, tabs), Printed(items[0], false, tabs');
      ValueSqueezed(items[0], format, tabs, tabs');
      ItemsSqueezed(items[1..], format, tabs, tabs');
      SqueezesConcat(x, ItemSeparator(format), y, ItemSeparator(false));
      SqueezesConcat(x + ItemSeparator(format), PrintedItems(items[1..], format, tabs),
                     y + ItemSeparator(false), PrintedItems(items[1..], false, tabs'));
    }
  }

  lemma {:induction false} MemberSqueezed(m: Member, format: bool, tabs: nat, tabs': nat)
    requires WellFormed(m.value)
    ensures SqueezesTo(PrintedMember(m, format, tabs), PrintedMember(m, false, tabs'))
    decreases m, 0
  {
    hide SqueezesTo, Printed, Quoted, Colon, Indent;
    var indent, key, x, y := Indent(format, tabs), Quoted(m.key), Printed(m.value, format, tabs),
      Printed(m.value, false, tabs');
    LayoutSqueezed(format, tabs);
    NoIndent();
    QuotedSqueezed(m.key);
    ValueSqueezed(m.value, format, tabs, tabs');
    SqueezesConcat(indent, key, [], key);
    SqueezesConcat(indent + key, Colon(format), [] + key, Colon(false));
    SqueezesConcat(indent + key + Colon(format), x, [] + key + Colon(false), y);
  }

  lemma {:induction false} MembersSqueezed(members: seq<Member>, format: bool, tabs: nat, tabs': nat)
    requires WellFormedMembers(members)
    ensures SqueezesTo(PrintedMembers(members, format, tabs), PrintedMembers(members, false, tabs'))
    decreases members, 0
  {
    hide SqueezesTo, PrintedMember, WellFormed, NulFree, MemberEnd;
    LayoutSqueezed(format, tabs);
    if members != [] {
      var x, y := PrintedMember(members[0], format, tabs), PrintedMember(members[0], false, tabs');
      var more := |members| > 1;
      MemberSqueezed(members[0], format, tabs, tabs');
      MembersSqueezed(members[1..], format, tabs, tabs');
      SqueezesConcat(x, MemberEnd(more, format), y, MemberEnd(more, false));
      SqueezesConcat(x + MemberEnd(more, format), PrintedMembers(members[1..], format, tabs),
                     y + MemberEnd(more, false), PrintedMembers(members[1..], false, tabs'));
    }
  }

  /** What is printed unformatted has no byte up to the space outside its literals, and is what is left
      of the formatted text without these bytes. */
  lemma FormattedSqueezed(v: Value, format: bool)
    requires WellFormed(v)
    ensures Squeezed(Outside, Printed(v, format, 0)) == Printed(v, false, 0)
  {
    hide Squeezed, Printed, WellFormed;
    ValueSqueezed(v, format, 0, 0);
  }

  /** Whatever is printed is laid out as wanted in both formats. */
  lemma PrintedLaidOut(v: Value, format: bool)
    requires WellFormed(v)
    ensures LaidOut(format, Printed(v, format, 0))
  {
    hide Read, ReadAll, Printed, WellFormed;
    ValueRead(v, format, Place(Outside, [], 0, []));
  }
}
