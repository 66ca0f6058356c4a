/** Byte stuffing of UART payloads: escaping through a scratch buffer, unescaping in place. */
module Uart {
  import opened Common

  const SOF_MCU_TO_A53: byte := 0x60
  const SOF_A53_TO_MCU: byte := 0x80
  const ESCAPE_CHAR: byte := 0xdb
  const ESCAPE_CHAR1: byte := 0xda
  const ESCAPE_CHAR2: byte := 0xdc
  const ESCAPE_CHAR3: byte := 0xdd

  const DATA_SIZE := 253

  function EscapedByte(b: byte): Bytes {
    match b
    case 0x60 => [ESCAPE_CHAR, ESCAPE_CHAR1]
    case 0x80 => [ESCAPE_CHAR, ESCAPE_CHAR2]
    case 0xdb => [ESCAPE_CHAR, ESCAPE_CHAR3]
    case _ => [b]
  }

  function Escaped(s: Bytes): Bytes {
    if s == [] then [] else EscapedByte(s[0]) + Escaped(s[1..])
  }

  /** The byte that an escape code stands for. */
  function Decoded(code: byte): Option<byte> {
    match code
    case 0xda => Some(SOF_MCU_TO_A53)
    case 0xdc => Some(SOF_A53_TO_MCU)
    case 0xdd => Some(ESCAPE_CHAR)
    case _ => None
  }

  function Unescaped(s: Bytes): Option<Bytes>
    decreases |s|
  {
    if s == [] then Some([])
    else if s[0] != ESCAPE_CHAR then Prefixed(s[0], Unescaped(s[1..]))
    else if |s| == 1 || Decoded(s[1]).None? then None
    else Prefixed(Decoded(s[1]).value, Unescaped(s[2..]))
  }

  function Prefixed(b: byte, rest: Option<Bytes>): Option<Bytes> {
    if rest.None? then None else Some([b] + rest.value)
  }

  predicate StartByte(b: byte) {
    b == SOF_MCU_TO_A53 || b == SOF_A53_TO_MCU
  }

  /** An escape at index i that ends the data or has an unknown code. */
  predicate BadEscape(s: Bytes, i: nat)
    requires i < |s|
  {
    s[i] == ESCAPE_CHAR && (i + 1 == |s| || Decoded(s[i + 1]).None?)
  }

  /** Unescaping undoes escaping, for every payload. */
  lemma {:induction false} EscapeRoundTrip(s: Bytes)
    ensures Unescaped(Escaped(s)) == Some(s)
  {
    if s != [] {
      EscapeRoundTrip(s[1..]);
      var e, rest := EscapedByte(s[0]), Escaped(s[1..]);
      assert (e + rest)[|e|..] == rest;
      assert [s[0]] + s[1..] == s;
    }
  }

  /** The three bytes that are escaped. */
  predicate Special(b: byte) {
    StartByte(b) || b == ESCAPE_CHAR
  }

  function SpecialCount(s: Bytes): nat {
    if s == [] then 0 else (if Special(s[0]) then 1 else 0) + SpecialCount(s[1..])
  }

  /** Every special byte makes the payload one byte longer. */
  lemma {:induction false} EscapedLength(s: Bytes)
    ensures |Escaped(s)| == |s| + SpecialCount(s) <= 2 * |s|
    ensures SpecialCount(s) == 0 <==> forall i :: 0 <= i < |s| ==> !Special(s[i])
    ensures SpecialCount(s) == 0 ==> Escaped(s) == s
  {
    if s != [] {
      var rest := s[1..];
      EscapedLength(rest);
      assert forall i :: 0 <= i < |rest| ==> rest[i] == s[i + 1];
      assert forall i :: 1 <= i < |s| ==> s[i] == rest[i - 1];
      assert [s[0]] + rest == s;
    }
  }

  /** The escaped payload fits the data of a frame exactly when payload and special bytes together are
      at most 253; up to 126 bytes always do. */
  lemma FitsFrame(payload: Bytes)
    ensures |Escaped(payload)| <= DATA_SIZE <==> |payload| + SpecialCount(payload) <= DATA_SIZE
    ensures |payload| <= 126 ==> |Escaped(payload)| <= DATA_SIZE
  {
    EscapedLength(payload);
  }

  lemma {:induction false} AllSpecial(n: nat)
    ensures SpecialCount(seq(n, _ => SOF_MCU_TO_A53)) == n
  {
    if n > 0 {
      AllSpecial(n - 1);
      assert seq(n, _ => SOF_MCU_TO_A53)[1..] == seq(n - 1, _ => SOF_MCU_TO_A53);
    }
  }

  /** The shortest payload that outgrows the frame: 127 bytes 0x60 become 254. */
  lemma OutgrowSample()
    ensures var payload: Bytes := seq(127, _ => SOF_MCU_TO_A53);
      |payload| <= DATA_SIZE < |Escaped(payload)|
  {
    AllSpecial(127);
    EscapedLength(seq(127, _ => SOF_MCU_TO_A53));
  }

  /** What removing the escapes makes of the data. Where `char` is signed no byte ever compares equal
      to the escape character, and the data stays as it is. */
  function Removed(s: Bytes, signedChar: bool): Option<Bytes> {
    if signedChar then Some(s) else Unescaped(s)
  }

  /** Removing undoes escaping for every payload where `char` is unsigned; where it is signed, exactly
      for the payloads without a special byte. */
  lemma RemoveRoundTrip(s: Bytes, signedChar: bool)
    ensures Removed(Escaped(s), signedChar) == Some(s) <==> !signedChar || forall i :: 0 <= i < |s| ==> !Special(s[i])
  {
    hide Escaped, Unescaped;
    EscapeRoundTrip(s);
    EscapedLength(s);
  }

  /** A frame start never appears inside an escaped payload. */
  lemma {:induction false} NoStartInside(s: Bytes)
    ensures forall b :: b in Escaped(s) ==> !StartByte(b)
  {
    if s != [] {
      NoStartInside(s[1..]);
    }
  }

  /** Data without a frame start that can be unescaped is the escaped form of the result: so
      payloads and such data correspond one to one. */
  lemma {:induction false} UnescapeRoundTrip(s: Bytes)
    requires (forall b :: b in s ==> !StartByte(b)) && Unescaped(s).Some?
    ensures Escaped(Unescaped(s).value) == s
    decreases |s|
  {
    if s != [] {
      var n := if s[0] == ESCAPE_CHAR then 2 else 1;
      UnescapeRoundTrip(s[n..]);
      var rest := Unescaped(s[n..]).value;
      var b := if n == 2 then Decoded(s[1]).value else s[0];
      assert ([b] + rest)[1..] == rest;
      assert s[..n] == if n == 2 then [s[0], s[1]] else [s[0]];
      assert s[0] in s;
      assert EscapedByte(b) == s[..n];
      assert s[..n] + s[n..] == s;
    }
  }

  /** Removal fails exactly when some escape is dangling or has an unknown code. */
  lemma {:induction false} UnescapeFails(s: Bytes)
    ensures Unescaped(s).None? <==> exists i :: 0 <= i < |s| && BadEscape(s, i)
    decreases |s|
  {
    if s != [] {
      if s[0] == ESCAPE_CHAR && (|s| == 1 || Decoded(s[1]).None?) {
        assert BadEscape(s, 0);
      } else {
        var n := if s[0] == ESCAPE_CHAR then 2 else 1;
        UnescapeFails(s[n..]);
        forall i | 0 <= i < |s| - n ensures BadEscape(s, n + i) <==> BadEscape(s[n..], i) {
        }
        forall i | n <= i < |s| ensures BadEscape(s, i) <==> BadEscape(s[n..], i - n) {
        }
        assert forall i :: 0 <= i < n ==> !BadEscape(s, i);
      }
    }
  }

  lemma {:induction false} EscapedSnoc(s: Bytes, i: nat)
    requires i < |s|
    ensures Escaped(s[..i + 1]) == Escaped(s[..i]) + EscapedByte(s[i])
    decreases i
  {
    hide EscapedByte;
    var t := s[..i + 1];
    if i > 0 {
      EscapedSnoc(s[1..], i - 1);
      assert s[1..][..i] == t[1..] && s[1..][..i - 1] == s[..i][1..];
    } else {
      assert s[..0] == [] && t == [s[0]] && t[1..] == [];
    }
  }

  /** What is left after the first n bytes. */
  lemma {:induction false} UnescapedSplit(s: Bytes, b: byte, n: nat)
    requires 0 < n <= |s|
    requires if s[0] == ESCAPE_CHAR then n == 2 && Decoded(s[1]) == Some(b) else n == 1 && b == s[0]
    ensures Unescaped(s) == Prefixed(b, Unescaped(s[n..]))
  {
  }

  lemma UnescapedEnds(s: Bytes)
    ensures s == [] ==> Unescaped(s) == Some([])
    ensures s != [] && BadEscape(s, 0) ==> Unescaped(s).None?
  {
  }

  /** Bytes already decoded, and what is still to come. */
  function Extended(done: Bytes, rest: Option<Bytes>): Option<Bytes> {
    if rest.None? then None else Some(done + rest.value)
  }

  lemma ExtendedMore(done: Bytes, b: byte, rest: Option<Bytes>)
    ensures Extended(done, Prefixed(b, rest)) == Extended(done + [b], rest)
    ensures Extended([], rest) == rest
  {
    if rest.Some? {
      assert done + ([b] + rest.value) == done + [b] + rest.value;
      assert [] + rest.value == rest.value;
    }
  }

  class Message {
    var len: nat
    const subId: byte
    const data: array<byte>

    constructor (len: nat, subId: byte)
      ensures this.len == len && this.subId == subId && data.Length == DATA_SIZE && fresh(data)
    {
      this.len, this.subId := len, subId;
      data := new byte[DATA_SIZE];
    }
  }

  /** `*p == ESCAPE_CHAR` for a `char` that holds the byte: a signed one is negative from 128 on. */
  predicate IsEscapeChar(b: byte, signedChar: bool) {
    (if signedChar && b >= 128 then b - 256 else b) == ESCAPE_CHAR as int
  }

  /** `remove_escape_char`: two indices walk the same array. */
  method RemoveEscapeChar(data: array<byte>, dataLen: nat, signedChar: bool) returns (r: int)
    requires dataLen <= data.Length
    modifies data
    ensures r == -1 <==> Removed(old(data[..dataLen]), signedChar).None?
    ensures r != -1 ==> 0 <= r <= dataLen && Removed(old(data[..dataLen]), signedChar) == Some(data[..dataLen - r])
    ensures data[dataLen..] == old(data[dataLen..])
  {
    hide Unescaped;
    ghost var s := data[..dataLen];
    var from, to := 0, 0;
    assert s[0..] == s;
    ExtendedMore([], 0, Unescaped(s));
    while from != dataLen
      invariant 0 <= to <= from <= dataLen
      invariant data[from..dataLen] == s[from..] && data[dataLen..] == old(data[dataLen..])
      invariant signedChar ==> to == from && data[..dataLen] == s
      invariant !signedChar ==> Unescaped(s) == Extended(data[..to], Unescaped(s[from..]))
      decreases dataLen - from
    {
      ghost var rest, done := s[from..], data[..to];
      assert rest[0] == data[from];
      UnescapedEnds(rest);
      assert from + 1 < dataLen ==> rest[1] == data[from..dataLen][1] == data[from + 1];
      if IsEscapeChar(data[from], signedChar) {
        if from + 1 == dataLen {
          return -1;
        }
        from := from + 1;
        var decoded := Decoded(data[from]);
        if decoded.None? {
          return -1;
        }
        data[from] := decoded.value;
        UnescapedSplit(rest, decoded.value, 2);
        assert rest[2..] == s[from + 1..];
      } else if !signedChar {
        UnescapedSplit(rest, data[from], 1);
        assert rest[1..] == s[from + 1..];
      }
      ghost var b := data[from];
      ExtendedMore(done, b, Unescaped(s[from + 1..]));
      if to != from {
        data[to] := data[from];
      }
      from, to := from + 1, to + 1;
      assert data[..to] == done + [b];
    }
    UnescapedEnds(s[dataLen..]);
    assert s[dataLen..] == [] && data[..to] + [] == data[..to];
    return from - to;
  }

  /** The loop of `add_escape_char`: the escaped bytes, and how many escapes there are. */
  method EscapeInto(data: array<byte>, len: nat, buf: array<byte>) returns (k: nat, escapeCharNum: nat)
    requires len <= data.Length && buf.Length == 2 * len && buf != data
    modifies buf
    ensures k <= buf.Length && buf[..k] == Escaped(data[..len])
    ensures k == len + escapeCharNum && escapeCharNum == SpecialCount(data[..len])
  {
    hide Escaped, EscapedByte;
    k, escapeCharNum := 0, 0;
    NothingEscaped();
    ghost var s := data[..len];
    assert s[..0] == [];
    for i := 0 to len
      invariant k == i + escapeCharNum <= 2 * i
      invariant buf[..k] == Escaped(s[..i])
    {
      EscapedSnoc(s, i);
      ghost var done := buf[..k];
      var b := data[i];
      EscapeCases(b);
      if b == SOF_MCU_TO_A53 || b == SOF_A53_TO_MCU || b == ESCAPE_CHAR {
        escapeCharNum := escapeCharNum + 1;
        buf[k] := ESCAPE_CHAR;
        buf[k + 1] :=
          if b == SOF_MCU_TO_A53 then ESCAPE_CHAR1
          else if b == SOF_A53_TO_MCU then ESCAPE_CHAR2
          else ESCAPE_CHAR3;
        assert buf[..k + 2] == done + EscapedByte(b);
        k := k + 2;
      } else {
        buf[k] := b;
        assert buf[..k + 1] == done + EscapedByte(b);
        k := k + 1;
      }
    }
    assert s[..len] == s;
    EscapedLength(s);
  }

  lemma NothingEscaped()
    ensures Escaped([]) == []
  {
  }

  lemma EscapeCases(b: byte)
    ensures EscapedByte(b) ==
      if b == SOF_MCU_TO_A53 then [ESCAPE_CHAR, ESCAPE_CHAR1]
      else if b == SOF_A53_TO_MCU then [ESCAPE_CHAR, ESCAPE_CHAR2]
      else if b == ESCAPE_CHAR then [ESCAPE_CHAR, ESCAPE_CHAR3]
      else [b]
  {
  }

  /** The payload as it is sent. In a CANFD message the byte at the given offset of the escaped
      payload, its length byte, grows by the number of escapes. */
  function Sent(payload: Bytes, canfd: bool, offset: nat): Bytes {
    EscapedLength(payload);
    var e := Escaped(payload);
    if canfd && offset < |e| then e[offset := (e[offset] + (|e| - |payload|)) % 256] else e
  }

  /** No frame start is inside what is sent, unless it is the grown length byte itself; and a payload
      that needs no escape is sent as it is. */
  lemma SentHasNoStart(payload: Bytes, canfd: bool, offset: nat)
    ensures var t := Sent(payload, canfd, offset);
      (exists b :: b in t && StartByte(b)) <==> canfd && offset < |t| && StartByte(t[offset])
    ensures (forall i :: 0 <= i < |payload| ==> !Special(payload[i])) ==> Sent(payload, canfd, offset) == payload
  {
    hide Escaped;
    NoStartInside(payload);
    EscapedLength(payload);
    var e, t := Escaped(payload), Sent(payload, canfd, offset);
    assert canfd && offset < |t| ==> t[offset] in t;
    assert forall i :: 0 <= i < |t| && !(canfd && i == offset) ==> t[i] == e[i] && e[i] in e;
    forall b | b in t && StartByte(b) ensures canfd && offset < |t| && StartByte(t[offset]) {
      var i :| 0 <= i < |t| && t[i] == b;
    }
  }

  /** `add_escape_char` for a payload that fits the frame with its special bytes counted twice. The length
      counts the payload and `fixed` bytes more. */
  method AddEscapeChar(msg: Message, fixed: nat, canfd: byte, offset: nat) returns (r: int)
    requires msg.data.Length == DATA_SIZE
    requires fixed <= msg.len <= fixed + DATA_SIZE
    requires msg.len - fixed + SpecialCount(msg.data[..msg.len - fixed]) <= DATA_SIZE
    requires msg.subId == canfd ==> offset < 2 * (msg.len - fixed)
    modifies msg`len, msg.data
    ensures r == 0 && msg.len == old(msg.len) + SpecialCount(old(msg.data[..msg.len - fixed])) <= fixed + DATA_SIZE
    ensures msg.data[..msg.len - fixed] == Sent(old(msg.data[..msg.len - fixed]), msg.subId == canfd, offset)
    ensures msg.data[msg.len - fixed..] == old(msg.data[..])[msg.len - fixed..]
  {
    hide Escaped;
    var len := msg.len - fixed;
    var buf := new byte[2 * len](_ => 0);
    var k, escapeCharNum := EscapeInto(msg.data, len, buf);
    if msg.subId == canfd {
      buf[offset] := (buf[offset] + escapeCharNum) % 256;
    }
    forall i | 0 <= i < k {
      msg.data[i] := buf[i];
    }
    assert msg.data[..k] == buf[..k];
    msg.len := msg.len + escapeCharNum;
    return 0;
  }
}
