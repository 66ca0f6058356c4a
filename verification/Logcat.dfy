/** The log client's line buffer: `logcat_parse_log` over its array, byte by byte. */
module Logcat {
  import opened Common
  import opened Pipe
  import opened LogcatLines

  const CACHED_LOG_SIZE := 256 * 1024

  class Client {
    const cachedLog: array<byte>
    var cachedBytes: nat
    var level: Level
    var output: seq<Line>

    ghost predicate Valid()
      reads this, cachedLog
    {
      && cachedLog.Length == CACHED_LOG_SIZE && cachedBytes < CACHED_LOG_SIZE - 1
      && NulFree(cachedLog[..cachedBytes]) && NEWLINE !in cachedLog[..cachedBytes]
    }

    /** The unfinished line. */
    ghost function Rest(): Bytes
      requires Valid()
      reads this, cachedLog
    {
      cachedLog[..cachedBytes]
    }

    /** Everything put out so far, the level and the unfinished line. */
    ghost function State(): Result
      requires Valid()
      reads this, cachedLog
    {
      Result(output, level, Rest())
    }

    constructor ()
      ensures Valid() && Rest() == [] && level == LOG_LEVEL_INFO && output == []
      ensures fresh(cachedLog)
    {
      cachedLog := new byte[CACHED_LOG_SIZE];
      cachedBytes, level, output := 0, LOG_LEVEL_INFO, [];
    }

    /** `strchr(s, '\\n')`: the next newline before the terminator. */
    method FindNewline(s: nat, ghost text: Bytes) returns (found: bool, nl: nat)
      requires s + |text| < cachedLog.Length && cachedLog[s..s + |text|] == text && cachedLog[s + |text|] == 0
      requires NulFree(text)
      ensures found <==> LineEnd(text) < |text|
      ensures nl == s + LineEnd(text)
    {
      nl := s;
      while cachedLog[nl] != NEWLINE && cachedLog[nl] != 0
        invariant s <= nl <= s + |text|
        invariant LineEnd(text) == nl - s + LineEnd(text[nl - s..])
        decreases s + |text| - nl
      {
        assert cachedLog[nl] == cachedLog[s..s + |text|][nl - s] == text[nl - s];
        assert text[nl - s..][1..] == text[nl - s + 1..];
        nl := nl + 1;
      }
      assert nl < s + |text| ==> cachedLog[nl] == cachedLog[s..s + |text|][nl - s] == text[nl - s];
      found := cachedLog[nl] == NEWLINE;
    }

    /** Where the C string at index s ends. */
    method StringEnd(s: nat, ghost text: Bytes) returns (e: nat)
      requires s + |text| < cachedLog.Length && cachedLog[s..s + |text|] == text && cachedLog[s + |text|] == 0
      requires NulFree(text)
      ensures e == s + |text|
    {
      forall k | s <= k < s + |text| ensures cachedLog[k] != 0 {
        assert cachedLog[k] == cachedLog[s..s + |text|][k - s] && text[k - s] in text;
      }
      e := s;
      while cachedLog[e] != 0
        invariant s <= e <= s + |text|
        decreases s + |text| - e
      {
        e := e + 1;
      }
    }

    /** `get_loglevel_from_prefix` on the C string at index s. It finds the prefix of the line except
        that a truncated one is completed by a `>` behind the terminator. */
    method LevelFromPrefix(s: nat, ghost line: Bytes) returns (next: nat, lvl: Level)
      requires s + |line| + 1 < cachedLog.Length && cachedLog[s..s + |line|] == line && cachedLog[s + |line|] == 0
      requires NulFree(line)
      ensures next == s + PrefixLength(line) <==> !(Truncated(line) && cachedLog[s + 3] == GREATER)
      ensures next != s + PrefixLength(line) ==> next == s + 4 && lvl == LOG_LEVEL_DEBUG
      ensures next == s + PrefixLength(line) ==> lvl == Parsed(line, level).level
    {
      ghost var text := cachedLog[s..s + |line|];
      assert |line| > 0 ==> cachedLog[s] == text[0] == line[0] && line[0] in line;
      assert |line| > 1 ==> cachedLog[s + 1] == text[1] == line[1] && line[1] in line;
      assert |line| > 2 ==> cachedLog[s + 2] == text[2] == line[2] && line[2] in line;
      assert |line| > 3 ==> cachedLog[s + 3] == text[3] == line[3] && line[3] in line;
      lvl := level;
      if cachedLog[s] != LESS {
        return s, lvl;
      }
      var c := cachedLog[s + 1];
      if c !in {73, 88, 69, 87, 86, 68, 83} {
        return s, lvl;
      }
      var name := NameAt(c, cachedLog[s + 2]);
      if cachedLog[s + 1 + name.length] != GREATER {
        return s, lvl;
      }
      return s + 2 + name.length, name.level;
    }

    /** Put out what the C string behind the prefix holds, once the newline is a terminator. */
    method PutOut(s: nat, nl: nat, n: nat, ghost text: Bytes)
      requires s <= nl < n < cachedLog.Length && |text| == n - s && nl == s + LineEnd(text) && NulFree(text)
      requires cachedLog[s..nl] == text[..LineEnd(text)] && cachedLog[nl] == 0
      requires cachedLog[nl + 1..n] == text[LineEnd(text) + 1..] && cachedLog[n] == 0
      modifies this`output, this`level
      ensures output == old(output) + [LineOut(text, old(level))]
      ensures level == LineOut(text, old(level)).level
    {
      hide Parsed, PrefixLength, Truncated, LineEnd, NulFree;
      ghost var k, line, tail := LineEnd(text), text[..LineEnd(text)], text[LineEnd(text) + 1..];
      NulFreePart(text, 0, k);
      var next, lvl := LevelFromPrefix(s, line);
      ParsedText(line, level);
      assert Truncated(line) ==> |line| == 2 && PrefixLength(line) == 0 by {
        if Truncated(line) {
          TruncatedLength(line);
        }
      }
      assert tail != [] ==> cachedLog[nl + 1] == tail[0];
      ghost var shown := LineOut(text, level).text;
      if Misread(text) {
        assert text[k + 2..] == tail[1..] == cachedLog[nl + 1..n][1..] == cachedLog[next..n];
        NulFreePart(text, k + 2, |text|);
      } else {
        assert shown == line[PrefixLength(line)..] == cachedLog[s..nl][PrefixLength(line)..] == cachedLog[next..nl];
        NulFreePart(line, PrefixLength(line), k);
      }
      var e := StringEnd(next, shown);
      output := output + [Line(lvl, cachedLog[next..e])];
      level := lvl;
    }

    /** Cut one line off at its newline and put it out. */
    method EmitLine(s: nat, nl: nat, n: nat, ghost text: Bytes)
      requires s <= nl < n < cachedLog.Length && text == cachedLog[s..n] && nl == s + LineEnd(text)
      requires NulFree(text) && cachedLog[n] == 0
      modifies this`output, this`level, cachedLog
      ensures output == old(output) + [LineOut(text, old(level))]
      ensures level == LineOut(text, old(level)).level
      ensures cachedLog[nl + 1..n] == text[LineEnd(text) + 1..] && cachedLog[n] == 0
    {
      hide LineOut, LineEnd, NulFree;
      ghost var k := LineEnd(text);
      assert cachedLog[s..n][..k] == cachedLog[s..nl] && cachedLog[s..n][k + 1..] == cachedLog[nl + 1..n];
      cachedLog[nl] := 0;
      assert cachedLog[s..nl] == text[..k] && cachedLog[nl + 1..n] == text[k + 1..];
      PutOut(s, nl, n, text);
    }

    /** The scanning loop: the buffer holds `all` and a terminator; every complete line goes out. */
    method EmitLines(n: nat, ghost all: Bytes) returns (s: nat)
      requires n == |all| < cachedLog.Length && cachedLog[..n] == all && cachedLog[n] == 0
      requires NulFree(all)
      modifies this`output, this`level, cachedLog
      ensures s <= n && cachedLog[s..n] == Scanned(all, old(level)).rest
      ensures output == old(output) + Scanned(all, old(level)).lines && level == Scanned(all, old(level)).level
    {
      hide Scanned, LineOut;
      s := 0;
      ghost var text := all;
      ghost var lines := [];
      var found, nl := FindNewline(s, text);
      while found
        invariant s <= n && text == cachedLog[s..n] && cachedLog[n] == 0 && NulFree(text)
        invariant (found <==> LineEnd(text) < |text|) && nl == s + LineEnd(text)
        invariant output == old(output) + lines
        invariant var r := Scanned(text, level); Scanned(all, old(level)) == Result(lines + r.lines, r.level, r.rest)
        decreases n - s
      {
        ScannedStep(text, level);
        lines := lines + [LineOut(text, level)];
        EmitLine(s, nl, n, text);
        text := text[LineEnd(text) + 1..];
        s := nl + 1;
        found, nl := FindNewline(s, text);
      }
      ScannedUnfinished(text, level);
    }

    /** The chunk goes behind the unfinished line, as far as there is room. */
    method TakeIn(buf: Bytes, ghost all: Bytes)
      requires Valid() && NulFree(buf) && all == Rest() + RoomFor(buf, cachedBytes)
      modifies this`cachedBytes, cachedLog
      ensures cachedLog.Length == CACHED_LOG_SIZE && cachedBytes == |all| < CACHED_LOG_SIZE
      ensures cachedLog[..cachedBytes] == all && cachedLog[cachedBytes] == 0 && NulFree(all)
    {
      var bytes := |buf|;
      if bytes + cachedBytes >= CACHED_LOG_SIZE - 1 {
        bytes := CACHED_LOG_SIZE - cachedBytes - 1;
      }
      CopyIn(cachedLog, cachedBytes, buf[..bytes]);
      cachedBytes := cachedBytes + bytes;
      cachedLog[cachedBytes] := 0;
      assert cachedLog[..cachedBytes] == all;
    }

    /** `logcat_parse_log`: a chunk from the service. */
    method ParseLog(buf: Bytes)
      requires Valid() && NulFree(buf)
      modifies this`output, this`level, this`cachedBytes, cachedLog
      ensures Valid() && State() == Absorbed(old(State()), buf)
    {
      hide Scanned, NulFree;
      ghost var was := State();
      if |buf| == 0 {
        AbsorbedNothing(was);
        return;
      }
      ghost var all := was.rest + RoomFor(buf, cachedBytes);
      TakeIn(buf, all);
      RestHasNoNewline(all, level);
      RestNulFree(all, level);
      var s := EmitLines(cachedBytes, all);
      CopyIn(cachedLog, 0, cachedLog[s..cachedBytes]);
      cachedBytes := cachedBytes - s;
      assert cachedLog[..cachedBytes] == Scanned(all, was.level).rest;
      if cachedBytes >= CACHED_LOG_SIZE - 1 {
        cachedBytes := 0;
        NothingNulFree();
      }
    }

    /** The receive loop's treatment of one buffer: a NUL is read as `<nul>`, or else it would hide
        what follows. */
    method ReceiveBuffer(buf: Bytes)
      requires Valid()
      modifies this`output, this`level, this`cachedBytes, cachedLog
      ensures Valid() && State() == AbsorbedAll(old(State()), Pieces(buf))
    {
      hide Absorbed, NulFree;
      ghost var was, rest := State(), buf;
      var pos := 0;
      while pos < |buf|
        invariant 0 <= pos <= |buf| && rest == buf[pos..]
        invariant Valid() && AbsorbedAll(State(), Pieces(rest)) == AbsorbedAll(was, Pieces(buf))
      {
        var t := NulAt(buf[pos..]);
        assert rest[..t] == buf[pos..pos + t];
        AbsorbedPieces(State(), rest);
        if t > 0 {
          ParseLog(buf[pos..pos + t]);
        }
        if pos + t < |buf| {
          NulTextIsNulFree();
          ParseLog(NUL_TEXT);
          t := t + 1;
        }
        rest := if t <= |rest| then rest[t..] else [];
        pos := pos + t;
      }
    }

    /** The receive loop: buffers of any sizes. */
    method Receive(bufs: seq<Bytes>)
      requires Valid()
      modifies this`output, this`level, this`cachedBytes, cachedLog
      ensures Valid() && State() == AbsorbedAll(old(State()), AllPieces(bufs))
      ensures FitsAll(old(State()), AllPieces(bufs)) && Readable(old(Rest()) + ShownAll(bufs)) ==>
        var r := Emitted(old(Rest()) + ShownAll(bufs), old(level));
        output == old(output) + r.lines && level == r.level && Rest() == r.rest
    {
      hide Absorbed, Pieces, Readable, Emitted, FitsAll, ShownAll;
      ghost var was, rest := State(), bufs;
      for k := 0 to |bufs|
        invariant rest == bufs[k..]
        invariant Valid() && AbsorbedAll(State(), AllPieces(rest)) == AbsorbedAll(was, AllPieces(bufs))
      {
        AbsorbedConcat(State(), Pieces(rest[0]), AllPieces(rest[1..]));
        ReceiveBuffer(bufs[k]);
        rest := rest[1..];
      }
      if FitsAll(was, AllPieces(bufs)) && Readable(was.rest + ShownAll(bufs)) {
        FittingReadable(was, bufs);
      }
    }
  }

  // ---------- what a chunk does to the client ----------

  /** The part of a chunk that the buffer has room for. */
  function RoomFor(chunk: Bytes, cachedBytes: nat): Bytes
    requires cachedBytes < CACHED_LOG_SIZE - 1
  {
    chunk[..Min(|chunk|, CACHED_LOG_SIZE - 1 - cachedBytes)]
  }

  /** A client takes a chunk: what does not fit is cut off, and too long an unfinished line is dropped. */
  function Absorbed(x: Result, chunk: Bytes): (r: Result)
    requires |x.rest| < CACHED_LOG_SIZE - 1
    ensures |r.rest| < CACHED_LOG_SIZE - 1
  {
    var y := Stepped(x, RoomFor(chunk, |x.rest|));
    if |y.rest| >= CACHED_LOG_SIZE - 1 then y.(rest := []) else y
  }

  function AbsorbedAll(x: Result, chunks: seq<Bytes>): (r: Result)
    requires |x.rest| < CACHED_LOG_SIZE - 1
    ensures |r.rest| < CACHED_LOG_SIZE - 1
    decreases |chunks|
  {
    if chunks == [] then x else AbsorbedAll(Absorbed(x, chunks[0]), chunks[1..])
  }

  /** No chunk is cut off and no unfinished line is dropped. */
  predicate FitsAll(x: Result, chunks: seq<Bytes>)
    decreases |chunks|
  {
    || chunks == []
    || (|x.rest| + |chunks[0]| < CACHED_LOG_SIZE && |Stepped(x, chunks[0]).rest| < CACHED_LOG_SIZE - 1
        && FitsAll(Stepped(x, chunks[0]), chunks[1..]))
  }

  lemma AbsorbedNothing(x: Result)
    requires |x.rest| < CACHED_LOG_SIZE - 1 && NEWLINE !in x.rest
    ensures Absorbed(x, []) == x
  {
    assert x.rest + [] == x.rest;
    NoNewline(x.rest);
    ScannedUnfinished(x.rest, x.level);
  }

  lemma {:induction false} AbsorbedConcat(x: Result, a: seq<Bytes>, b: seq<Bytes>)
    requires |x.rest| < CACHED_LOG_SIZE - 1
    ensures AbsorbedAll(x, a + b) == AbsorbedAll(AbsorbedAll(x, a), b)
    decreases |a|
  {
    hide Absorbed;
    if a == [] {
      assert a + b == b;
    } else {
      assert (a + b)[1..] == a[1..] + b;
      AbsorbedConcat(Absorbed(x, a[0]), a[1..], b);
    }
  }

  /** A client with room for everything only steps. */
  lemma {:induction false} FittingSteps(x: Result, chunks: seq<Bytes>)
    requires |x.rest| < CACHED_LOG_SIZE - 1 && FitsAll(x, chunks)
    ensures AbsorbedAll(x, chunks) == FedFrom(x, chunks)
    decreases |chunks|
  {
    hide Stepped;
    if chunks != [] {
      assert RoomFor(chunks[0], |x.rest|) == chunks[0];
      FittingSteps(Stepped(x, chunks[0]), chunks[1..]);
    }
  }

  // ---------- NULs ----------

  const NUL_TEXT: Bytes := [60, 110, 117, 108, 62]

  /** The stream as the client reads it: `<nul>` for every NUL. */
  function Shown(s: Bytes): Bytes {
    if s == [] then [] else (if s[0] == 0 then NUL_TEXT else [s[0]]) + Shown(s[1..])
  }

  /** Where the first NUL is, or the length. */
  function NulAt(s: Bytes): (t: nat)
    ensures t <= |s| && NulFree(s[..t]) && (t < |s| ==> s[t] == 0)
  {
    if s == [] || s[0] == 0 then 0
    else
      var t := 1 + NulAt(s[1..]);
      assert s[..t] == [s[0]] + s[1..][..t - 1];
      t
  }

  /** The chunks that one receive buffer is taken in. */
  function Pieces(buf: Bytes): seq<Bytes>
    decreases |buf|
  {
    var t := NulAt(buf);
    (if t > 0 then [buf[..t]] else []) + if t < |buf| then [NUL_TEXT] + Pieces(buf[t + 1..]) else []
  }

  function AllPieces(bufs: seq<Bytes>): seq<Bytes> {
    if bufs == [] then [] else Pieces(bufs[0]) + AllPieces(bufs[1..])
  }

  function ShownAll(bufs: seq<Bytes>): Bytes {
    if bufs == [] then [] else Shown(bufs[0]) + ShownAll(bufs[1..])
  }

  /** Taking the pieces of a buffer one by one. */
  lemma AbsorbedPieces(x: Result, buf: Bytes)
    requires |x.rest| < CACHED_LOG_SIZE - 1 && buf != []
    ensures var t := NulAt(buf);
            var y := if t > 0 then Absorbed(x, buf[..t]) else x;
            var z := if t < |buf| then Absorbed(y, NUL_TEXT) else y;
      AbsorbedAll(x, Pieces(buf)) == AbsorbedAll(z, Pieces(if t < |buf| then buf[t + 1..] else []))
  {
    hide Absorbed;
    var t := NulAt(buf);
    var tail := if t < |buf| then [NUL_TEXT] + Pieces(buf[t + 1..]) else [];
    if t < |buf| {
      assert tail[1..] == Pieces(buf[t + 1..]);
    }
    if t > 0 {
      assert ([buf[..t]] + tail)[1..] == tail;
    } else {
      assert [] + tail == tail;
    }
  }

  lemma {:induction false} ShownUpTo(s: Bytes, t: nat)
    requires t <= |s| && NulFree(s[..t])
    ensures Shown(s) == s[..t] + Shown(s[t..])
    decreases t
  {
    if t == 0 {
      assert s[0..] == s;
    } else {
      assert s[0] == s[..t][0] && s[1..][..t - 1] == s[..t][1..] && s[1..][t - 1..] == s[t..];
      ShownUpTo(s[1..], t - 1);
      assert s[..t] == [s[0]] + s[1..][..t - 1];
    }
  }

  lemma {:induction false} ConcatMore(a: seq<Bytes>, b: seq<Bytes>)
    ensures Concat(a + b) == Concat(a) + Concat(b)
  {
    if a == [] {
      assert a + b == b;
    } else {
      assert (a + b)[1..] == a[1..] + b;
      ConcatMore(a[1..], b);
    }
  }

  lemma {:induction false} PiecesShown(buf: Bytes)
    ensures Concat(Pieces(buf)) == Shown(buf)
    decreases |buf|
  {
    hide Concat, NulFree;
    var t := NulAt(buf);
    var first := if t > 0 then [buf[..t]] else [];
    var tail := if t < |buf| then [NUL_TEXT] + Pieces(buf[t + 1..]) else [];
    ShownUpTo(buf, t);
    ConcatMore(first, tail);
    OneOrNone(buf[..t]);
    if t < |buf| {
      ConcatMore([NUL_TEXT], Pieces(buf[t + 1..]));
      OneOrNone(NUL_TEXT);
      PiecesShown(buf[t + 1..]);
      assert buf[t..][1..] == buf[t + 1..];
    } else {
      assert buf[t..] == [];
    }
  }

  lemma OneOrNone(s: Bytes)
    ensures Concat([s]) == s && Concat([]) == []
  {
  }

  lemma {:induction false} AllPiecesShown(bufs: seq<Bytes>)
    ensures Concat(AllPieces(bufs)) == ShownAll(bufs)
  {
    hide Concat, Pieces, Shown;
    if bufs == [] {
      OneOrNone([]);
    } else {
      ConcatMore(Pieces(bufs[0]), AllPieces(bufs[1..]));
      PiecesShown(bufs[0]);
      AllPiecesShown(bufs[1..]);
    }
  }

  /** With room for everything and no misread line, the whole stream is read line by line. */
  lemma FittingReadable(x: Result, bufs: seq<Bytes>)
    requires |x.rest| < CACHED_LOG_SIZE - 1 && NEWLINE !in x.rest
    requires FitsAll(x, AllPieces(bufs)) && Readable(x.rest + ShownAll(bufs))
    ensures var r := Emitted(x.rest + ShownAll(bufs), x.level);
      AbsorbedAll(x, AllPieces(bufs)) == Result(x.lines + r.lines, r.level, r.rest)
  {
    hide FedFrom, Emitted, Readable, FitsAll;
    FittingSteps(x, AllPieces(bufs));
    AllPiecesShown(bufs);
    FedReadable(x, AllPieces(bufs));
  }

  lemma NothingNulFree()
    ensures NulFree([])
  {
  }

  lemma NulTextIsNulFree()
    ensures NulFree(NUL_TEXT)
  {
  }

  lemma NulFreePart(s: Bytes, i: nat, j: nat)
    requires NulFree(s) && i <= j <= |s|
    ensures NulFree(s[i..j]) && (i == 0 ==> NulFree(s[..j])) && (j == |s| ==> NulFree(s[i..]))
  {
  }

  lemma ParsedText(line: Bytes, level: Level)
    ensures PrefixLength(line) <= |line| && Parsed(line, level).text == line[PrefixLength(line)..]
  {
  }

  lemma TruncatedLength(line: Bytes)
    requires Truncated(line)
    ensures |line| == 2 && PrefixLength(line) == 0
  {
  }

  /** The unfinished line consists of bytes of the stream. */
  lemma {:induction false} RestNulFree(s: Bytes, level: Level)
    requires NulFree(s)
    ensures NulFree(Scanned(s, level).rest)
    decreases |s|
  {
    hide LineOut;
    var i := LineEnd(s);
    if i < |s| {
      RestNulFree(s[i + 1..], LineOut(s, level).level);
    }
  }
}
