/** What the log client makes of a byte stream: levels taken from line prefixes, lines put out one
    by one, and exactly when it does not matter how the stream was cut into chunks. */
module LogcatLines {
  import opened Common
  import opened Pipe

  type Level = bv32

  const LOG_LEVEL_EMERG: Level := 0x001
  const LOG_LEVEL_ERR: Level := 0x002
  const LOG_LEVEL_WARN: Level := 0x004
  const LOG_LEVEL_INFO: Level := 0x008
  const LOG_LEVEL_VERBOSE: Level := 0x010
  const LOG_LEVEL_DEBUG: Level := 0x020
  const LOG_LEVEL_DEBUG_V1: Level := 0x040
  const LOG_LEVEL_DEBUG_V2: Level := 0x080
  const LOG_LEVEL_DEBUG_VV: Level := 0x100
  const LOG_LEVEL_DEVICE: Level := 0x200
  const LOG_LEVEL_SYSTEM: Level := 0x400

  const LESS: byte := 60
  const GREATER: byte := 62

  /** One call of `do_log_common`. */
  datatype Line = Line(level: Level, text: Bytes)

  // ---------- prefixes ----------

  /** A level and how many bytes name it; no bytes means no prefix. */
  datatype Name = Name(level: Level, length: nat)

  /** The names that `get_loglevel_from_prefix` knows, by the two bytes after `<`. */
  function NameAt(c: byte, d: byte): Name {
    match c
    case 73 => Name(LOG_LEVEL_INFO, 1)
    case 88 => Name(LOG_LEVEL_EMERG, 1)
    case 69 => Name(LOG_LEVEL_ERR, 1)
    case 87 => Name(LOG_LEVEL_WARN, 1)
    case 86 => Name(LOG_LEVEL_VERBOSE, 1)
    case 68 =>
      if d == GREATER then Name(LOG_LEVEL_DEBUG, 1)
      else if d == 49 then Name(LOG_LEVEL_DEBUG_V1, 2)
      else if d == 50 then Name(LOG_LEVEL_DEBUG_V2, 2)
      else if d == 86 then Name(LOG_LEVEL_DEBUG_VV, 2)
      else Name(LOG_LEVEL_DEBUG, 2)
    case 83 =>
      if d == GREATER then Name(LOG_LEVEL_DEBUG, 1)
      else if d == 68 then Name(LOG_LEVEL_DEVICE, 2)
      else if d == 83 then Name(LOG_LEVEL_SYSTEM, 2)
      else Name(LOG_LEVEL_DEBUG, 2)
    case _ => Name(0, 0)
  }

  /** The byte of the C string at index i; the terminator behind the end. */
  function At(line: Bytes, i: nat): byte {
    if i < |line| then line[i] else 0
  }

  /** How many bytes the prefix of the line takes, 0 if there is none. */
  function PrefixLength(line: Bytes): nat {
    var name := NameAt(At(line, 1), At(line, 2));
    if At(line, 0) == LESS && name.length > 0 && At(line, name.length + 1) == GREATER then name.length + 2 else 0
  }

  lemma PrefixInside(line: Bytes)
    ensures PrefixLength(line) <= |line|
  {
  }

  /** The line as it is put out, at its own level or at the level so far. */
  function Parsed(line: Bytes, level: Level): Line {
    PrefixInside(line);
    var n := PrefixLength(line);
    if n == 0 then Line(level, line) else Line(NameAt(At(line, 1), At(line, 2)).level, line[n..])
  }

  /** On these two lines the prefix parser looks behind the end of the line. */
  predicate Truncated(line: Bytes) {
    line == [LESS, 68] || line == [LESS, 83]
  }

  // ---------- streams ----------

  function LineEnd(s: Bytes): (i: nat)
    ensures i <= |s| && NEWLINE !in s[..i] && (i < |s| ==> s[i] == NEWLINE)
  {
    if s == [] || s[0] == NEWLINE then 0
    else
      var i := 1 + LineEnd(s[1..]);
      assert s[..i] == [s[0]] + s[1..][..i - 1];
      i
  }

  /** What is put out, the level it leaves behind, and the unfinished line at the end. */
  datatype Result = Result(lines: seq<Line>, level: Level, rest: Bytes)

  /** The lines of a stream, each read on its own. */
  function Emitted(s: Bytes, level: Level): Result
    decreases |s|
  {
    var i := LineEnd(s);
    if i == |s| then Result([], level, s)
    else
      var line := Parsed(s[..i], level);
      var r := Emitted(s[i + 1..], line.level);
      Result([line] + r.lines, r.level, r.rest)
  }

  /** The first line of the buffer is one of the two, and the next one begins with `>`. */
  predicate Misread(s: Bytes) {
    var i := LineEnd(s);
    i + 1 < |s| && Truncated(s[..i]) && s[i + 1] == GREATER
  }

  /** What the client puts out for the first line of its buffer. A misread line takes the `>` of the
      next one for its own, and then the whole rest of the buffer for its text. */
  function LineOut(s: Bytes, level: Level): Line
    requires LineEnd(s) < |s|
  {
    if Misread(s) then Line(LOG_LEVEL_DEBUG, s[LineEnd(s) + 2..]) else Parsed(s[..LineEnd(s)], level)
  }

  /** What the client puts out for its buffer. */
  function Scanned(s: Bytes, level: Level): Result
    decreases |s|
  {
    var i := LineEnd(s);
    if i == |s| then Result([], level, s)
    else
      var line := LineOut(s, level);
      var r := Scanned(s[i + 1..], line.level);
      Result([line] + r.lines, r.level, r.rest)
  }

  /** No line of the stream is misread. */
  predicate Readable(s: Bytes)
    decreases |s|
  {
    var i := LineEnd(s);
    i == |s| || (!Misread(s) && Readable(s[i + 1..]))
  }

  lemma {:induction false} ReadableScanned(s: Bytes, level: Level)
    requires Readable(s)
    ensures Scanned(s, level) == Emitted(s, level)
    decreases |s|
  {
    hide Parsed, Misread;
    var i := LineEnd(s);
    if i < |s| {
      ReadableScanned(s[i + 1..], LineOut(s, level).level);
    }
  }

  lemma {:induction false} LineEndConcat(a: Bytes, b: Bytes)
    ensures LineEnd(a) < |a| ==> LineEnd(a + b) == LineEnd(a)
    ensures LineEnd(a) == |a| ==> LineEnd(a + b) == |a| + LineEnd(b)
  {
    if a == [] {
      assert a + b == b;
    } else if a[0] != NEWLINE {
      assert (a + b)[1..] == a[1..] + b;
      LineEndConcat(a[1..], b);
    }
  }

  lemma EmittedStep(s: Bytes, level: Level)
    requires LineEnd(s) < |s|
    ensures var i := LineEnd(s);
            var line := Parsed(s[..i], level);
            var r := Emitted(s[i + 1..], line.level);
      Emitted(s, level) == Result([line] + r.lines, r.level, r.rest)
  {
  }

  lemma EmittedUnfinished(s: Bytes, level: Level)
    requires LineEnd(s) == |s|
    ensures Emitted(s, level) == Result([], level, s)
  {
  }

  /** Emitting a stream piecewise: the unfinished line waits for the next piece. */
  lemma {:induction false} EmittedConcat(a: Bytes, b: Bytes, level: Level)
    ensures var x := Emitted(a, level);
            var y := Emitted(x.rest + b, x.level);
            Emitted(a + b, level) == Result(x.lines + y.lines, y.level, y.rest)
    decreases |a|
  {
    hide Parsed, Emitted;
    var i := LineEnd(a);
    LineEndConcat(a, b);
    if i == |a| {
      EmittedUnfinished(a, level);
      var y := Emitted(a + b, level);
      assert [] + y.lines == y.lines;
    } else {
      var line := Parsed(a[..i], level);
      assert (a + b)[..i] == a[..i] && (a + b)[i + 1..] == a[i + 1..] + b;
      EmittedStep(a, level);
      EmittedStep(a + b, level);
      EmittedConcat(a[i + 1..], b, line.level);
      var x := Emitted(a[i + 1..], line.level);
      var y := Emitted(x.rest + b, x.level);
      assert [line] + (x.lines + y.lines) == [line] + x.lines + y.lines;
    }
  }

  // ---------- chunks ----------

  function Concat(chunks: seq<Bytes>): Bytes {
    if chunks == [] then [] else chunks[0] + Concat(chunks[1..])
  }

  /** A client with these lines put out, this level and this unfinished line takes one more chunk. */
  function Stepped(x: Result, chunk: Bytes): Result {
    var y := Scanned(x.rest + chunk, x.level);
    Result(x.lines + y.lines, y.level, y.rest)
  }

  /** It takes all of them, as long as its buffer holds every unfinished line. */
  function FedFrom(x: Result, chunks: seq<Bytes>): Result
    decreases |chunks|
  {
    if chunks == [] then x else FedFrom(Stepped(x, chunks[0]), chunks[1..])
  }

  function Fed(chunks: seq<Bytes>, level: Level): Result {
    FedFrom(Result([], level, []), chunks)
  }

  lemma {:induction false} RestHasNoNewline(s: Bytes, level: Level)
    ensures NEWLINE !in Emitted(s, level).rest && NEWLINE !in Scanned(s, level).rest
    decreases |s|
  {
    hide Parsed, LineOut;
    var i := LineEnd(s);
    if i < |s| {
      RestHasNoNewline(s[i + 1..], Parsed(s[..i], level).level);
      RestHasNoNewline(s[i + 1..], LineOut(s, level).level);
    } else {
      assert s[..i] == s;
    }
  }

  lemma {:induction false} NoNewline(s: Bytes)
    requires NEWLINE !in s
    ensures LineEnd(s) == |s|
  {
    if s != [] {
      NoNewline(s[1..]);
    }
  }

  /** However a readable stream is cut, the client puts out its lines, each read on its own. */
  lemma {:induction false} FedReadable(x: Result, chunks: seq<Bytes>)
    requires NEWLINE !in x.rest && Readable(x.rest + Concat(chunks))
    ensures var r := Emitted(x.rest + Concat(chunks), x.level);
      FedFrom(x, chunks) == Result(x.lines + r.lines, r.level, r.rest)
    decreases |chunks|
  {
    hide Emitted, Scanned, Readable, LineEnd;
    if chunks == [] {
      NoNewline(x.rest);
      EmittedUnfinished(x.rest, x.level);
      assert x.rest + [] == x.rest;
    } else {
      var a, tail := x.rest + chunks[0], Concat(chunks[1..]);
      assert x.rest + Concat(chunks) == a + tail;
      ReadableConcat(a, tail, x.level);
      ReadableScanned(a, x.level);
      RestHasNoNewline(a, x.level);
      EmittedConcat(a, tail, x.level);
      FedReadable(Stepped(x, chunks[0]), chunks[1..]);
    }
  }

  lemma ChunkingIsInvisible(chunks: seq<Bytes>, level: Level)
    requires Readable(Concat(chunks))
    ensures Fed(chunks, level) == Emitted(Concat(chunks), level)
  {
    hide Emitted, Readable;
    assert [] + Concat(chunks) == Concat(chunks);
    FedReadable(Result([], level, []), chunks);
  }

  lemma EmittedNothing(level: Level)
    ensures Emitted([], level) == Result([], level, [])
  {
  }

  /** Every way of cutting the stream gives the same as not cutting it. */
  ghost predicate CutInvariant(s: Bytes, level: Level) {
    forall chunks :: Concat(chunks) == s ==> Fed(chunks, level) == Fed([s], level)
  }

  /** The cut does not matter if and only if no line of the stream is misread. */
  lemma CutInvariantExactly(s: Bytes, level: Level)
    ensures CutInvariant(s, level) <==> Readable(s)
  {
    hide Fed, Concat, Readable;
    if Readable(s) {
      OneChunk(s, level);
      forall chunks | Concat(chunks) == s ensures Fed(chunks, level) == Fed([s], level) {
        ChunkingIsInvisible(chunks, level);
        ChunkingIsInvisible([s], level);
      }
    } else {
      var a, b := TwoCuts(s, level);
      assert Fed(a, level) != Fed(b, level);
    }
  }

  lemma TwoCuts(s: Bytes, level: Level) returns (a: seq<Bytes>, b: seq<Bytes>)
    requires !Readable(s)
    ensures Concat(a) == Concat(b) == s && Fed(a, level) != Fed(b, level)
  {
    hide Fed, Concat, Readable, Scanned;
    var p := CutsDiffer(s, level);
    a, b := [s[..p], s[p..]], [s[..p + 1], s[p + 1..]];
    TwoChunks(s[..p], s[p..], level);
    TwoChunks(s[..p + 1], s[p + 1..], level);
    assert s[..p] + s[p..] == s == s[..p + 1] + s[p + 1..];
    var n := |Scanned(s[..p], level).lines|;
    assert Fed(a, level).lines[..n] != Fed(b, level).lines[..n];
  }

  lemma OneChunk(s: Bytes, level: Level)
    ensures Concat([s]) == s && Fed([s], level) == Scanned(s, level)
  {
    hide Scanned;
    assert [] + s == s && s + [] == s;
    var none: seq<Bytes> := [];
    assert [s][1..] == none;
    FedNothing(Stepped(Result([], level, []), s));
    assert [] + Scanned(s, level).lines == Scanned(s, level).lines;
  }

  lemma FedNothing(x: Result)
    ensures FedFrom(x, []) == x
  {
  }

  lemma TwoChunks(a: Bytes, b: Bytes, level: Level)
    ensures Concat([a, b]) == a + b
    ensures var x := Scanned(a, level); Fed([a, b], level) == Stepped(x, b) && x.lines <= Fed([a, b], level).lines
  {
    hide Scanned;
    assert [a, b][1..] == [b] && b + [] == b && [] + a == a;
    var x := Scanned(a, level);
    assert [] + x.lines == x.lines;
    var none: seq<Bytes> := [];
    assert [b][1..] == none;
    FedNothing(Stepped(x, b));
    assert FedFrom(x, [b]) == Stepped(x, b);
    assert Stepped(Result([], level, []), a) == x;
    assert FedFrom(Result([], level, []), [a, b]) == FedFrom(x, [b]);
    assert Concat([a, b]) == a + Concat([b]) && Concat([b]) == b + Concat(none);
  }

  ghost predicate Differ(s: Bytes, p: nat, level: Level)
    requires p < |s|
  {
    Unequal(Scanned(s[..p], level).lines, Scanned(s[..p + 1], level).lines)
  }

  predicate Unequal(x: seq<Line>, y: seq<Line>) {
    |x| == |y| && x != y
  }

  /** Cutting a stream before or behind the `>` gives different lines. */
  lemma {:induction false} CutsDiffer(s: Bytes, level: Level) returns (p: nat)
    requires !Readable(s)
    ensures p < |s| && Differ(s, p, level)
    decreases |s|
  {
    hide Parsed, Scanned, Misread, Differ;
    var i := LineEnd(s);
    if Misread(s) {
      p := i + 1;
      MisreadInside(s);
      CutAtGreater(s, level);
    } else {
      var line, tail := Parsed(s[..i], level), s[i + 1..];
      var q := CutsDiffer(tail, line.level);
      p := i + 1 + q;
      CutFurther(s, q, level);
    }
  }

  lemma CutFurther(s: Bytes, q: nat, level: Level)
    requires LineEnd(s) + 1 + q < |s| && !Misread(s)
    requires Differ(s[LineEnd(s) + 1..], q, Parsed(s[..LineEnd(s)], level).level)
    ensures Differ(s, LineEnd(s) + 1 + q, level)
  {
    hide Parsed, Scanned, LineEnd, Misread, Unequal;
    var line, tail := Parsed(s[..LineEnd(s)], level), s[LineEnd(s) + 1..];
    OneMore(line, Scanned(tail[..q], line.level).lines, Scanned(tail[..q + 1], line.level).lines);
    assert Scanned(s[..LineEnd(s) + 1 + q], level).lines == [line] + Scanned(tail[..q], line.level).lines by {
      CutBehind(s, q, level);
    }
    assert Scanned(s[..LineEnd(s) + 1 + q + 1], level).lines == [line] + Scanned(tail[..q + 1], line.level).lines by {
      CutBehind(s, q + 1, level);
    }
  }

  lemma OneMore(line: Line, x: seq<Line>, y: seq<Line>)
    requires Unequal(x, y)
    ensures Unequal([line] + x, [line] + y)
  {
    assert ([line] + x)[1..] == x && ([line] + y)[1..] == y;
  }

  lemma MisreadInside(s: Bytes)
    requires Misread(s)
    ensures LineEnd(s) + 1 < |s|
  {
  }

  lemma CutAtGreater(s: Bytes, level: Level)
    requires Misread(s)
    ensures Differ(s, LineEnd(s) + 1, level)
  {
    hide Parsed, Scanned, LineEnd;
    var i, line := LineEnd(s), s[..LineEnd(s)];
    FirstLine(s, i + 1);
    FirstLine(s, i + 2);
    var a, b := s[..i + 1], s[..i + 2];
    ScannedStep(a, level);
    ScannedStep(b, level);
    assert LineOut(a, level) == Parsed(line, level) by {
      assert a[..i] == line;
    }
    assert LineOut(b, level) == Line(LOG_LEVEL_DEBUG, []) by {
      assert b[..i] == line && b[i + 2..] == [];
    }
    assert a[i + 1..] == [] && b[i + 1..] == [GREATER];
    ScannedPlain([], Parsed(line, level).level);
    ScannedPlain([GREATER], LOG_LEVEL_DEBUG);
    TruncatedText(line, level);
    assert Scanned(a, level).lines == [Parsed(line, level)];
    assert Scanned(b, level).lines == [Line(LOG_LEVEL_DEBUG, [])];
    assert Scanned(a, level).lines[0].text != Scanned(b, level).lines[0].text;
  }

  lemma ScannedPlain(s: Bytes, level: Level)
    requires s == [] || s == [GREATER]
    ensures Scanned(s, level) == Result([], level, s)
  {
  }

  lemma CutBehind(s: Bytes, q: nat, level: Level)
    requires LineEnd(s) + 1 + q <= |s| && !Misread(s)
    ensures var line := Parsed(s[..LineEnd(s)], level);
      Scanned(s[..LineEnd(s) + 1 + q], level).lines == [line] + Scanned(s[LineEnd(s) + 1..][..q], line.level).lines
  {
    hide Parsed, Scanned;
    var i, p := LineEnd(s), LineEnd(s) + 1 + q;
    FirstLine(s, p);
    ScannedStep(s[..p], level);
    assert s[..p][..i] == s[..i] && s[..p][i + 1..] == s[i + 1..][..q];
    assert LineOut(s[..p], level) == Parsed(s[..i], level);
  }

  lemma FirstLine(s: Bytes, p: nat)
    requires LineEnd(s) < p <= |s|
    ensures LineEnd(s[..p]) == LineEnd(s)
  {
    assert s[..p] + s[p..] == s;
    LineEndConcat(s[..p], s[p..]);
    assert s[LineEnd(s)] == s[..p][LineEnd(s)] && s[..p][..|s[..p]|] == s[..p];
  }

  lemma TruncatedText(line: Bytes, level: Level)
    requires Truncated(line)
    ensures Parsed(line, level) == Line(level, line) && line != []
  {
  }

  lemma ScannedStep(s: Bytes, level: Level)
    requires LineEnd(s) < |s|
    ensures var line := LineOut(s, level);
            var r := Scanned(s[LineEnd(s) + 1..], line.level);
      Scanned(s, level) == Result([line] + r.lines, r.level, r.rest)
  {
  }

  lemma ScannedUnfinished(s: Bytes, level: Level)
    requires LineEnd(s) == |s|
    ensures Scanned(s, level) == Result([], level, s)
  {
  }

  lemma ThirdIsNewline(c: byte, d: byte, rest: Bytes)
    requires c != NEWLINE && d != NEWLINE
    ensures LineEnd([c, d, NEWLINE] + rest) == 2
    ensures ([c, d, NEWLINE] + rest)[..2] == [c, d] && ([c, d, NEWLINE] + rest)[3..] == rest
  {
    LineEndIs([c, d]);
    assert [c, d, NEWLINE] == [c, d] + [NEWLINE];
    LineEndConcat([c, d, NEWLINE], rest);
  }

  lemma PlainLineOut(c: byte, d: byte, rest: Bytes, level: Level)
    requires [c, d] == [GREATER, 120] || ([c, d] == [LESS, 68] && rest == [])
    ensures var r := Scanned(rest, level);
      Scanned([c, d, NEWLINE] + rest, level) == Result([Line(level, [c, d])] + r.lines, r.level, r.rest)
  {
    hide Parsed, Scanned, LineEnd;
    ThirdIsNewline(c, d, rest);
    PlainLine([c, d], level);
    ScannedStep([c, d, NEWLINE] + rest, level);
  }

  lemma SecondLine(level: Level)
    ensures Scanned([GREATER, 120, NEWLINE], level) == Result([Line(level, [GREATER, 120])], level, [])
  {
    hide Parsed, Scanned, LineEnd;
    ScannedPlain([], level);
    PlainLineOut(GREATER, 120, [], level);
    assert [GREATER, 120, NEWLINE] + [] == [GREATER, 120, NEWLINE];
  }

  lemma SampleUncut(level: Level)
    ensures Scanned([LESS, 68, NEWLINE] + [GREATER, 120, NEWLINE], level).lines
         == [Line(LOG_LEVEL_DEBUG, [120, NEWLINE]), Line(LOG_LEVEL_DEBUG, [GREATER, 120])]
  {
    hide Parsed, Scanned, LineEnd;
    var s := [LESS, 68, NEWLINE] + [GREATER, 120, NEWLINE];
    ThirdIsNewline(LESS, 68, [GREATER, 120, NEWLINE]);
    ScannedStep(s, level);
    assert s[4..] == [120, NEWLINE];
    SecondLine(LOG_LEVEL_DEBUG);
  }

  /** A log call whose text contains newlines is enough: `<D`, newline, `>x`, newline. */
  lemma MisreadSample(level: Level)
    ensures var (a, b) := ([LESS, 68, NEWLINE], [GREATER, 120, NEWLINE]);
      && Fed([a + b], level).lines == [Line(LOG_LEVEL_DEBUG, [120, NEWLINE]), Line(LOG_LEVEL_DEBUG, [GREATER, 120])]
      && Fed([a, b], level).lines == [Line(level, [LESS, 68]), Line(level, [GREATER, 120])]
  {
    hide Parsed, Scanned, LineEnd;
    var a, b := [LESS, 68, NEWLINE], [GREATER, 120, NEWLINE];
    OneChunk(a + b, level);
    SampleUncut(level);
    TwoChunks(a, b, level);
    ScannedPlain([], level);
    PlainLineOut(LESS, 68, [], level);
    SecondLine(level);
    assert a + [] == a && [] + b == b;
  }

  lemma PlainLine(line: Bytes, level: Level)
    requires line == [LESS, 68] || line == [GREATER, 120]
    ensures Parsed(line, level) == Line(level, line)
  {
  }

  // ---------- records ----------

  /** `log_get_extra_prefix`. */
  function ExtraPrefix(level: Level): Bytes {
    if level & LOG_LEVEL_EMERG != 0 then [88]
    else if level & LOG_LEVEL_ERR != 0 then [69]
    else if level & LOG_LEVEL_WARN != 0 then [87]
    else if level & LOG_LEVEL_INFO != 0 then [73]
    else if level & LOG_LEVEL_VERBOSE != 0 then [86]
    else if level & LOG_LEVEL_DEBUG != 0 then [68]
    else if level & LOG_LEVEL_DEBUG_V1 != 0 then [68, 49]
    else if level & LOG_LEVEL_DEBUG_V2 != 0 then [68, 50]
    else if level & LOG_LEVEL_DEBUG_VV != 0 then [68, 86]
    else if level & LOG_LEVEL_DEVICE != 0 then [83, 68]
    else if level & LOG_LEVEL_SYSTEM != 0 then [83, 83]
    else [73]
  }

  function Ascii(c: char): byte {
    if c < 128 as char then c as int else 0
  }

  /** The prefix of each flag by its letters, and of none. */
  lemma PrefixLetters()
    ensures ExtraPrefix(0x001) == [Ascii('X')] && ExtraPrefix(0x002) == [Ascii('E')]
    ensures ExtraPrefix(0x004) == [Ascii('W')] && ExtraPrefix(0x008) == [Ascii('I')]
    ensures ExtraPrefix(0x010) == [Ascii('V')] && ExtraPrefix(0x020) == [Ascii('D')]
    ensures ExtraPrefix(0x040) == [Ascii('D'), Ascii('1')] && ExtraPrefix(0x080) == [Ascii('D'), Ascii('2')]
    ensures ExtraPrefix(0x100) == [Ascii('D'), Ascii('V')] && ExtraPrefix(0x200) == [Ascii('S'), Ascii('D')]
    ensures ExtraPrefix(0x400) == [Ascii('S'), Ascii('S')] && ExtraPrefix(0) == [Ascii('I')]
  {
  }

  /** The level flag b is the lowest of the eleven that is set. */
  predicate LowestFlag(level: Level, b: Level) {
    && b in {LOG_LEVEL_EMERG, LOG_LEVEL_ERR, LOG_LEVEL_WARN, LOG_LEVEL_INFO, LOG_LEVEL_VERBOSE, LOG_LEVEL_DEBUG,
             LOG_LEVEL_DEBUG_V1, LOG_LEVEL_DEBUG_V2, LOG_LEVEL_DEBUG_VV, LOG_LEVEL_DEVICE, LOG_LEVEL_SYSTEM}
    && level & b != 0 && level & (b - 1) == 0
  }

  /** The bytes of one record: `<prefix>`, text, newline. */
  function Record(level: Level, text: Bytes): Bytes {
    [LESS] + ExtraPrefix(level) + [GREATER] + text + [NEWLINE]
  }

  /** The level that the prefix of a record names. */
  function RecordLevel(level: Level): Level {
    var p := ExtraPrefix(level);
    NameAt(p[0], if |p| == 2 then p[1] else GREATER).level
  }

  lemma ExtraPrefixNamed(level: Level)
    ensures var p := ExtraPrefix(level);
      1 <= |p| <= 2 && NEWLINE !in p && NameAt(p[0], if |p| == 2 then p[1] else GREATER).length == |p|
  {
  }

  /** It is the lowest level flag that is set, or INFO when none is. */
  lemma RecordLevelIsLowest(level: Level)
    ensures LowestFlag(level, RecordLevel(level)) || (level & 0x7FF == 0 && RecordLevel(level) == LOG_LEVEL_INFO)
  {
  }

  lemma OneLineComesBack(level: Level, text: Bytes, before: Level)
    requires NEWLINE !in text
    ensures Emitted(Record(level, text), before)
         == Result([Line(RecordLevel(level), text)], RecordLevel(level), [])
  {
    hide ExtraPrefix;
    var p := ExtraPrefix(level);
    ExtraPrefixNamed(level);
    var line := [LESS] + p + [GREATER] + text;
    assert At(line, 0) == LESS && At(line, 1) == p[0] && At(line, 2) == if |p| == 2 then p[1] else GREATER;
    assert At(line, |p| + 1) == GREATER;
    assert Parsed(line, before) == Line(RecordLevel(level), text);
    hide Parsed, NameAt;
    LineEndIs(line);
    assert Record(level, text) == line + [NEWLINE];
    assert (line + [NEWLINE])[..|line|] == line && (line + [NEWLINE])[|line| + 1..] == [];
    EmittedStep(line + [NEWLINE], before);
    EmittedNothing(RecordLevel(level));
  }

  /** A stream puts out a line for each of its newlines. */
  lemma {:induction false} LinesCounted(s: Bytes, level: Level)
    ensures |Emitted(s, level).lines| == |Scanned(s, level).lines| == multiset(s)[NEWLINE]
    decreases |s|
  {
    hide Parsed, LineOut;
    var i := LineEnd(s);
    if i == |s| {
      assert s[..i] == s;
    } else {
      assert s == s[..i] + [NEWLINE] + s[i + 1..];
      LinesCounted(s[i + 1..], Parsed(s[..i], level).level);
      LinesCounted(s[i + 1..], LineOut(s, level).level);
    }
  }

  lemma {:induction false} FedCounted(x: Result, chunks: seq<Bytes>)
    requires NEWLINE !in x.rest
    ensures |FedFrom(x, chunks).lines| == |x.lines| + multiset(Concat(chunks))[NEWLINE]
    decreases |chunks|
  {
    hide Emitted, Scanned;
    if chunks != [] {
      LinesCounted(x.rest + chunks[0], x.level);
      RestHasNoNewline(x.rest + chunks[0], x.level);
      FedCounted(Stepped(x, chunks[0]), chunks[1..]);
    }
  }

  lemma RecordNewlines(level: Level, text: Bytes)
    ensures multiset(Record(level, text))[NEWLINE] == 1 + multiset(text)[NEWLINE]
  {
    hide ExtraPrefix;
    ExtraPrefixNamed(level);
  }

  /** A record comes back as its own text at its own level, whatever was put out before, if and only
      if the text has no newline. */
  lemma RecordComesBack(level: Level, text: Bytes, before: Level)
    ensures Emitted(Record(level, text), before) == Result([Line(RecordLevel(level), text)], RecordLevel(level), [])
       <==> NEWLINE !in text
  {
    hide Emitted, Record, RecordLevel;
    if NEWLINE in text {
      RecordNewlines(level, text);
      LinesCounted(Record(level, text), before);
    } else {
      OneLineComesBack(level, text, before);
    }
  }

  lemma {:induction false} LineEndIs(line: Bytes)
    requires NEWLINE !in line
    ensures LineEnd(line + [NEWLINE]) == |line|
  {
    if line != [] {
      assert (line + [NEWLINE])[1..] == line[1..] + [NEWLINE];
      LineEndIs(line[1..]);
    }
  }

  /** What was logged, and the bytes and lines it stands for. */
  datatype Entry = Entry(level: Level, text: Bytes)

  function Records(entries: seq<Entry>): Bytes {
    if entries == [] then [] else Record(entries[0].level, entries[0].text) + Records(entries[1..])
  }

  predicate OneLiners(entries: seq<Entry>) {
    forall e :: e in entries ==> NEWLINE !in e.text
  }

  function LinesOf(entries: seq<Entry>): seq<Line> {
    if entries == [] then []
    else [Line(RecordLevel(entries[0].level), entries[0].text)] + LinesOf(entries[1..])
  }

  lemma {:induction false} RecordsComeBack(entries: seq<Entry>, before: Level)
    requires OneLiners(entries)
    ensures Emitted(Records(entries), before).lines == LinesOf(entries)
    ensures Emitted(Records(entries), before).rest == []
    decreases |entries|
  {
    hide Emitted, Record, RecordLevel;
    if entries == [] {
      EmittedNothing(before);
    } else {
      var e, rest := entries[0], Records(entries[1..]);
      OneLineComesBack(e.level, e.text, before);
      EmittedConcat(Record(e.level, e.text), rest, before);
      assert [] + rest == rest;
      RecordsComeBack(entries[1..], RecordLevel(e.level));
    }
  }

  lemma {:induction false} RecordsCounted(entries: seq<Entry>)
    ensures |LinesOf(entries)| == |entries| <= multiset(Records(entries))[NEWLINE]
    ensures multiset(Records(entries))[NEWLINE] == |entries| <==> OneLiners(entries)
  {
    hide Record, RecordLevel;
    if entries != [] {
      var e := entries[0];
      RecordsCounted(entries[1..]);
      RecordNewlines(e.level, e.text);
      assert entries == [e] + entries[1..];
    }
  }

  /** However the stream of records reaches the client, it puts out exactly the entries logged, if and
      only if each is a line of its own. */
  lemma EntriesComeBack(entries: seq<Entry>, chunks: seq<Bytes>, level: Level)
    requires Concat(chunks) == Records(entries)
    ensures Fed(chunks, level).lines == LinesOf(entries) && Fed(chunks, level).rest == [] <==> OneLiners(entries)
  {
    hide Records, Readable, OneLiners;
    RecordsCounted(entries);
    FedCounted(Result([], level, []), chunks);
    if OneLiners(entries) {
      RecordsReadable(entries);
      ChunkingIsInvisible(chunks, level);
      RecordsComeBack(entries, level);
    }
  }

  // ---------- readable streams ----------

  lemma {:induction false} ReadableConcat(a: Bytes, b: Bytes, level: Level)
    requires Readable(a + b)
    ensures Readable(a) && Readable(Emitted(a, level).rest + b)
    decreases |a|
  {
    hide Parsed, Misread, LineEnd;
    var i := LineEnd(a);
    LineEndConcat(a, b);
    if i < |a| {
      assert (a + b)[i + 1..] == a[i + 1..] + b;
      if Misread(a) {
        MisreadConcat(a, b);
      }
      ReadableConcat(a[i + 1..], b, Parsed(a[..i], level).level);
    }
  }

  lemma MisreadConcat(a: Bytes, b: Bytes)
    requires Misread(a)
    ensures Misread(a + b)
  {
    LineEndConcat(a, b);
    assert (a + b)[..LineEnd(a)] == a[..LineEnd(a)];
  }

  /** Complete lines, and behind them something that does not begin with `>`. */
  lemma {:induction false} ReadableJoin(a: Bytes, b: Bytes)
    requires (a == [] || a[|a| - 1] == NEWLINE) && (b == [] || b[0] != GREATER)
    ensures Readable(a + b) <==> Readable(a) && Readable(b)
    decreases |a|
  {
    if a == [] {
      assert a + b == b;
    } else {
      var i := LineEnd(a);
      LineEndConcat(a, b);
      assert i < |a| by {
        assert a[|a| - 1] in a && a[..|a|] == a;
      }
      assert (a + b)[..i] == a[..i] && (a + b)[i + 1..] == a[i + 1..] + b;
      ReadableJoin(a[i + 1..], b);
    }
  }

  lemma OneLineReadable(level: Level, text: Bytes)
    requires NEWLINE !in text
    ensures Readable(Record(level, text))
  {
    hide ExtraPrefix;
    ExtraPrefixNamed(level);
    var line := [LESS] + ExtraPrefix(level) + [GREATER] + text;
    LineEndIs(line);
    assert Record(level, text) == line + [NEWLINE];
  }

  lemma RecordsStart(entries: seq<Entry>)
    ensures Records(entries) == [] || Records(entries)[0] == LESS
  {
  }

  /** A stream of records is readable if and only if each record is; and each of a single line is. */
  lemma {:induction false} RecordsReadable(entries: seq<Entry>)
    ensures Readable(Records(entries)) <==> forall e :: e in entries ==> Readable(Record(e.level, e.text))
    ensures OneLiners(entries) ==> Readable(Records(entries))
    decreases |entries|
  {
    hide Readable, ExtraPrefix;
    if entries == [] {
      NothingReadable();
    } else {
      var e, rest := entries[0], Records(entries[1..]);
      assert entries == [e] + entries[1..];
      RecordsReadable(entries[1..]);
      RecordsStart(entries[1..]);
      ReadableJoin(Record(e.level, e.text), rest);
      if NEWLINE !in e.text {
        OneLineReadable(e.level, e.text);
      }
    }
  }

  lemma NothingReadable()
    ensures Readable([])
  {
  }
}
