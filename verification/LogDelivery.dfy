/** From a log call to the line a client prints: the service's rings and the client's line buffer
    taken together. */
module LogDelivery {
  import opened Common
  import opened Pipe
  import opened LogFanout
  import opened LogcatLines
  import Logcat

  /** No line but the first begins with `>`. */
  predicate NoLineStartsGreater(s: Bytes) {
    forall k :: 0 <= k < |s| - 1 && s[k] == NEWLINE ==> s[k + 1] != GREATER
  }

  /** Empty, or complete lines only; when asked for, no line but the first begins with `>`. */
  predicate EndsLine(s: Bytes, clean: bool) {
    (s == [] || s[|s| - 1] == NEWLINE) && (clean ==> NoLineStartsGreater(s))
  }

  /** The injection that logs one entry. */
  function Logging(e: Entry): Step {
    BeginInject([LESS] + ExtraPrefix(e.level) + [GREATER], e.text + [NEWLINE])
  }

  /** The injections among the steps log these entries, in this order. */
  ghost predicate Logs(steps: seq<Step>, entries: seq<Entry>)
    decreases |steps|
  {
    if steps == [] then entries == []
    else if steps[0].BeginInject? then
      entries != [] && steps[0] == Logging(entries[0]) && Logs(steps[1..], entries[1..])
    else Logs(steps[1..], entries)
  }

  /** The client connected when the first k entries had been logged. */
  ghost predicate ConnectedAfter(s: State, log: seq<Entry>, i: nat, k: nat, clean: bool)
    requires IsUsed(s, i)
  {
    && k <= |log| && s.slots[i].client.from == |Records(log[..k])|
    && EndsLine(s.slots[i].client.snapshot, clean && OneLiners(log[..k]))
  }

  ghost predicate Connected(s: State, log: seq<Entry>, i: nat, clean: bool)
    requires IsUsed(s, i)
  {
    exists k :: ConnectedAfter(s, log, i, k, clean)
  }

  /** What has been injected are the records of the log; rings and snapshots hold complete lines, clean
      ones as long as only single lines have been logged. */
  ghost predicate Tidy(s: State, log: seq<Entry>, clean: bool) {
    && s.injected == Records(log)
    && EndsLine(s.master + Remaining(s.phase, 0), clean && OneLiners(log))
    && forall i :: IsUsed(s, i) ==> Connected(s, log, i, clean)
  }

  lemma {:induction false} RecordsConcat(a: seq<Entry>, b: seq<Entry>)
    ensures Records(a + b) == Records(a) + Records(b)
  {
    hide Record;
    if a == [] {
      assert a + b == b;
    } else {
      assert (a + b)[1..] == a[1..] + b;
      RecordsConcat(a[1..], b);
    }
  }

  lemma LinesEnd(s: Bytes, clean: bool)
    requires EndsLine(s, clean)
    ensures EndsLine(s, false)
  {
  }

  lemma EndEnds(s: Bytes, d: nat, clean: bool)
    requires EndsLine(s, clean) && d <= |s|
    ensures EndsLine(s[d..], clean)
  {
    forall k | clean && 0 <= k < |s[d..]| - 1 && s[d..][k] == NEWLINE ensures s[d..][k + 1] != GREATER {
      assert s[d..][k] == s[d + k] && s[d..][k + 1] == s[d + k + 1];
    }
  }

  lemma NewestEnds(a: Bytes, r: Bytes, n: nat, clean: bool)
    requires EndsLine(a + r, clean)
    ensures EndsLine(Newest(a, n) + r, clean)
  {
    hide Newest, EndsLine;
    NewestIsEnd(a, n);
    var d := |a| - |Newest(a, n)|;
    assert Newest(a, n) + r == (a + r)[d..];
    EndEnds(a + r, d, clean);
  }

  lemma NewestIsEnd(a: Bytes, n: nat)
    ensures |Newest(a, n)| <= |a| && Newest(a, n) == a[|a| - |Newest(a, n)|..]
  {
  }

  lemma LoggingInjectsRecord(e: Entry)
    ensures Logging(e).prefix + Logging(e).log == Record(e.level, e.text)
  {
    hide ExtraPrefix;
  }

  lemma StillConnected(s: State, t: State, log: seq<Entry>, more: seq<Entry>, i: nat, clean: bool)
    requires IsUsed(s, i) && IsUsed(t, i) && Connected(s, log, i, clean)
    requires t.slots[i].client.from == s.slots[i].client.from
    requires t.slots[i].client.snapshot == s.slots[i].client.snapshot
    ensures Connected(t, log + more, i, clean)
  {
    var k: nat :| ConnectedAfter(s, log, i, k, clean);
    assert (log + more)[..k] == log[..k];
    assert ConnectedAfter(t, log + more, i, k, clean);
  }

  /** A step keeps everything tidy; `more` is the entry it logs, if it is an injection. */
  lemma StepKeepsTidy(s: State, step: Step, log: seq<Entry>, more: seq<Entry>, clean: bool)
    requires |s.slots| == LOGCAT_CLIENTS_NR && PhaseOk(s) && Enabled(s, step) && Tidy(s, log, clean)
    requires if step.BeginInject? then |more| == 1 && step == Logging(more[0]) else more == []
    ensures Tidy(Next(s, step), log + more, clean)
  {
    hide Records, Connected, Logging, Remaining, EndsLine, OneLiners;
    assert log + [] == log;
    forall i | IsUsed(Next(s, step), i) ensures Connected(Next(s, step), log + more, i, clean) {
      StepKeepsConnected(s, step, log, more, i, clean);
    }
    match step
    case BeginInject(_, _) =>
      assert more == [more[0]];
      BeginKeepsTidy(s, log, more[0], clean);
    case WriteNext => WriteKeepsLines(s, clean && OneLiners(log));
    case _ => StepKeepsLines(s, step, clean && OneLiners(log));
  }

  lemma StepKeepsConnected(s: State, step: Step, log: seq<Entry>, more: seq<Entry>, i: nat, clean: bool)
    requires |s.slots| == LOGCAT_CLIENTS_NR && Enabled(s, step) && Tidy(s, log, clean) && IsUsed(Next(s, step), i)
    ensures Connected(Next(s, step), log + more, i, clean)
  {
    hide Records;
    var t := Next(s, step);
    if step.Connect? && HasFree(s.slots) && i == FirstFree(s.slots) {
      assert (log + more)[..|log|] == log && s.master + [] == s.master;
      assert ConnectedAfter(t, log + more, i, |log|, clean);
    } else {
      StillConnected(s, t, log, more, i, clean);
    }
  }

  lemma BeginKeepsTidy(s: State, log: seq<Entry>, e: Entry, clean: bool)
    requires |s.slots| == LOGCAT_CLIENTS_NR && Enabled(s, Logging(e)) && s.injected == Records(log)
    requires EndsLine(s.master + Remaining(s.phase, 0), clean && OneLiners(log))
    ensures var t := Next(s, Logging(e));
      && t.injected == Records(log + [e])
      && EndsLine(t.master + Remaining(t.phase, 0), clean && OneLiners(log + [e]))
  {
    hide Records, Record, EndsLine;
    var t, prefix, text := Next(s, Logging(e)), Logging(e).prefix, Logging(e).log;
    RecordsConcat(log, [e]);
    OneRecord(e);
    LoggingInjectsRecord(e);
    assert Remaining(t.phase, 0) == prefix + text && s.master + [] == s.master;
    if OneLiners(log + [e]) {
      OneMoreLiner(log, e);
    } else {
      LinesEnd(s.master, clean && OneLiners(log));
    }
    RecordEnds(s.master, e, clean && OneLiners(log + [e]));
  }

  lemma OneMoreLiner(log: seq<Entry>, e: Entry)
    requires OneLiners(log + [e])
    ensures OneLiners(log) && NEWLINE !in e.text
  {
    assert e in log + [e] && forall f :: f in log ==> f in log + [e];
  }

  /** A record behind complete lines leaves complete lines. */
  lemma RecordEnds(a: Bytes, e: Entry, clean: bool)
    requires EndsLine(a, clean) && (clean ==> NEWLINE !in e.text)
    ensures EndsLine(a + Record(e.level, e.text), clean)
  {
    hide ExtraPrefix;
    ExtraPrefixNamed(e.level);
    var r := Record(e.level, e.text);
    var line := [LESS] + ExtraPrefix(e.level) + [GREATER] + e.text;
    assert r == line + [NEWLINE] && (clean ==> NEWLINE !in line);
    forall k | 0 <= k < |a + r| - 1 ensures (a + r)[k] == if k < |a| then a[k] else line[k - |a|] {
    }
    assert (a + r)[|a|] == LESS;
  }

  lemma WriteKeepsLines(s: State, clean: bool)
    requires PhaseOk(s) && s.phase.Injecting? && EndsLine(s.master + Remaining(s.phase, 0), clean)
    ensures EndsLine(Written(s).master + Remaining(Written(s).phase, 0), clean)
  {
    hide Remaining, Newest, EndsLine;
    RemainingAfterWrite(s, 0);
    var rest := Remaining(Written(s).phase, 0);
    assert s.master + (Chunk(s.phase) + rest) == s.master + Chunk(s.phase) + rest;
    if s.phase.done < 2 {
      NewestEnds(s.master + Chunk(s.phase), rest, s.size, clean);
    }
  }

  lemma StepKeepsLines(s: State, step: Step, clean: bool)
    requires |s.slots| == LOGCAT_CLIENTS_NR && Enabled(s, step) && !step.BeginInject? && !step.WriteNext?
    requires EndsLine(s.master + Remaining(s.phase, 0), clean)
    ensures EndsLine(Next(s, step).master + Remaining(Next(s, step).phase, 0), clean)
    ensures Next(s, step).injected == s.injected
  {
    hide EndsLine;
    if step.ReadMaster? {
      assert s.master + [] == s.master && s.master[step.n..] + [] == s.master[step.n..];
      EndEnds(s.master, step.n, clean);
    }
  }

  lemma OneRecord(e: Entry)
    ensures Records([e]) == Record(e.level, e.text)
  {
    assert [e][1..] == [];
    assert Record(e.level, e.text) + [] == Record(e.level, e.text);
  }

  lemma {:induction false} RunKeepsTidy(s: State, steps: seq<Step>, t: State, log: seq<Entry>, entries: seq<Entry>,
                                        clean: bool)
    requires Inv(s) && Tidy(s, log, clean) && Run(s, steps, t) && Logs(steps, entries)
    ensures Tidy(t, log + entries, clean)
    decreases |steps|
  {
    hide Tidy, Next, Enabled;
    if steps == [] {
      assert log + entries == log;
    } else {
      var more := if steps[0].BeginInject? then [entries[0]] else [];
      var rest := if steps[0].BeginInject? then entries[1..] else entries;
      StepKeepsInv(s, steps[0]);
      StepKeepsTidy(s, steps[0], log, more, clean);
      RunKeepsTidy(Next(s, steps[0]), steps[1..], t, log + more, rest, clean);
      assert log + more + rest == log + entries;
    }
  }

  /** A client that has read everything and lost nothing has its snapshot and then the records of every
      entry logged since it connected. The snapshot is readable at least when no line of the early log
      begins with `>` and only single lines had been logged before. */
  lemma EveryRecordDelivered(size: nat, early: Bytes, steps: seq<Step>, t: State, entries: seq<Entry>, i: nat)
    returns (k: nat)
    requires Run(Start(size, early), steps, t) && Logs(steps, entries) && EndsLine(early, false)
    requires t.phase.Idle? && IsUsed(t, i)
    requires t.slots[i].client.lost == [] && t.slots[i].client.pending == []
    ensures k <= |entries| && t.slots[i].client.from == |Records(entries[..k])|
    ensures var c := t.slots[i].client; c.got == c.snapshot + Records(entries[k..]) && EndsLine(c.snapshot, false)
    ensures NoLineStartsGreater(early) && OneLiners(entries[..k]) ==> Readable(t.slots[i].client.snapshot)
  {
    hide Records, Record, Merge, Run, Logs, Tidy, HoldsEnd, Newest, Readable, NoLineStartsGreater, OneLiners;
    var c, clean := t.slots[i].client, NoLineStartsGreater(early);
    StartIsTidy(size, early, clean);
    RunKeepsTidy(Start(size, early), steps, t, [], entries, clean);
    assert [] + entries == entries;
    AfterAnyRun(size, early, steps, t, i);
    k := ConnectedAt(t, entries, i, clean);
    AllDelivered(t, c, entries, k);
    if clean && OneLiners(entries[..k]) {
      CleanReadable(c.snapshot);
    }
  }

  /** Behind a readable snapshot such a client puts out the snapshot's lines and then each of those
      entries at its own level, however its reads cut the bytes, if and only if they are single lines. */
  lemma EveryEntryArrives(size: nat, early: Bytes, steps: seq<Step>, t: State, entries: seq<Entry>, i: nat,
                          chunks: seq<Bytes>, level: Level)
    returns (k: nat)
    requires Run(Start(size, early), steps, t) && Logs(steps, entries) && EndsLine(early, false)
    requires t.phase.Idle? && IsUsed(t, i)
    requires t.slots[i].client.lost == [] && t.slots[i].client.pending == [] && Concat(chunks) == t.slots[i].client.got
    ensures k <= |entries| && t.slots[i].client.from == |Records(entries[..k])|
    ensures NoLineStartsGreater(early) && OneLiners(entries[..k]) ==> Readable(t.slots[i].client.snapshot)
    ensures Readable(t.slots[i].client.snapshot) ==>
      (Arrived(Fed(chunks, level), t.slots[i].client.snapshot, entries[k..], level) <==> OneLiners(entries[k..]))
  {
    hide Records, Run, Logs, Concat, Fed, Readable, NoLineStartsGreater, OneLiners, Arrived;
    k := EveryRecordDelivered(size, early, steps, t, entries, i);
    if Readable(t.slots[i].client.snapshot) {
      SnapshotThenRecords(t.slots[i].client.snapshot, entries[k..], chunks, level);
    }
  }

  /** The lines of the snapshot and of the entries, and nothing unfinished. */
  predicate Arrived(r: Result, snapshot: Bytes, entries: seq<Entry>, level: Level) {
    r.lines == Emitted(snapshot, level).lines + LinesOf(entries) && r.rest == []
  }

  /** Lines put out before stay in front. */
  lemma {:induction false} FedBehind(before: seq<Line>, x: Result, chunks: seq<Bytes>)
    ensures var r := FedFrom(x, chunks);
      FedFrom(Result(before + x.lines, x.level, x.rest), chunks) == Result(before + r.lines, r.level, r.rest)
    decreases |chunks|
  {
    hide Scanned;
    if chunks != [] {
      var y := Stepped(x, chunks[0]);
      FedBehind(before, y, chunks[1..]);
      var more := Scanned(x.rest + chunks[0], x.level).lines;
      assert before + x.lines + more == before + (x.lines + more);
    }
  }

  /** The whole way: a fresh log client that receives these bytes, in buffers of any sizes that fit,
      prints exactly that. */
  method PrintDelivered(client: Logcat.Client, bufs: seq<Bytes>, ghost size: nat, ghost early: Bytes,
                        ghost steps: seq<Step>, ghost t: State, ghost entries: seq<Entry>, ghost i: nat)
    returns (ghost k: nat)
    requires client.Valid() && client.Rest() == []
    requires Logcat.FitsAll(client.State(), Logcat.AllPieces(bufs))
    requires Run(Start(size, early), steps, t) && Logs(steps, entries) && EndsLine(early, false)
    requires t.phase.Idle? && IsUsed(t, i)
    requires t.slots[i].client.lost == [] && t.slots[i].client.pending == []
    requires Concat(bufs) == t.slots[i].client.got && NulFree(Concat(bufs))
    modifies client`output, client`level, client`cachedBytes, client.cachedLog
    ensures client.Valid()
    ensures var r := Fed(Logcat.AllPieces(bufs), old(client.level));
      client.output == old(client.output) + r.lines && client.Rest() == r.rest
    ensures k <= |entries| && t.slots[i].client.from == |Records(entries[..k])|
    ensures NoLineStartsGreater(early) && OneLiners(entries[..k]) ==> Readable(t.slots[i].client.snapshot)
    ensures Readable(t.slots[i].client.snapshot) ==>
      var r := Fed(Logcat.AllPieces(bufs), old(client.level));
      (Arrived(r, t.slots[i].client.snapshot, entries[k..], old(client.level)) <==> OneLiners(entries[k..]))
  {
    hide Records, Run, Logs, Readable, NoLineStartsGreater, OneLiners, Arrived, Concat, FedFrom;
    hide Logcat.FitsAll, Logcat.AllPieces, Logcat.AbsorbedAll;
    ghost var pieces := Logcat.AllPieces(bufs);
    Logcat.AllPiecesShown(bufs);
    ShownAsIs(bufs);
    k := EveryEntryArrives(size, early, steps, t, entries, i, pieces, client.level);
    Logcat.FittingSteps(client.State(), pieces);
    FedBehind(client.output, Result([], client.level, []), pieces);
    assert client.output + [] == client.output;
    client.Receive(bufs);
  }

  lemma {:induction false} ShownAsIs(bufs: seq<Bytes>)
    requires NulFree(Concat(bufs))
    ensures Logcat.ShownAll(bufs) == Concat(bufs)
  {
    hide Logcat.Shown;
    if bufs != [] {
      var a, tail := bufs[0], Concat(bufs[1..]);
      Logcat.NulFreePart(a + tail, 0, |a|);
      Logcat.NulFreePart(a + tail, |a|, |a + tail|);
      assert (a + tail)[..|a|] == a && (a + tail)[|a|..] == tail;
      ShownNulFree(a);
      ShownAsIs(bufs[1..]);
    }
  }

  lemma ShownNulFree(a: Bytes)
    requires NulFree(a)
    ensures Logcat.Shown(a) == a
  {
    assert a[..|a|] == a && a[|a|..] == [];
    Logcat.ShownUpTo(a, |a|);
  }

  lemma StartIsTidy(size: nat, early: Bytes, clean: bool)
    requires EndsLine(early, clean)
    ensures Inv(Start(size, early)) && Tidy(Start(size, early), [], clean)
  {
    hide EndsLine, Newest;
    assert Newest(early, size) + [] == Newest(early, size) && early + [] == early;
    NewestEnds(early, [], size, clean);
    StartInv(size, early);
  }

  lemma StartInv(size: nat, early: Bytes)
    ensures Inv(Start(size, early))
  {
  }

  lemma ConnectedAt(t: State, entries: seq<Entry>, i: nat, clean: bool) returns (k: nat)
    requires Tidy(t, entries, clean) && IsUsed(t, i)
    ensures t.injected == Records(entries) && ConnectedAfter(t, entries, i, k, clean)
  {
    assert Connected(t, entries, i, clean);
    k :| ConnectedAfter(t, entries, i, k, clean);
  }

  /** Nothing lost and nothing pending: the bytes read are the snapshot and the records since. */
  lemma AllDelivered(t: State, c: Client, entries: seq<Entry>, k: nat)
    requires HoldsEnd(t, c) && c.lost == [] && c.pending == []
    requires t.injected == Records(entries) && k <= |entries| && c.from == |Records(entries[..k])|
    ensures c.got == c.snapshot + Records(entries[k..])
  {
    hide Records, Merge;
    RecordsConcat(entries[..k], entries[k..]);
    assert entries[..k] + entries[k..] == entries;
    assert t.injected[c.from..] == Records(entries[k..]);
    assert c.got + [] == c.got;
  }

  lemma SnapshotThenRecords(snapshot: Bytes, entries: seq<Entry>, chunks: seq<Bytes>, level: Level)
    requires EndsLine(snapshot, false) && Readable(snapshot) && Concat(chunks) == snapshot + Records(entries)
    ensures Arrived(Fed(chunks, level), snapshot, entries, level) <==> OneLiners(entries)
  {
    hide Emitted, Records, Readable, OneLiners, LinesOf, FedFrom, Concat;
    if OneLiners(entries) {
      var x := Emitted(snapshot, level);
      RecordsReadable(entries);
      RecordsStart(entries);
      ReadableJoin(snapshot, Records(entries));
      ChunkingIsInvisible(chunks, level);
      EmittedConcat(snapshot, Records(entries), level);
      NothingUnfinished(snapshot, level);
      assert [] + Records(entries) == Records(entries);
      RecordsComeBack(entries, x.level);
    } else {
      RecordsCounted(entries);
      LinesCounted(snapshot, level);
      FedCounted(Result([], level, []), chunks);
    }
  }

  lemma LastInside(s: Bytes, i: nat)
    requires EndsLine(s, false) && s != [] && i == LineEnd(s)
    ensures i < |s| && EndsLine(s[i + 1..], false)
  {
    assert i < |s| by {
      assert s[|s| - 1] in s && s[..|s|] == s;
    }
  }

  lemma {:induction false} CleanReadable(s: Bytes)
    requires EndsLine(s, true)
    ensures Readable(s)
    decreases |s|
  {
    var i := LineEnd(s);
    if i < |s| {
      var tail := s[i + 1..];
      assert forall k :: 0 <= k < |tail| ==> tail[k] == s[i + 1 + k];
      CleanReadable(tail);
    }
  }

  lemma {:induction false} NothingUnfinished(s: Bytes, level: Level)
    requires EndsLine(s, false)
    ensures Emitted(s, level).rest == []
    decreases |s|
  {
    hide Parsed;
    var i := LineEnd(s);
    if s != [] {
      LastInside(s, i);
      NothingUnfinished(s[i + 1..], Parsed(s[..i], level).level);
    }
  }
}
