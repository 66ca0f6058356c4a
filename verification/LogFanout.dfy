/** The logcat service as a transition system: one master ring, a cloned ring per client, and
    injections that write ring after ring while the clients keep reading. */
module LogFanout {
  import opened Common
  import opened Pipe

  const LOGCAT_CLIENTS_NR := 16

  /** A client's ring, with what it has delivered and lost so far. */
  datatype Client = Client(
    pending: Bytes,
    got: Bytes,
    lost: Bytes,
    snapshot: Bytes,
    since: Bytes,
    from: nat,
    untouched: bool)

  datatype Slot = Free | Used(client: Client)

  /** An injection performs two writes per ring; `done` counts them, the master's first. */
  datatype Phase = Idle | Injecting(prefix: Bytes, log: Bytes, done: nat)

  /** `injected` is everything ever handed to the service. */
  datatype State = State(size: nat, master: Bytes, slots: seq<Slot>, phase: Phase, injected: Bytes)

  datatype Step =
    | Connect
    | Disconnect(i: nat)
    | BeginInject(prefix: Bytes, log: Bytes)
    | WriteNext
    | Read(i: nat, n: nat)
    | ReadMaster(n: nat)

  const WRITES := 2 * (LOGCAT_CLIENTS_NR + 1)

  predicate IsUsed(s: State, i: nat) {
    i < |s.slots| && s.slots[i].Used?
  }

  predicate HasFree(slots: seq<Slot>) {
    Free in slots
  }

  /** The first free slot. */
  function FirstFree(slots: seq<Slot>): (i: nat)
    requires HasFree(slots)
    ensures i < |slots| && slots[i].Free? && forall j :: 0 <= j < i ==> slots[j].Used?
  {
    if slots[0].Free? then 0 else 1 + FirstFree(slots[1..])
  }

  /** Reads need only the ring's own mutex; everything else holds the service mutex, so an
      injection excludes it. */
  predicate Enabled(s: State, step: Step) {
    match step
    case Connect => s.phase.Idle?
    case Disconnect(i) => s.phase.Idle? && IsUsed(s, i)
    case BeginInject(prefix, log) => s.phase.Idle? && |prefix| <= s.size && |log| <= s.size
    case WriteNext => s.phase.Injecting?
    case Read(i, n) => IsUsed(s, i) && n <= |s.slots[i].client.pending|
    case ReadMaster(n) => s.phase.Idle? && n <= |s.master|
  }

  function Next(s: State, step: Step): State
    requires |s.slots| == LOGCAT_CLIENTS_NR && Enabled(s, step)
  {
    match step
    case Connect =>
      if !HasFree(s.slots) then s
      else s.(slots := s.slots[FirstFree(s.slots) := Used(Client(s.master, [], [], s.master, [], |s.injected|, true))])
    case Disconnect(i) => s.(slots := s.slots[i := Free])
    case BeginInject(prefix, log) => s.(phase := Injecting(prefix, log, 0), injected := s.injected + (prefix + log))
    case WriteNext => Written(s)
    case Read(i, n) => s.(slots := s.slots[i := Used(Delivered(s.slots[i].client, n))])
    case ReadMaster(n) =>
      s.(master := s.master[n..], slots := seq(|s.slots|, i requires 0 <= i < |s.slots| => Disturbed(s.slots[i])))
  }

  predicate StepTo(s: State, step: Step, t: State) {
    |s.slots| == LOGCAT_CLIENTS_NR && Enabled(s, step) && t == Next(s, step)
  }

  /** One `pipe_write` of an injection. */
  function Written(s: State): State
    requires s.phase.Injecting?
  {
    var k := s.phase.done;
    var data := Chunk(s.phase);
    var s := s.(phase := if k + 1 < WRITES then s.phase.(done := k + 1) else Idle);
    if k < 2 then s.(master := Newest(s.master + data, s.size))
    else if IsUsed(s, k / 2 - 1) then
      s.(slots := s.slots[k / 2 - 1 := Used(Received(s.slots[k / 2 - 1].client, data, s.size))])
    else s
  }

  /** A client's ring takes more data: the oldest unread bytes may go. */
  function Received(c: Client, data: Bytes, size: nat): Client {
    var all := c.pending + data;
    var kept := Newest(all, size);
    c.(pending := kept, lost := c.lost + all[..|all| - |kept|], since := c.since + data)
  }

  function Delivered(c: Client, n: nat): Client
    requires n <= |c.pending|
  {
    c.(pending := c.pending[n..], got := c.got + c.pending[..n], untouched := c.untouched && n == 0)
  }

  function Disturbed(slot: Slot): Slot {
    if slot.Free? then slot else Used(slot.client.(untouched := false))
  }

  // ---------- what every run keeps ----------

  /** What the running injection has yet to write to a ring; ring 0 is the master. */
  function Remaining(phase: Phase, ring: nat): Bytes {
    if phase.Idle? then []
    else (if phase.done <= 2 * ring then phase.prefix else [])
         + (if phase.done <= 2 * ring + 1 then phase.log else [])
  }

  /** s is made of the elements of a and of b, both in order. */
  predicate Merge(a: Bytes, b: Bytes, s: Bytes) {
    if s == [] then a == [] && b == []
    else
      || (a != [] && a[|a| - 1] == s[|s| - 1] && Merge(a[..|a| - 1], b, s[..|s| - 1]))
      || (b != [] && b[|b| - 1] == s[|s| - 1] && Merge(a, b[..|b| - 1], s[..|s| - 1]))
  }

  function Stream(c: Client): Bytes {
    c.snapshot + c.since
  }

  /** Everything that entered the ring was delivered, lost, or is pending: in this order. */
  predicate Accounted(c: Client, size: nat) {
    && |c.pending| <= size && |c.pending| <= |Stream(c)|
    && Stream(c)[|Stream(c)| - |c.pending|..] == c.pending
    && Merge(c.got, c.lost, Stream(c)[..|Stream(c)| - |c.pending|])
    && (c.untouched ==> c.got == [])
  }

  predicate ClientOk(c: Client, s: State, ring: nat) {
    && Accounted(c, s.size)
    && c.from <= |s.injected| && c.since + Remaining(s.phase, ring) == s.injected[c.from..]
    && (c.untouched ==>
          Newest(c.pending + Remaining(s.phase, ring), s.size) == Newest(s.master + Remaining(s.phase, 0), s.size))
  }

  predicate SlotOk(s: State, i: nat)
    requires i < |s.slots|
  {
    s.slots[i].Used? ==> ClientOk(s.slots[i].client, s, i + 1)
  }

  predicate PhaseOk(s: State) {
    s.phase.Injecting? ==>
      s.phase.done < WRITES && |s.phase.prefix| <= s.size && |s.phase.log| <= s.size
  }

  predicate Inv(s: State) {
    && |s.slots| == LOGCAT_CLIENTS_NR && |s.master| <= s.size && PhaseOk(s)
    && forall i :: 0 <= i < |s.slots| ==> SlotOk(s, i)
  }

  lemma {:induction false} MergeMore(a: Bytes, b: Bytes, s: Bytes, x: Bytes)
    requires Merge(a, b, s)
    ensures Merge(a + x, b, s + x) && Merge(a, b + x, s + x)
    decreases |x|
  {
    if x == [] {
      assert a + x == a && b + x == b && s + x == s;
    } else {
      var y, z := x[..|x| - 1], x[|x| - 1];
      MergeMore(a, b, s, y);
      assert (s + x)[..|s + x| - 1] == s + y;
      assert (a + x)[..|a + x| - 1] == a + y;
      assert (b + x)[..|b + x| - 1] == b + y;
    }
  }

  lemma NewestTwice(a: Bytes, b: Bytes, n: nat)
    ensures Newest(Newest(a, n) + b, n) == Newest(a + b, n)
  {
  }

  lemma ReceivedAccounted(c: Client, data: Bytes, size: nat)
    requires Accounted(c, size)
    ensures Accounted(Received(c, data, size), size)
  {
    hide Merge;
    var r, old', all := Received(c, data, size), Stream(c), c.pending + data;
    var k := |all| - |r.pending|;
    var gone := old'[..|old'| - |c.pending|];
    MergeMore(c.got, c.lost, gone, all[..k]);
    assert Stream(r) == gone + all;
    assert (gone + all)[..|gone| + k] == gone + all[..k];
  }

  lemma DeliveredAccounted(c: Client, n: nat, size: nat)
    requires Accounted(c, size) && n <= |c.pending|
    ensures Accounted(Delivered(c, n), size)
  {
    hide Merge;
    var gone := Stream(c)[..|Stream(c)| - |c.pending|];
    MergeMore(c.got, c.lost, gone, c.pending[..n]);
    assert Stream(c) == gone + c.pending;
    assert Stream(c)[..|gone| + n] == gone + c.pending[..n];
  }

  /** The data of the write that comes next. */
  function Chunk(phase: Phase): Bytes
    requires phase.Injecting?
  {
    if phase.done % 2 == 0 then phase.prefix else phase.log
  }

  lemma RemainingAfterWrite(s: State, ring: nat)
    requires s.phase.Injecting? && s.phase.done < WRITES && 2 * ring < WRITES
    ensures s.phase.done / 2 == ring ==> Remaining(s.phase, ring) == Chunk(s.phase) + Remaining(Written(s).phase, ring)
    ensures s.phase.done / 2 != ring ==> Remaining(s.phase, ring) == Remaining(Written(s).phase, ring)
  {
    hide Newest, Received;
  }

  /** Writing a chunk now or later leaves the same newest bytes. */
  lemma ChunkFirst(pending: Bytes, chunk: Bytes, rest: Bytes, size: nat)
    ensures Newest(Newest(pending + chunk, size) + rest, size) == Newest(pending + (chunk + rest), size)
  {
    NewestTwice(pending + chunk, rest, size);
    assert pending + chunk + rest == pending + (chunk + rest);
  }

  lemma WriteKeepsSlot(s: State, i: nat)
    requires Inv(s) && s.phase.Injecting? && i < |s.slots|
    ensures SlotOk(Written(s), i)
  {
    hide Merge, Stream, Newest, Remaining, Accounted, Chunk, Received;
    assert SlotOk(s, i);
    var t, chunk := Written(s), Chunk(s.phase);
    RemainingAfterWrite(s, 0);
    RemainingAfterWrite(s, i + 1);
    if s.slots[i].Used? {
      var c := s.slots[i].client;
      if s.phase.done / 2 == i + 1 {
        ReceivedAccounted(c, chunk, s.size);
        ReceivedFields(c, chunk, s.size);
        assert c.since + chunk + Remaining(t.phase, i + 1) == c.since + (chunk + Remaining(t.phase, i + 1));
        ChunkFirst(c.pending, chunk, Remaining(t.phase, i + 1), s.size);
      } else {
        ChunkFirst(s.master, chunk, Remaining(t.phase, 0), s.size);
      }
    }
  }

  lemma ReceivedFields(c: Client, data: Bytes, size: nat)
    ensures var r := Received(c, data, size);
      r.pending == Newest(c.pending + data, size) && r.since == c.since + data && r.got == c.got
      && r.snapshot == c.snapshot && r.from == c.from && r.untouched == c.untouched
  {
  }

  lemma BeginKeepsSlot(s: State, prefix: Bytes, log: Bytes, i: nat)
    requires Inv(s) && Enabled(s, BeginInject(prefix, log)) && i < |s.slots|
    ensures SlotOk(Next(s, BeginInject(prefix, log)), i)
  {
    hide Merge, Stream;
    assert SlotOk(s, i);
    if s.slots[i].Used? {
      var c, data := s.slots[i].client, prefix + log;
      assert c.since + [] == c.since && c.pending + [] == c.pending && s.master + [] == s.master;
      assert (s.injected + data)[c.from..] == s.injected[c.from..] + data;
    }
  }

  lemma ReadKeepsSlot(s: State, i: nat, n: nat)
    requires Inv(s) && Enabled(s, Read(i, n))
    ensures SlotOk(Next(s, Read(i, n)), i)
  {
    hide Merge, Stream, Newest;
    assert SlotOk(s, i);
    var c := s.slots[i].client;
    DeliveredAccounted(c, n, s.size);
    if n == 0 {
      assert c.pending[0..] == c.pending;
    }
  }

  lemma ConnectKeepsSlot(s: State)
    requires Inv(s) && s.phase.Idle? && HasFree(s.slots)
    ensures SlotOk(Next(s, Connect), FirstFree(s.slots))
  {
    var c := Client(s.master, [], [], s.master, [], |s.injected|, true);
    assert Stream(c) == s.master;
    assert s.master[..0] == [] && s.master[0..] == s.master && s.injected[|s.injected|..] == [];
  }

  /** Every step keeps the invariant. */
  lemma StepKeepsInv(s: State, step: Step)
    requires Inv(s) && Enabled(s, step)
    ensures Inv(Next(s, step)) && Next(s, step).size == s.size
  {
    hide ClientOk, Received, Delivered;
    var t := Next(s, step);
    forall i | 0 <= i < |t.slots| ensures SlotOk(t, i) {
      assert SlotOk(s, i);
      match step
      case Connect =>
        if HasFree(s.slots) && i == FirstFree(s.slots) {
          ConnectKeepsSlot(s);
        } else {
          SameView(s, t, i);
        }
      case Disconnect(j) => SameView(s, t, i);
      case BeginInject(prefix, log) => BeginKeepsSlot(s, prefix, log, i);
      case WriteNext => WriteKeepsSlot(s, i);
      case Read(j, n) =>
        if i == j {
          ReadKeepsSlot(s, i, n);
        } else {
          SameView(s, t, i);
        }
      case ReadMaster(n) => DisturbedSlot(s, n, i);
    }
  }

  lemma SameView(s: State, t: State, i: nat)
    requires i < |s.slots| == |t.slots| && SlotOk(s, i) && (t.slots[i] == s.slots[i] || t.slots[i].Free?)
    requires t == s.(slots := t.slots)
    ensures SlotOk(t, i)
  {
  }

  lemma DisturbedSlot(s: State, n: nat, i: nat)
    requires Inv(s) && Enabled(s, ReadMaster(n)) && i < |s.slots|
    ensures SlotOk(Next(s, ReadMaster(n)), i)
  {
    hide Merge;
    assert SlotOk(s, i);
  }

  // ---------- runs ----------

  ghost predicate Run(s: State, steps: seq<Step>, t: State)
    decreases |steps|
  {
    if steps == [] then s == t
    else |s.slots| == LOGCAT_CLIENTS_NR && Enabled(s, steps[0]) && Run(Next(s, steps[0]), steps[1..], t)
  }

  lemma {:induction false} RunKeepsInv(s: State, steps: seq<Step>, t: State)
    requires Inv(s) && Run(s, steps, t)
    ensures Inv(t) && t.size == s.size
    decreases |steps|
  {
    hide Inv, Enabled, Next;
    if steps != [] {
      StepKeepsInv(s, steps[0]);
      RunKeepsInv(Next(s, steps[0]), steps[1..], t);
    }
  }

  /** The service as it starts: early log in the master ring, no client. */
  function Start(size: nat, early: Bytes): State {
    State(size, Newest(early, size), seq(LOGCAT_CLIENTS_NR, _ => Free), Idle, [])
  }

  lemma {:induction false} NothingLost(a: Bytes, s: Bytes)
    requires Merge(a, [], s)
    ensures a == s
    decreases |s|
  {
    if s != [] {
      NothingLost(a[..|a| - 1], s[..|s| - 1]);
      assert a == a[..|a| - 1] + [a[|a| - 1]] && s == s[..|s| - 1] + [s[|s| - 1]];
    }
  }

  /** The unread bytes are the end of the snapshot and all that was injected since it was taken;
      the bytes read and the bytes lost make up the part before, in order. */
  ghost predicate HoldsEnd(t: State, c: Client) {
    && c.from <= |t.injected|
    && var stream := c.snapshot + t.injected[c.from..];
    && |c.pending| <= |stream| && stream[|stream| - |c.pending|..] == c.pending
    && Merge(c.got, c.lost, stream[..|stream| - |c.pending|])
    && (c.lost == [] ==> c.got + c.pending == stream)
  }

  /** Between injections of any run, every client's unread bytes are the end of its snapshot
      followed by all that was injected since; what it read and what it lost make up the rest, in
      order; nothing lost means everything was delivered. */
  lemma AfterAnyRun(size: nat, early: Bytes, steps: seq<Step>, t: State, i: nat)
    requires Run(Start(size, early), steps, t) && t.phase.Idle? && IsUsed(t, i)
    ensures HoldsEnd(t, t.slots[i].client)
    ensures t.slots[i].client.untouched ==> t.slots[i].client.pending == t.master
  {
    hide Merge;
    assert Inv(Start(size, early));
    RunKeepsInv(Start(size, early), steps, t);
    assert SlotOk(t, i);
    var c := t.slots[i].client;
    assert c.since + [] == c.since && c.pending + [] == c.pending && t.master + [] == t.master;
    if c.lost == [] {
      NothingLost(c.got, Stream(c)[..|Stream(c)| - |c.pending|]);
    }
  }

  ghost predicate MasterOk(s: State, early: Bytes) {
    && |s.slots| == LOGCAT_CLIENTS_NR && PhaseOk(s)
    && Newest(s.master + Remaining(s.phase, 0), s.size) == Newest(early + s.injected, s.size)
    && |s.master| <= s.size
  }

  ghost predicate MasterUnread(steps: seq<Step>) {
    forall k :: 0 <= k < |steps| ==> !steps[k].ReadMaster?
  }

  lemma StepKeepsMaster(s: State, step: Step, early: Bytes)
    requires MasterOk(s, early) && Enabled(s, step) && !step.ReadMaster?
    ensures MasterOk(Next(s, step), early)
  {
    hide Newest;
    match step
    case BeginInject(prefix, log) =>
      hide FirstFree, Received, Delivered, Disturbed;
      var data := prefix + log;
      assert s.master + [] == s.master;
      NewestTwice(s.master, data, s.size);
      NewestTwice(early + s.injected, data, s.size);
      assert early + s.injected + data == early + (s.injected + data);
    case WriteNext =>
      hide Remaining, Received, Chunk;
      RemainingAfterWrite(s, 0);
      ChunkFirst(s.master, Chunk(s.phase), Remaining(Written(s).phase, 0), s.size);
      NewestBounded(s.master + Chunk(s.phase), s.size);
    case _ =>
  }

  lemma NewestBounded(b: Bytes, n: nat)
    ensures |Newest(b, n)| <= n
  {
  }

  lemma {:induction false} RunKeepsMaster(s: State, steps: seq<Step>, t: State, early: Bytes)
    requires MasterOk(s, early) && Run(s, steps, t) && MasterUnread(steps)
    ensures MasterOk(t, early) && t.size == s.size
    decreases |steps|
  {
    hide MasterOk;
    if steps != [] {
      assert MasterOk(s, early);
      StepKeepsMaster(s, steps[0], early);
      RunKeepsMaster(Next(s, steps[0]), steps[1..], t, early);
    }
  }

  /** As long as nobody reads from it, the master holds the newest bytes of all that was ever logged. */
  lemma MasterHoldsNewest(size: nat, early: Bytes, steps: seq<Step>, t: State)
    requires Run(Start(size, early), steps, t) && t.phase.Idle? && MasterUnread(steps)
    ensures t.master == Newest(early + t.injected, size)
  {
    assert Newest(early, size) + [] == Newest(early, size) && early + [] == early;
    NewestTwice(early, [], size);
    RunKeepsMaster(Start(size, early), steps, t, early);
    assert t.master + [] == t.master;
  }

  /** The client in slot i has read something, or it and the master are still untouched. */
  ghost predicate ReadOrUntouched(s: State, i: nat) {
    IsUsed(s, i) && (s.slots[i].client.got == [] ==> s.slots[i].client.untouched)
  }

  lemma {:induction false} StaysUntouched(s: State, steps: seq<Step>, t: State, i: nat)
    requires ReadOrUntouched(s, i) && Run(s, steps, t) && MasterUnread(steps) && Disconnect(i) !in steps
    ensures ReadOrUntouched(t, i)
    decreases |steps|
  {
    if steps != [] {
      var u := Next(s, steps[0]);
      assert ReadOrUntouched(u, i) by {
        hide Newest, Chunk;
      }
      StaysUntouched(u, steps[1..], t, i);
    }
  }

  /** A client holds what the master holds until one of them is read: after any run in which a client
      connects and neither leaves nor reads a byte, while nobody reads the master. */
  lemma UnreadHoldsMaster(size: nat, early: Bytes, before: seq<Step>, s: State, u: State, after: seq<Step>, t: State,
                          i: nat)
    requires Run(Start(size, early), before, s) && StepTo(s, Connect, u)
    requires HasFree(s.slots) && i == FirstFree(s.slots)
    requires Run(u, after, t) && t.phase.Idle? && MasterUnread(after) && Disconnect(i) !in after
    ensures IsUsed(t, i) && (t.slots[i].client.got == [] ==> t.slots[i].client.pending == t.master)
  {
    assert Inv(Start(size, early));
    RunKeepsInv(Start(size, early), before, s);
    StepKeepsInv(s, Connect);
    RunKeepsInv(u, after, t);
    StaysUntouched(u, after, t, i);
    assert SlotOk(t, i);
    var c := t.slots[i].client;
    assert c.pending + [] == c.pending && t.master + [] == t.master;
  }

  // ---------- clearing ----------

  const CLEAR_CHUNK := 256

  /** The master after one turn of `log_logcat_clear`, which logs a record after each read. */
  function ClearedOnce(master: Bytes, record: Bytes, size: nat): Bytes {
    Newest(master[Min(CLEAR_CHUNK, |master|)..] + record, size)
  }

  function ClearedBy(master: Bytes, records: seq<Bytes>, size: nat): Bytes
    decreases |records|
  {
    if records == [] then master else ClearedBy(ClearedOnce(master, records[0], size), records[1..], size)
  }

  /** The loop stops at a read of no bytes. It reads none in its first turn if the ring is empty, and
      never in any later turn, for the record that it has just logged is there. */
  lemma {:induction false} ClearEnds(master: Bytes, records: seq<Bytes>, size: nat)
    requires size > 0 && forall r :: r in records ==> r != []
    ensures ClearedBy(master, records, size) == [] <==> records == [] && master == []
    decreases |records|
  {
    if records != [] {
      var next := ClearedOnce(master, records[0], size);
      assert records[0] in records && next != [];
      assert forall r :: r in records[1..] ==> r in records;
      ClearEnds(next, records[1..], size);
    }
  }

  /** A loop that finds the ring empty leaves just its own record behind. */
  lemma ClearEmptyLeavesRecord(record: Bytes, size: nat)
    requires |record| <= size
    ensures ClearedOnce([], record, size) == record
  {
    assert [] + record == record;
  }
}
