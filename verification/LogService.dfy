/** The logcat service over real rings: each operation, run under the service mutex, performs the
    steps of the transition system `LogFanout`. */
module LogService {
  import opened Common
  import opened Pipe
  import opened LogFanout

  const LOG_PIPE_SIZE := 1024 * 1024

  class Service {
    const master: Pipe
    const clients: array<Pipe?>
    ghost var log: State
    ghost var repr: set<object>

    /** A ring of the service: open, looping, nobody stopped it. */
    static ghost predicate RingOk(p: Pipe)
      reads p
    {
      p.Valid() && p.isOpen && !p.stopRead && !p.stopWrite && p.loopOverwrite && p.size == LOG_PIPE_SIZE
    }

    static ghost predicate Holds(p: Pipe, content: Bytes)
      reads p, p.buffer
    {
      RingOk(p) && p.Contents() == content
    }

    ghost predicate SlotHolds(i: nat, slot: Slot)
      requires i < clients.Length
      reads this`repr, clients, repr
    {
      match slot
      case Free => clients[i] == null
      case Used(c) =>
        clients[i] != null && clients[i] in repr && clients[i].buffer in repr && Holds(clients[i], c.pending)
    }

    /** No two rings share memory. */
    ghost predicate Apart(i: nat, j: nat)
      requires i < j < clients.Length
      reads this`repr, clients, repr
    {
      clients[i] != null && clients[j] != null && clients[i] in repr && clients[j] in repr
        ==>
          clients[i] != clients[j] && clients[i].buffer != clients[j].buffer
    }

    ghost predicate ApartFromMaster(i: nat)
      requires i < clients.Length
      reads this`repr, clients, repr, master
    {
      clients[i] != null && clients[i] in repr ==> clients[i] != master && clients[i].buffer != master.buffer
    }

    /** The rings are as state s says. */
    ghost predicate Matches(s: State)
      reads this`repr, repr, clients, master
    {
      && clients.Length == |s.slots| == LOGCAT_CLIENTS_NR && s.size == LOG_PIPE_SIZE
      && this !in repr && clients in repr && master in repr && master.buffer in repr
      && Holds(master, s.master)
      && (forall i :: 0 <= i < clients.Length ==> SlotHolds(i, s.slots[i]) && ApartFromMaster(i))
      && (forall i, j :: 0 <= i < j < clients.Length ==> Apart(i, j))
    }

    ghost function RingAt(k: nat): set<object>
      requires k < clients.Length
      reads clients, this`repr, repr
    {
      if clients[k] == null || clients[k] !in repr then {} else
      var p: Pipe := clients[k];
      {p, p.buffer}
    }

    ghost predicate Valid()
      reads this, repr, clients, master
    {
      Matches(log) && log.phase.Idle?
    }

    /** `log_logcat_service_init`: the master ring, holding the early log; no client yet. */
    constructor (early: Bytes)
      requires |early| <= LOG_PIPE_SIZE
      ensures Valid() && fresh(repr)
      ensures log == Start(LOG_PIPE_SIZE, early)
    {
      hide Ring;
      var ring := NewRing();
      master := ring;
      clients := new Pipe?[LOGCAT_CLIENTS_NR](_ => null);
      new;
      var _ := master.Write(early);
      repr := {master, master.buffer, clients};
      log := Start(LOG_PIPE_SIZE, early);
      assert [] + early == early;
    }

    /** One ring's share of an injection: `inject_to_pipe`. */
    method InjectToPipe(p: Pipe?, prefix: Bytes, text: Bytes, ghost content: Bytes)
      requires p != null ==> Holds(p, content) && |prefix| <= LOG_PIPE_SIZE && |text| <= LOG_PIPE_SIZE
      modifies if p == null then {} else {p, p.buffer}
      ensures p != null ==> p.buffer == old(p.buffer)
      ensures p != null ==> Holds(p, Newest(Newest(content + prefix, LOG_PIPE_SIZE) + text, LOG_PIPE_SIZE))
    {
      hide Newest, Ring;
      if p == null {
        return;
      }
      var _ := p.Write(prefix);
      var _ := p.Write(text);
    }

    lemma RingWithin(k: nat, s: State)
      requires Matches(s) && k < clients.Length
      ensures RingAt(k) <= repr && master in repr && master.buffer in repr
    {
      assert SlotHolds(k, s.slots[k]);
    }

    method InjectToMaster(prefix: Bytes, text: Bytes, ghost s: State)
      requires Matches(s) && PhaseOk(s) && s.phase == Injecting(prefix, text, 0)
      modifies master, master.buffer
      ensures Matches(AfterWrites(s, 2))
    {
      hide AfterWrites, Holds, Newest;
      InjectToPipe(master, prefix, text, s.master);
      TwoWrites(s);
      ghost var t := AfterWrites(s, 2);
      forall i | 0 <= i < clients.Length ensures SlotHolds(i, t.slots[i]) && ApartFromMaster(i) {
        assert old(SlotHolds(i, s.slots[i]) && ApartFromMaster(i));
      }
      forall i, j | 0 <= i < j < clients.Length ensures Apart(i, j) {
        assert old(Apart(i, j));
      }
    }

    method InjectToSlot(k: nat, prefix: Bytes, text: Bytes, ghost s: State)
      requires k < LOGCAT_CLIENTS_NR
      requires Matches(s) && PhaseOk(s) && s.phase == Injecting(prefix, text, 2 * (k + 1))
      modifies RingAt(k)
      ensures Matches(AfterWrites(s, 2))
    {
      hide AfterWrites, Holds, Newest;
      TwoWrites(s);
      ghost var t := AfterWrites(s, 2);
      assert SlotHolds(k, s.slots[k]) && ApartFromMaster(k);
      InjectToPipe(clients[k], prefix, text, if s.slots[k].Used? then s.slots[k].client.pending else []);
      forall i | 0 <= i < clients.Length ensures SlotHolds(i, t.slots[i]) && ApartFromMaster(i) {
        assert old(SlotHolds(i, s.slots[i]) && ApartFromMaster(i));
        assert old(i < k ==> Apart(i, k)) && old(k < i ==> Apart(k, i));
      }
      forall i, j | 0 <= i < j < clients.Length ensures Apart(i, j) {
        assert old(Apart(i, j));
      }
    }

    /** `inject_to_logcat_pipes`: all the writes of one injection. */
    method Inject(prefix: Bytes, text: Bytes)
      requires Valid() && |prefix| <= LOG_PIPE_SIZE && |text| <= LOG_PIPE_SIZE
      modifies this`log, repr
      ensures Valid() && repr == old(repr) && clients[..] == old(clients[..])
      ensures Run(old(log), [BeginInject(prefix, text)] + Writes(WRITES), log)
    {
      hide SlotHolds, Apart, ApartFromMaster, Holds, AfterWrites, Written;
      ghost var begun := Next(log, BeginInject(prefix, text));
      assert Matches(begun);
      InjectToMaster(prefix, text, begun);
      log := AfterWrites(begun, 2);
      for i := 0 to LOGCAT_CLIENTS_NR
        invariant log == AfterWrites(begun, 2 * (i + 1))
        invariant Matches(log) && repr == old(repr) && clients[..] == old(clients[..])
      {
        RingWithin(i, log);
        InjectToSlot(i, prefix, text, log);
        TwoMore(begun, 2 * (i + 1));
        log := AfterWrites(begun, 2 * (i + 2));
      }
      InjectionIsRun(old(log), prefix, text);
    }

    static method NewRing() returns (q: Pipe)
      ensures fresh(q) && fresh(q.buffer) && Holds(q, [])
    {
      q := new Pipe();
      var _ := q.Open(LOG_PIPE_SIZE);
      var _ := q.SetLoopOverwrite(true);
    }

    /** `logcat_clients_get_new_pipe`: a clone of the master in the first free slot. When all are taken
        the error record `prefix` + `text` is logged instead, which goes to every ring. */
    method GetNewPipe(prefix: Bytes, text: Bytes) returns (p: Pipe?)
      requires Valid() && |prefix| <= LOG_PIPE_SIZE && |text| <= LOG_PIPE_SIZE
      modifies this`log, this`repr, clients, repr
      ensures Valid() && old(repr) <= repr && fresh(repr - old(repr))
      ensures p == null <==> !HasFree(old(log).slots)
      ensures p != null ==> StepTo(old(log), Connect, log)
      ensures p != null ==> fresh(p) && p == clients[FirstFree(old(log).slots)]
      ensures p != null ==> var k := FirstFree(old(log).slots);
        && k < LOGCAT_CLIENTS_NR && clients[..] == old(clients[..])[k := p]
        && old(clients[k]) == null && forall j :: 0 <= j < k ==> old(clients[j]) != null
      ensures p == null ==>
        clients[..] == old(clients[..]) && Run(old(log), [BeginInject(prefix, text)] + Writes(WRITES), log)
    {
      hide Newest, Ring, Apart, ApartFromMaster;
      var q := NewRing();
      for i := 0 to LOGCAT_CLIENTS_NR
        invariant Valid() && log == old(log) && repr == old(repr) && clients[..] == old(clients[..])
        invariant forall j :: 0 <= j < i ==> log.slots[j].Used? && clients[j] != null
        invariant Holds(q, []) && fresh(q) && fresh(q.buffer)
      {
        assert SlotHolds(i, log.slots[i]);
        if clients[i] == null {
          FirstFreeIs(log.slots, i);
          Attach(i, q);
          return q;
        }
      }
      Inject(prefix, text);
      q.Close();
      return null;
    }

    method CloneMaster(q: Pipe, ghost content: Bytes)
      requires Holds(master, content) && Holds(q, []) && q != master && q.buffer != master.buffer
      modifies q, q.buffer
      ensures Holds(q, content) && q.buffer == old(q.buffer)
    {
      master.Clone(q);
    }

    method Attach(k: nat, q: Pipe)
      requires Valid() && k < LOGCAT_CLIENTS_NR && clients[k] == null
      requires HasFree(log.slots) && FirstFree(log.slots) == k
      requires Holds(q, []) && q !in repr && q.buffer !in repr
      modifies this`log, this`repr, clients, q, q.buffer
      ensures Valid() && repr == old(repr) + {q, q.buffer} && q.buffer == old(q.buffer)
      ensures StepTo(old(log), Connect, log) && clients[..] == old(clients[..])[k := q]
    {
      hide Newest, Ring, Holds, FirstFree;
      clients[k] := q;
      CloneMaster(q, log.master);
      ghost var s := log;
      repr := repr + {q, q.buffer};
      log := Next(s, Connect);
      forall i | 0 <= i < clients.Length ensures SlotHolds(i, log.slots[i]) && ApartFromMaster(i) {
        assert old(SlotHolds(i, s.slots[i]) && ApartFromMaster(i));
      }
      forall i, j | 0 <= i < j < clients.Length ensures Apart(i, j) {
        assert old(Apart(i, j) && SlotHolds(i, s.slots[i]) && SlotHolds(j, s.slots[j]));
      }
    }

    /** `logcat_clients_free_pipe`. For a ring that is no client's the error record is logged. */
    method FreePipe(p: Pipe?, prefix: Bytes, text: Bytes)
      requires Valid() && |prefix| <= LOG_PIPE_SIZE && |text| <= LOG_PIPE_SIZE
      modifies this`log, clients, repr
      ensures Valid() && repr == old(repr)
      ensures p == null ==> log == old(log)
      ensures p != null && p !in old(clients[..]) ==>
        clients[..] == old(clients[..]) && Run(old(log), [BeginInject(prefix, text)] + Writes(WRITES), log)
      ensures forall i :: 0 <= i < LOGCAT_CLIENTS_NR && p != null && old(clients[i]) == p ==>
        StepTo(old(log), Disconnect(i), log) && clients[..] == old(clients[..])[i := null]
    {
      if p == null {
        return;
      }
      for i := 0 to LOGCAT_CLIENTS_NR
        invariant Valid() && log == old(log) && repr == old(repr) && clients[..] == old(clients[..])
        invariant p !in clients[..i]
      {
        if clients[i] == p {
          assert SlotHolds(i, log.slots[i]);
          Detach(i, p);
          return;
        }
      }
      assert clients[..LOGCAT_CLIENTS_NR] == clients[..];
      Inject(prefix, text);
    }

    method Detach(k: nat, p: Pipe)
      requires Valid() && k < LOGCAT_CLIENTS_NR && clients[k] == p
      modifies this`log, clients, p
      ensures Valid() && repr == old(repr) && StepTo(old(log), Disconnect(k), log)
      ensures clients[..] == old(clients[..])[k := null]
      ensures forall i :: 0 <= i < LOGCAT_CLIENTS_NR && i != k ==> old(clients[i]) != p
    {
      ghost var s := log;
      assert SlotHolds(k, s.slots[k]) && ApartFromMaster(k);
      clients[k] := null;
      p.Close();
      log := Next(s, Disconnect(k));
      forall i | 0 <= i < clients.Length
        ensures SlotHolds(i, log.slots[i]) && ApartFromMaster(i) && (i != k ==> old(clients[i]) != p)
      {
        assert old(SlotHolds(i, s.slots[i]) && ApartFromMaster(i));
        assert old(i < k ==> Apart(i, k)) && old(k < i ==> Apart(k, i));
      }
      forall i, j | 0 <= i < j < clients.Length ensures Apart(i, j) {
        assert old(Apart(i, j));
      }
    }

    lemma MasterFits(s: State)
      requires Matches(s)
      ensures master in repr && |s.slots| == LOGCAT_CLIENTS_NR && s.size == LOG_PIPE_SIZE && |s.master| <= s.size
    {
    }

    method ReadMasterRing(dst: array<byte>) returns (r: int)
      requires Valid() && dst.Length == CLEAR_CHUNK && dst !in repr
      modifies this`log, master, dst
      ensures Valid() && repr == old(repr) && r == Min(CLEAR_CHUNK, |old(log).master|)
      ensures StepTo(old(log), ReadMaster(r), log)
    {
      hide Newest, Ring, Holds;
      ghost var s := log;
      r := ReadRing(master, dst, s.master);
      log := Next(s, ReadMaster(r));
      forall i | 0 <= i < clients.Length ensures SlotHolds(i, log.slots[i]) && ApartFromMaster(i) {
        assert old(SlotHolds(i, s.slots[i]) && ApartFromMaster(i));
      }
      forall i, j | 0 <= i < j < clients.Length ensures Apart(i, j) {
        assert old(Apart(i, j));
      }
    }

    static method ReadRing(p: Pipe, dst: array<byte>, ghost content: Bytes) returns (r: int)
      requires Holds(p, content) && dst.Length == CLEAR_CHUNK && dst != p.buffer
      modifies p, dst
      ensures r == Min(CLEAR_CHUNK, |content|) && Holds(p, content[r..]) && p.buffer == old(p.buffer)
    {
      hide Newest, Ring;
      r := p.Read(dst, CLEAR_CHUNK, 0, 0);
    }

    /** One turn of `log_logcat_clear`: read at most 256 bytes off the master, then log a record of
        that, which goes to every ring. */
    method ClearTurn(dst: array<byte>, prefix: Bytes, text: Bytes) returns (r: int)
      requires Valid() && dst.Length == CLEAR_CHUNK && dst !in repr
      requires |prefix| <= LOG_PIPE_SIZE && |text| <= LOG_PIPE_SIZE
      modifies this`log, repr, dst
      ensures Valid() && repr == old(repr) && r == Min(CLEAR_CHUNK, |old(log).master|)
      ensures Run(old(log), [ReadMaster(r), BeginInject(prefix, text)] + Writes(WRITES), log)
      ensures log.master == ClearedOnce(old(log).master, prefix + text, LOG_PIPE_SIZE)
    {
      hide Matches;
      ghost var s := log;
      MasterFits(s);
      r := ReadMasterRing(dst);
      Inject(prefix, text);
      ClearTurnIsRun(s, r, prefix, text, log);
    }

    /** A client thread's read, at any moment, even in the middle of an injection. */
    method ReadClient(k: nat, dst: array<byte>) returns (r: int)
      requires Matches(log) && IsUsed(log, k)
      requires dst.Length == 1024 && dst !in repr
      modifies this`log, RingAt(k), dst
      ensures Matches(log) && repr == old(repr)
      ensures 0 <= r <= 1024 && StepTo(old(log), Read(k, r), log)
      ensures IsUsed(old(log), k) && r == Min(1024, |old(log).slots[k].client.pending|)
      ensures dst[..r] == old(log).slots[k].client.pending[..r]
    {
      hide Newest, Ring;
      ghost var s := log;
      assert SlotHolds(k, s.slots[k]) && ApartFromMaster(k);
      r := clients[k].Read(dst, 1024, 0, 0);
      log := Next(s, Read(k, r));
      forall i | 0 <= i < clients.Length ensures SlotHolds(i, log.slots[i]) && ApartFromMaster(i) {
        assert old(SlotHolds(i, s.slots[i]) && ApartFromMaster(i));
        assert old(i < k ==> Apart(i, k)) && old(k < i ==> Apart(k, i));
      }
      forall i, j | 0 <= i < j < clients.Length ensures Apart(i, j) {
        assert old(Apart(i, j));
      }
    }
  }

  lemma {:induction false} FirstFreeIs(slots: seq<Slot>, i: nat)
    requires i < |slots| && slots[i].Free? && forall j :: 0 <= j < i ==> slots[j].Used?
    ensures HasFree(slots) && FirstFree(slots) == i
  {
    if i > 0 {
      FirstFreeIs(slots[1..], i - 1);
    }
  }

  /** The two writes of an injection that go to the same ring. */
  lemma TwoWrites(s: State)
    requires s.phase.Injecting? && s.phase.done + 2 <= WRITES && s.phase.done % 2 == 0
    ensures AfterWrites(s, 2) == Written(Written(s))
    ensures var t, k, prefix, text := AfterWrites(s, 2), s.phase.done / 2, s.phase.prefix, s.phase.log;
      && t.size == s.size
      && t.master == (if k == 0 then Newest(Newest(s.master + prefix, s.size) + text, s.size) else s.master)
      && t.slots == (if k > 0 && IsUsed(s, k - 1) then
          s.slots[k - 1 := Used(Received(Received(s.slots[k - 1].client, prefix, s.size), text, s.size))]
        else
          s.slots)
  {
    hide Newest, Received, Chunk;
    assert AfterWrites(s, 1) == Written(AfterWrites(s, 0)) == Written(s);
    assert AfterWrites(s, 2) == Written(AfterWrites(s, 1));
    hide AfterWrites, Written;
    OneWrite(s);
    OneWrite(Written(s));
  }

  /** What one write of an injection does, by the ring it goes to. */
  lemma OneWrite(s: State)
    requires s.phase.Injecting?
    ensures var t, k := Written(s), s.phase.done / 2;
            var data := if s.phase.done % 2 == 0 then s.phase.prefix else s.phase.log;
      && t.size == s.size
      && (s.phase.done + 1 < WRITES ==> t.phase == s.phase.(done := s.phase.done + 1))
      && t.master == (if k == 0 then Newest(s.master + data, s.size) else s.master)
      && (if k > 0 && IsUsed(s, k - 1) then
            t.slots == s.slots[k - 1 := Used(Received(s.slots[k - 1].client, data, s.size))]
          else
            t.slots == s.slots)
  {
    hide Newest, Received;
  }

  lemma TwoMore(s: State, k: nat)
    requires s.phase.Injecting? && s.phase.done + k + 2 <= WRITES
    ensures AfterWrites(s, k + 2) == AfterWrites(AfterWrites(s, k), 2)
  {
    assert AfterWrites(s, k + 2) == Written(AfterWrites(s, k + 1));
    var t := AfterWrites(s, k);
    assert AfterWrites(t, 1) == Written(AfterWrites(t, 0)) == Written(t);
  }

  function Writes(k: nat): seq<Step> {
    seq(k, _ => WriteNext)
  }

  lemma {:induction false} FirstWrite(s: State, k: nat)
    requires s.phase.Injecting? && k > 0 && s.phase.done + k <= WRITES
    ensures AfterWrites(s, k) == AfterWrites(Written(s), k - 1)
  {
    if k > 1 {
      FirstWrite(s, k - 1);
    }
  }

  lemma {:induction false} WritesAreRun(s: State, k: nat)
    requires |s.slots| == LOGCAT_CLIENTS_NR && (k > 0 ==> s.phase.Injecting? && s.phase.done + k <= WRITES)
    ensures Run(s, Writes(k), AfterWrites(s, k))
    decreases k
  {
    hide AfterWrites, Written;
    if k > 0 {
      OneWrite(s);
      FirstWrite(s, k);
      WritesAreRun(Written(s), k - 1);
      assert Writes(k)[1..] == Writes(k - 1);
    } else {
      NoWrites(s);
    }
  }

  lemma NoWrites(s: State)
    ensures AfterWrites(s, 0) == s && Writes(0) == []
  {
  }

  lemma InjectionIsRun(s: State, prefix: Bytes, text: Bytes)
    requires |s.slots| == LOGCAT_CLIENTS_NR && Enabled(s, BeginInject(prefix, text))
    ensures var t := AfterWrites(Next(s, BeginInject(prefix, text)), WRITES);
      Run(s, [BeginInject(prefix, text)] + Writes(WRITES), t)
  {
    hide AfterWrites;
    var steps := [BeginInject(prefix, text)] + Writes(WRITES);
    assert steps[0] == BeginInject(prefix, text) && steps[1..] == Writes(WRITES);
    WritesAreRun(Next(s, BeginInject(prefix, text)), WRITES);
  }

  lemma {:induction false} RunUnique(s: State, steps: seq<Step>, t: State, u: State)
    requires Run(s, steps, t) && Run(s, steps, u)
    ensures t == u
    decreases |steps|
  {
    hide Next, Enabled;
    if steps != [] {
      RunUnique(Next(s, steps[0]), steps[1..], t, u);
    }
  }

  lemma {:induction false} WritesMaster(s: State, k: nat)
    requires k > 0 ==> s.phase.Injecting? && s.phase.done + k <= WRITES
    ensures var t := AfterWrites(s, k);
      t.size == s.size
      && Newest(t.master + Remaining(t.phase, 0), s.size) == Newest(s.master + Remaining(s.phase, 0), s.size)
      && (|s.master| <= s.size ==> |t.master| <= s.size)
  {
    hide Remaining, Newest;
    if k > 0 {
      var u := AfterWrites(s, k - 1);
      WritesMaster(s, k - 1);
      WriteMaster(u);
    }
  }

  lemma WriteMaster(s: State)
    requires s.phase.Injecting? && s.phase.done < WRITES
    ensures var t := Written(s);
      t.size == s.size
      && Newest(t.master + Remaining(t.phase, 0), s.size) == Newest(s.master + Remaining(s.phase, 0), s.size)
      && (|s.master| <= s.size ==> |t.master| <= s.size)
  {
    hide Remaining, Received, Chunk, Newest;
    RemainingAfterWrite(s, 0);
    ChunkFirst(s.master, Chunk(s.phase), Remaining(Written(s).phase, 0), s.size);
    NewestBounded(s.master + Chunk(s.phase), s.size);
  }

  lemma ClearTurnIsRun(s: State, n: nat, prefix: Bytes, text: Bytes, t: State)
    requires |s.slots| == LOGCAT_CLIENTS_NR && Enabled(s, ReadMaster(n)) && n == Min(CLEAR_CHUNK, |s.master|)
    requires |s.master| <= s.size && |prefix| <= s.size && |text| <= s.size
    requires Run(Next(s, ReadMaster(n)), [BeginInject(prefix, text)] + Writes(WRITES), t)
    ensures Run(s, [ReadMaster(n), BeginInject(prefix, text)] + Writes(WRITES), t)
    ensures t.master == ClearedOnce(s.master, prefix + text, s.size)
  {
    hide AfterWrites, Newest, Run;
    var u, inject := Next(s, ReadMaster(n)), [BeginInject(prefix, text)] + Writes(WRITES);
    var steps := [ReadMaster(n), BeginInject(prefix, text)] + Writes(WRITES);
    assert steps[0] == ReadMaster(n) && steps[1..] == inject;
    RunFirst(s, steps, t);
    InjectionIsRun(u, prefix, text);
    RunUnique(u, inject, t, AfterWrites(Next(u, BeginInject(prefix, text)), WRITES));
    WritesMaster(Next(u, BeginInject(prefix, text)), WRITES);
    assert t.master + [] == t.master;
    NewestWhole(t.master, s.size);
  }

  lemma RunFirst(s: State, steps: seq<Step>, t: State)
    requires steps != [] && |s.slots| == LOGCAT_CLIENTS_NR && Enabled(s, steps[0])
    requires Run(Next(s, steps[0]), steps[1..], t)
    ensures Run(s, steps, t)
  {
  }

  lemma NewestWhole(b: Bytes, n: nat)
    requires |b| <= n
    ensures Newest(b, n) == b
  {
  }

  /** k writes of the running injection. */
  function AfterWrites(s: State, k: nat): (t: State)
    requires k > 0 ==> s.phase.Injecting? && s.phase.done + k <= WRITES
    ensures k > 0 ==> t.phase == if s.phase.done + k < WRITES then s.phase.(done := s.phase.done + k) else Idle
    ensures |t.slots| == |s.slots|
  {
    if k == 0 then s else Written(AfterWrites(s, k - 1))
  }
}
