/** CAN FD packets and their signals: the cached value of every signal follows the packet's bytes,
    and callbacks run exactly for what changed. */
module CanCache {
  import opened Common
  import opened AvlShape
  import AvlTree

  const CANFD_DATA_SIZE := 64

  // ---------- signal types ----------

  datatype SignalType = BoolType | Uint8Type | Uint16Type | Uint32Type | Uint64Type | PointerType

  /** The typing of `canfd_signal_init`; None is its error. */
  function TypeOf(bitLength: nat): Option<SignalType> {
    if bitLength > 8 * 64 then None
    else if bitLength > 64 then Some(PointerType)
    else if bitLength > 32 then Some(Uint64Type)
    else if bitLength > 16 then Some(Uint32Type)
    else if bitLength > 8 then Some(Uint16Type)
    else if bitLength > 1 then Some(Uint8Type)
    else Some(BoolType)
  }

  function DataLength(bitLength: nat): nat {
    match TypeOf(bitLength)
    case Some(PointerType) => (bitLength + 7) / 8
    case Some(Uint64Type) => 8
    case Some(Uint32Type) => 4
    case Some(Uint16Type) => 2
    case _ => 1
  }

  /** The bytes of a signal hold its bits, and half of them would not. */
  lemma TypeHoldsBits(bitLength: nat)
    requires TypeOf(bitLength).Some?
    ensures bitLength <= 8 * DataLength(bitLength) <= CANFD_DATA_SIZE * 8
    ensures DataLength(bitLength) > 1 ==> bitLength > 4 * DataLength(bitLength)
  {
  }

  // ---------- signals and packets ----------

  datatype Value = Scalar(v: int) | Raw(bytes: Bytes)

  /** Where a signal sits in the data; `raw` for signals of more than 64 bits. */
  datatype Layout = Layout(startByte: nat, startBit: nat, bitLength: nat)

  /** `get_motorola_backward_data_from`, which is not modelled further. */
  type Decoder = (Bytes, nat, Layout) -> int

  predicate IsRaw(l: Layout) {
    TypeOf(l.bitLength) == Some(PointerType)
  }

  predicate Inside(l: Layout) {
    IsRaw(l) ==> l.startByte + DataLength(l.bitLength) <= CANFD_DATA_SIZE
  }

  /** The value that the data gives a signal. */
  function Decoded(decode: Decoder, data: Bytes, dlc: nat, l: Layout): Value
    requires |data| == CANFD_DATA_SIZE && Inside(l)
  {
    if IsRaw(l) then Raw(data[l.startByte..l.startByte + DataLength(l.bitLength)]) else Scalar(decode(data, dlc, l))
  }

  datatype Event =
    | SignalCallback(packet: int, signal: nat, value: Value)
    | AllSignalsCallback(packet: int, signal: nat, value: Value)
    | PacketCallback(packet: int)
    | AllPacketsCallback(packet: int)

  class Signal {
    const layout: Layout
    var value: Value
    var subscribed: bool

    constructor (layout: Layout, value: Value)
      ensures this.layout == layout && this.value == value && !subscribed
    {
      this.layout, this.value, subscribed := layout, value, false;
    }
  }

  class Packet {
    const id: int
    const dlc: nat
    const data: array<byte>
    const signals: seq<Signal>
    var subscribed: bool

    constructor (id: int, dlc: nat, signals: seq<Signal>)
      ensures this.id == id && this.dlc == dlc && this.signals == signals && !subscribed
      ensures fresh(data) && data[..] == seq(CANFD_DATA_SIZE, _ => 0)
    {
      this.id, this.dlc, this.signals, subscribed := id, dlc, signals, false;
      data := new byte[CANFD_DATA_SIZE](_ => 0);
    }

    ghost predicate Valid() {
      && data.Length == CANFD_DATA_SIZE && dlc <= CANFD_DATA_SIZE
      && (forall i :: 0 <= i < |signals| ==> Inside(signals[i].layout))
      && (forall i, j :: 0 <= i < j < |signals| ==> signals[i] != signals[j])
    }

    /** Every cached value is what the data says; the buffers of raw signals start out undefined. */
    ghost predicate Cached(decode: Decoder)
      requires Valid()
      reads data, signals
    {
      forall i :: 0 <= i < |signals| && !IsRaw(signals[i].layout) ==>
        signals[i].value == Decoded(decode, data[..], dlc, signals[i].layout)
    }
  }

  /** The callbacks of one signal: its own and then the general one, if its value changed. */
  function ChangeEvents(id: int, k: nat, before: Value, after: Value, own: bool, all: bool): seq<Event> {
    if before == after then []
    else
      (if own then [SignalCallback(id, k, after)] else []) + if all then [AllSignalsCallback(id, k, after)] else []
  }

  /** The callbacks of the first n signals. */
  function SignalEvents(id: int, before: seq<Value>, after: seq<Value>, own: seq<bool>, all: bool, n: nat): seq<Event>
    requires n <= |before| == |after| == |own|
  {
    if n == 0 then []
    else SignalEvents(id, before, after, own, all, n - 1)
         + ChangeEvents(id, n - 1, before[n - 1], after[n - 1], own[n - 1], all)
  }

  function PacketEvents(id: int, own: bool, all: bool): seq<Event> {
    (if own then [PacketCallback(id)] else []) + if all then [AllPacketsCallback(id)] else []
  }

  /** The place of a signal's callback: its own before the general one. */
  function Rank(e: Event): nat {
    match e
    case SignalCallback(_, k, _) => 2 * k
    case AllSignalsCallback(_, k, _) => 2 * k + 1
    case _ => 0
  }

  /** The event is due for signal k. */
  predicate CalledFor(e: Event, id: int, before: seq<Value>, after: seq<Value>, own: seq<bool>, all: bool, k: nat)
    requires k < |before| == |after| == |own|
  {
    before[k] != after[k]
    && ((own[k] && e == SignalCallback(id, k, after[k])) || (all && e == AllSignalsCallback(id, k, after[k])))
  }

  /** The event is due for one of the first n signals. */
  ghost predicate Called(e: Event, id: int, before: seq<Value>, after: seq<Value>, own: seq<bool>, all: bool, n: nat)
    requires n <= |before| == |after| == |own|
  {
    exists k :: 0 <= k < n && CalledFor(e, id, before, after, own, all, k)
  }

  lemma {:induction false} CalledExactly(e: Event, id: int, before: seq<Value>, after: seq<Value>, own: seq<bool>,
                                         all: bool, n: nat)
    requires n <= |before| == |after| == |own|
    ensures e in SignalEvents(id, before, after, own, all, n) <==> Called(e, id, before, after, own, all, n)
  {
    if n > 0 {
      CalledExactly(e, id, before, after, own, all, n - 1);
      assert e in ChangeEvents(id, n - 1, before[n - 1], after[n - 1], own[n - 1], all)
        <==> CalledFor(e, id, before, after, own, all, n - 1);
      assert Called(e, id, before, after, own, all, n)
        <==> Called(e, id, before, after, own, all, n - 1) || CalledFor(e, id, before, after, own, all, n - 1);
    }
  }

  ghost predicate Ascending(events: seq<Event>) {
    forall i, j :: 0 <= i < j < |events| ==> Rank(events[i]) < Rank(events[j])
  }

  lemma {:induction false} CalledInOrder(id: int, before: seq<Value>, after: seq<Value>, own: seq<bool>, all: bool,
                                         n: nat)
    requires n <= |before| == |after| == |own|
    ensures var events := SignalEvents(id, before, after, own, all, n);
      Ascending(events) && forall i :: 0 <= i < |events| ==> Rank(events[i]) < 2 * n
  {
    if n > 0 {
      CalledInOrder(id, before, after, own, all, n - 1);
      var events := SignalEvents(id, before, after, own, all, n - 1);
      var more := ChangeEvents(id, n - 1, before[n - 1], after[n - 1], own[n - 1], all);
      ChangeInOrder(id, n - 1, before[n - 1], after[n - 1], own[n - 1], all);
      hide Ascending, Rank, ChangeEvents;
      AscendingConcat(events, more, 2 * (n - 1), 2 * n);
    }
  }

  lemma ChangeInOrder(id: int, k: nat, before: Value, after: Value, own: bool, all: bool)
    ensures var events := ChangeEvents(id, k, before, after, own, all);
      Ascending(events) && forall i :: 0 <= i < |events| ==> 2 * k <= Rank(events[i]) < 2 * k + 2
  {
  }

  lemma AscendingConcat(a: seq<Event>, b: seq<Event>, low: nat, high: nat)
    requires Ascending(a) && Ascending(b) && low <= high
    requires (forall i :: 0 <= i < |a| ==> Rank(a[i]) < low) && forall i :: 0 <= i < |b| ==> low <= Rank(b[i]) < high
    ensures Ascending(a + b) && forall i :: 0 <= i < |a + b| ==> Rank((a + b)[i]) < high
  {
    hide Rank;
  }

  /** The callbacks are those of the signals that changed, the subscribed ones' own and the general one if
      there is one, each once with the new value, signal by signal, the own one first. */
  lemma CallbacksExactly(id: int, before: seq<Value>, after: seq<Value>, own: seq<bool>, all: bool, n: nat)
    requires n <= |before| == |after| == |own|
    ensures var events := SignalEvents(id, before, after, own, all, n);
      Ascending(events) && forall e :: e in events <==> Called(e, id, before, after, own, all, n)
  {
    hide Called, SignalEvents;
    CalledInOrder(id, before, after, own, all, n);
    forall e ensures e in SignalEvents(id, before, after, own, all, n) <==> Called(e, id, before, after, own, all, n) {
      CalledExactly(e, id, before, after, own, all, n);
    }
  }

  class Canfd {
    const tree: AvlTree.Tree
    const decode: Decoder
    var packets: map<Node, Packet>
    var allSignals: bool
    var allPackets: bool
    var trace: seq<Event>

    constructor (tree: AvlTree.Tree, decode: Decoder)
      ensures this.tree == tree && this.decode == decode && packets == map[] && trace == []
    {
      this.tree, this.decode, packets, allSignals, allPackets, trace := tree, decode, map[], false, false, [];
    }

    /** `canfd_signal_update` and the handler that follows it. */
    method UpdateSignal(p: Packet, i: nat, sig: Signal)
      requires p.Valid() && i < |p.signals| && sig == p.signals[i]
      modifies this`trace, sig`value
      ensures sig.value == Decoded(decode, p.data[..], p.dlc, sig.layout)
      ensures trace == old(trace) + ChangeEvents(p.id, i, old(sig.value), sig.value, sig.subscribed, allSignals)
    {
      var val := Decoded(decode, p.data[..], p.dlc, sig.layout);
      if sig.value == val {
        return;
      }
      sig.value := val;
      if sig.subscribed {
        trace := trace + [SignalCallback(p.id, i, val)];
      }
      if allSignals {
        trace := trace + [AllSignalsCallback(p.id, i, val)];
      }
    }

    /** Refresh every signal of a packet whose data changed. */
    method RefreshSignals(p: Packet)
      requires p.Valid()
      modifies this`trace, p.signals`value
      ensures Fresh(p, decode)
      ensures trace
           == old(trace) + SignalEvents(p.id, old(Values(p)), Values(p), Subscribed(p), allSignals, |p.signals|)
    {
      hide SignalEvents, ChangeEvents, Decoded, Inside, IsRaw, Values, Subscribed, DecodedValues;
      ghost var before: seq<Value>, own: seq<bool>, first: seq<Event> := Values(p), Subscribed(p), trace;
      ghost var after: seq<Value>, done: seq<Event> := DecodedValues(p, decode), [];
      NoEvents(p.id, before, after, own, allSignals);
      for k := 0 to |p.signals|
        invariant forall i :: 0 <= i < k ==> p.signals[i].value == after[i]
        invariant forall i :: k <= i < |p.signals| ==> p.signals[i].value == before[i]
        invariant trace == first + done && done == SignalEvents(p.id, before, after, own, allSignals, k)
      {
        UpdateSignal(p, k, p.signals[k]);
        MoreEvents(p.id, before, after, own, allSignals, k);
        ghost var more := ChangeEvents(p.id, k, before[k], after[k], own[k], allSignals);
        assert first + done + more == first + (done + more);
        done := done + more;
      }
      assert Values(p) == after && Subscribed(p) == own;
    }

    method CopyMessage(p: Packet, msg: Bytes)
      requires p.Valid() && |msg| <= CANFD_DATA_SIZE
      modifies p.data
      ensures p.data[..] == msg + old(p.data[..])[|msg|..] && Values(p) == old(Values(p))
    {
      forall i | 0 <= i < |msg| {
        p.data[i] := msg[i];
      }
    }

    /** `update_pkt`. */
    method UpdatePacket(p: Packet, msg: Bytes) returns (changed: bool)
      requires p.Valid() && |msg| <= CANFD_DATA_SIZE
      modifies this`trace, p.data, p.signals`value
      ensures changed <==> |msg| <= p.dlc && msg != old(p.data[..])[..|msg|]
      ensures p.data[..] == if changed then msg + old(p.data[..])[|msg|..] else old(p.data[..])
      ensures !changed ==> trace == old(trace) && Values(p) == old(Values(p))
      ensures changed ==> Fresh(p, decode)
      ensures old(p.Cached(decode)) ==> p.Cached(decode)
      ensures changed ==>
        trace == old(trace) + SignalEvents(p.id, old(Values(p)), Values(p), Subscribed(p), allSignals, |p.signals|)
                 + PacketEvents(p.id, p.subscribed, allPackets)
    {
      hide SignalEvents, PacketEvents, Decoded, Inside, IsRaw, Values, Subscribed;
      if p.dlc < |msg| {
        return false;
      }
      if p.data[..|msg|] == msg {
        return false;
      }
      changed := true;
      CopyMessage(p, msg);
      RefreshSignals(p);
      NotifyPacket(p);
    }

    /** The packet's own callback, then the general one. */
    method NotifyPacket(p: Packet)
      modifies this`trace
      ensures trace == old(trace) + PacketEvents(p.id, p.subscribed, allPackets)
    {
      if p.subscribed {
        trace := trace + [PacketCallback(p.id)];
      }
      if allPackets {
        trace := trace + [AllPacketsCallback(p.id)];
      }
    }

    /** The tree orders the packets by identifier, as `canfd_cmp_fun` compares them; every node in it
        belongs to one packet. */
    ghost predicate Indexed()
      reads this, tree, tree.members
    {
      && tree.Valid() && ComparesIds(tree.cmp) && TotalOrder(tree.cmp, Keys(tree.Order()))
      && (forall n :: n in tree.members ==> IsInt(n.key))
      && (forall n :: n in tree.members ==> n in packets && packets[n].id == n.key)
      && (forall n :: n in packets ==> packets[n].Valid())
      && (forall m, n :: m in packets && n in packets && packets[m] != packets[n] ==> Separate(packets[m], packets[n]))
    }

    /** `canfd_search_pkt_from_id`: right for every identifier, though the comparison with one that is
        not in the tree may wrap. */
    method SearchById(id: int) returns (p: Packet?)
      requires Indexed() && IsInt(id)
      ensures p == null ==> forall n :: n in tree.members ==> n.key != id
      ensures p != null ==> p.id == id && p.Valid() && exists n :: n in tree.members && packets[n] == p
    {
      var n := tree.Search(id);
      AvlTree.NodesInorder(tree.shape);
      if id in Keys(tree.Order()) {
        assert Keys(tree.Order()) + {id} == Keys(tree.Order());
      }
      if n == null {
        forall m | m in tree.members ensures m.key != id {
          EqualIds(tree.cmp, m.key, id);
        }
        return null;
      }
      EqualIds(tree.cmp, n.key, id);
      p := packets[n];
    }

    /** Updating one packet leaves all the others alone. */
    method UpdateHit(p: Packet, msg: Bytes) returns (changed: bool)
      requires Indexed() && |msg| <= CANFD_DATA_SIZE
      requires p in packets.Values && p.Valid()
      modifies this`trace, p.data, p.signals`value
      ensures changed <==> |msg| <= p.dlc && msg != old(p.data[..])[..|msg|]
      ensures p.data[..] == if changed then msg + old(p.data[..])[|msg|..] else old(p.data[..])
      ensures !changed ==> trace == old(trace) && Values(p) == old(Values(p))
      ensures changed ==> Fresh(p, decode)
      ensures changed ==>
        trace == old(trace) + SignalEvents(p.id, old(Values(p)), Values(p), Subscribed(p), allSignals, |p.signals|)
                 + PacketEvents(p.id, p.subscribed, allPackets)
      ensures forall n :: n in packets && packets[n] != p ==>
        packets[n].data[..] == old(packets[n].data[..]) && Values(packets[n]) == old(Values(packets[n]))
    {
      hide SignalEvents, PacketEvents, Decoded, Inside, Subscribed, Fresh;
      changed := UpdatePacket(p, msg);
    }

    /** `canfd_parse`, with the identifier in host order: the packet with that identifier is updated,
        with its callbacks, and every other packet stays as it is. */
    method Parse(id: int, msg: Bytes) returns (r: int, ghost hit: Packet?, ghost changed: bool)
      requires Indexed() && IsInt(id) && |msg| <= CANFD_DATA_SIZE
      modifies this`trace, set n | n in packets :: packets[n].data,
               set n, i | n in packets && 0 <= i < |packets[n].signals| :: packets[n].signals[i]
      ensures r == if hit == null then -1 else 0
      ensures hit == null <==> forall n :: n in tree.members ==> n.key != id
      ensures hit == null ==> !changed
      ensures hit != null ==> hit in packets.Values && hit.id == id && hit.Valid()
      ensures hit != null ==> (changed <==> |msg| <= hit.dlc && msg != old(hit.data[..])[..|msg|])
      ensures hit != null ==> hit.data[..] == if changed then msg + old(hit.data[..])[|msg|..] else old(hit.data[..])
      ensures !changed ==>
        trace == old(trace) && forall n :: n in packets ==> Values(packets[n]) == old(Values(packets[n]))
      ensures changed ==> Fresh(hit, decode)
      ensures changed ==>
        trace == old(trace)
                 + SignalEvents(id, old(Values(hit)), Values(hit), Subscribed(hit), allSignals, |hit.signals|)
                 + PacketEvents(id, hit.subscribed, allPackets)
      ensures forall n :: n in packets && packets[n] != hit ==>
        packets[n].data[..] == old(packets[n].data[..]) && Values(packets[n]) == old(Values(packets[n]))
    {
      hide SignalEvents, PacketEvents, Decoded, Inside, Subscribed, Fresh;
      var p := SearchById(id);
      hit, changed := p, false;
      if p == null {
        return -1, hit, changed;
      }
      var did := UpdateHit(p, msg);
      r, changed := 0, did;
    }
  }

  /** Two packets share neither their data nor a signal. */
  ghost predicate Separate(p: Packet, q: Packet) {
    p.data != q.data && forall i, j :: 0 <= i < |p.signals| && 0 <= j < |q.signals| ==> p.signals[i] != q.signals[j]
  }

  predicate IsInt(x: int) {
    -0x8000_0000 <= x < 0x8000_0000
  }

  /** A difference as a 32-bit int, the way `canfd_cmp_fun` returns it. */
  function Wrapped(x: int): int {
    (x + 0x8000_0000) % 0x1_0000_0000 - 0x8000_0000
  }

  ghost predicate ComparesIds(cmp: Comparator) {
    forall a, b :: IsInt(a) && IsInt(b) ==> cmp(a, b) == Wrapped(b - a)
  }

  /** The comparison is the true difference exactly when that fits; over all ints it would not even be
      transitive. */
  lemma ComparisonWraps(a: int, b: int)
    ensures Wrapped(b - a) == b - a <==> -0x8000_0000 <= b - a < 0x8000_0000
    ensures !TransitiveAt((x, y) => Wrapped(y - x), -2_000_000_000, 0, 2_000_000_000)
  {
  }

  /** Two ids compare equal only if they are. */
  lemma EqualIds(cmp: Comparator, a: int, b: int)
    requires ComparesIds(cmp) && IsInt(a) && IsInt(b)
    ensures cmp(a, b) == 0 <==> a == b
  {
  }

  /** It orders any identifiers that are less than 2^31 apart, such as those of at most 31 bits. */
  lemma IdsOrdered(cmp: Comparator, ids: set<int>)
    requires ComparesIds(cmp) && forall a :: a in ids ==> IsInt(a)
    requires forall a, b :: a in ids && b in ids ==> b - a < 0x8000_0000
    ensures TotalOrder(cmp, ids)
  {
    forall a, b | a in ids && b in ids ensures cmp(a, b) == b - a {
      ComparisonWraps(a, b);
    }
  }

  /** Every cached value is what the data says. */
  ghost predicate Fresh(p: Packet, decode: Decoder)
    requires p.Valid()
    reads p.data, p.signals
  {
    forall i :: 0 <= i < |p.signals| ==> p.signals[i].value == Decoded(decode, p.data[..], p.dlc, p.signals[i].layout)
  }

  ghost function DecodedValues(p: Packet, decode: Decoder): (r: seq<Value>)
    requires p.Valid()
    reads p.data
    ensures |r| == |p.signals|
    ensures forall i :: 0 <= i < |r| ==> r[i] == Decoded(decode, p.data[..], p.dlc, p.signals[i].layout)
  {
    seq(|p.signals|, i requires 0 <= i < |p.signals| && p.Valid() reads p.data =>
      Decoded(decode, p.data[..], p.dlc, p.signals[i].layout))
  }

  lemma NoEvents(id: int, before: seq<Value>, after: seq<Value>, own: seq<bool>, all: bool)
    requires |before| == |after| == |own|
    ensures SignalEvents(id, before, after, own, all, 0) == []
  {
  }

  lemma MoreEvents(id: int, before: seq<Value>, after: seq<Value>, own: seq<bool>, all: bool, k: nat)
    requires k < |before| == |after| == |own|
    ensures SignalEvents(id, before, after, own, all, k + 1)
         == SignalEvents(id, before, after, own, all, k) + ChangeEvents(id, k, before[k], after[k], own[k], all)
  {
  }

  ghost function Values(p: Packet): (r: seq<Value>)
    reads p.signals
    ensures |r| == |p.signals| && forall i :: 0 <= i < |r| ==> r[i] == p.signals[i].value
  {
    seq(|p.signals|, i requires 0 <= i < |p.signals| reads p.signals => p.signals[i].value)
  }

  ghost function Subscribed(p: Packet): (r: seq<bool>)
    reads p.signals
    ensures |r| == |p.signals| && forall i :: 0 <= i < |r| ==> r[i] == p.signals[i].subscribed
  {
    seq(|p.signals|, i requires 0 <= i < |p.signals| reads p.signals => p.signals[i].subscribed)
  }
}
