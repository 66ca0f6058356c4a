/** The debugging allocator: its list of records against the blocks that are really live, for any
    sequence of calls and any reuse of addresses by the system allocator. */
module AllocModel {
  import opened Common

  type Memory = nat -> byte

  const FILL_ALLOC_PATTERN: byte := 0xAA
  const FILL_FREE_PATTERN: byte := 0xDD
  const FILL_REDZONE_PATTERN: byte := 0xEE
  const REDZONE_SIZE := 16

  /** The null pointer. */
  const NULL: nat := 0

  datatype Record = Record(ptr: nat, size: nat, freed: bool)

  /** `records` is newest first. `live` are the user blocks the system allocator has handed out and
      not got back; `touched` are the bytes that the program has written itself. */
  datatype State = State(records: seq<Record>, live: map<nat, nat>, memory: Memory, touched: set<nat>)

  // ---------- the list ----------

  /** `find_alloc_info`: the position of the newest record of the pointer, or the length. */
  function Find(records: seq<Record>, ptr: nat): (i: nat)
    ensures i <= |records| && (i < |records| ==> records[i].ptr == ptr)
    ensures forall j :: 0 <= j < i ==> records[j].ptr != ptr
  {
    if records == [] || records[0].ptr == ptr then 0 else 1 + Find(records[1..], ptr)
  }

  /** The count of `report_leaks`. */
  function Leaks(records: seq<Record>): nat {
    if records == [] then 0 else (if records[0].freed then 0 else 1) + Leaks(records[1..])
  }

  // ---------- memory ----------

  /** `memset`. */
  function Filled(m: Memory, from: nat, n: nat, v: byte): Memory {
    (a: nat) => if from <= a < from + n then v else m(a)
  }

  /** `memcpy`. */
  function Copied(m: Memory, to: nat, from: nat, n: nat): Memory {
    (a: nat) => if to <= a < to + n then m(a - to + from) else m(a)
  }

  predicate Apart(a: nat, n: nat, b: nat, m: nat) {
    a + n <= b || b + m <= a
  }

  /** The system allocator may hand out this range. */
  ghost predicate Vacant(s: State, raw: nat, total: nat) {
    && raw > 0
    && forall p :: p in s.live ==>
         p >= REDZONE_SIZE && Apart(raw, total, p - REDZONE_SIZE, s.live[p] + 2 * REDZONE_SIZE)
  }

  predicate InZone(a: nat, p: nat, size: nat) {
    p <= a + REDZONE_SIZE < p + REDZONE_SIZE || p + size <= a < p + size + REDZONE_SIZE
  }

  // ---------- operations ----------

  datatype Outcome = Returned(ptr: nat) | Aborted

  /** `debug_malloc_impl`; `raw` is what the system allocator returns. */
  function Malloc(s: State, size: nat, raw: Option<nat>): (State, nat) {
    if raw.None? then (s, NULL)
    else
      var r, p := raw.value, raw.value + REDZONE_SIZE;
      var m1 := Filled(s.memory, r, REDZONE_SIZE, FILL_REDZONE_PATTERN);
      var m2 := Filled(m1, p + size, REDZONE_SIZE, FILL_REDZONE_PATTERN);
      var m3 := Filled(m2, p, size, FILL_ALLOC_PATTERN);
      (State(
         [Record(p, size, false)] + s.records,
         s.live[p := size],
         m3,
         set a | a in s.touched && !(r <= a < p + size + REDZONE_SIZE)),
       p)
  }

  /** `debug_free_impl`, with aborting enabled. */
  function Free(s: State, ptr: nat): (State, Outcome) {
    if ptr == NULL then (s, Returned(NULL))
    else
      var i := Find(s.records, ptr);
      if i == |s.records| || s.records[i].freed then (s, Aborted)
      else
        (State(
           s.records[i := s.records[i].(freed := true)],
           s.live - {ptr},
           Filled(s.memory, ptr, s.records[i].size, FILL_FREE_PATTERN),
           s.touched),
         Returned(NULL))
  }

  /** `debug_realloc_impl`. */
  function Realloc(s: State, ptr: nat, size: nat, raw: Option<nat>): (State, Outcome) {
    if ptr == NULL then
      var (t, p) := Malloc(s, size, raw);
      (t, Returned(p))
    else if size == 0 then Free(s, ptr)
    else
      var i := Find(s.records, ptr);
      var (t, p) := Malloc(s, size, raw);
      if i == |s.records| || p == NULL then (t, Returned(p))
      else
        var n := if size < s.records[i].size then size else s.records[i].size;
        var (u, outcome) := Free(t.(memory := Copied(t.memory, p, ptr, n)), ptr);
        (u, if outcome.Aborted? then Aborted else Returned(p))
  }

  /** The program writes a byte. */
  function Write(s: State, a: nat, v: byte): State {
    s.(memory := Filled(s.memory, a, 1, v), touched := s.touched + {a})
  }

  datatype Step =
    | MallocStep(size: nat, raw: Option<nat>)
    | FreeStep(ptr: nat)
    | ReallocStep(ptr: nat, size: nat, raw: Option<nat>)
    | WriteStep(a: nat, v: byte)

  ghost predicate Enabled(s: State, step: Step) {
    match step
    case MallocStep(size, raw) => raw.Some? ==> Vacant(s, raw.value, size + 2 * REDZONE_SIZE)
    case ReallocStep(_, size, raw) => raw.Some? ==> Vacant(s, raw.value, size + 2 * REDZONE_SIZE)
    case _ => true
  }

  function Next(s: State, step: Step): (State, Outcome) {
    match step
    case MallocStep(size, raw) => var (t, p) := Malloc(s, size, raw); (t, Returned(p))
    case FreeStep(ptr) => Free(s, ptr)
    case ReallocStep(ptr, size, raw) => Realloc(s, ptr, size, raw)
    case WriteStep(a, v) => (Write(s, a, v), Returned(NULL))
  }

  // ---------- what every run keeps ----------

  /** The pointer's newest record is the live one. */
  ghost predicate Recorded(s: State, p: nat)
    requires p in s.live
  {
    var i := Find(s.records, p);
    i < |s.records| && s.records[i] == Record(p, s.live[p], false)
  }

  /** Only the newest record of a live pointer is not marked freed. */
  ghost predicate Unfreed(s: State, i: nat)
    requires i < |s.records|
  {
    !s.records[i].freed ==> s.records[i].ptr in s.live && Find(s.records, s.records[i].ptr) == i
  }

  ghost predicate BlocksApart(s: State) {
    && (forall p :: p in s.live ==> p > REDZONE_SIZE)
    && (forall p, q :: p in s.live && q in s.live && p != q ==>
          Apart(p - REDZONE_SIZE, s.live[p] + 2 * REDZONE_SIZE, q - REDZONE_SIZE, s.live[q] + 2 * REDZONE_SIZE))
  }

  /** Red zones hold their pattern unless the program has written there itself. */
  ghost predicate ZonesIntact(s: State) {
    forall p, a :: p in s.live && InZone(a, p, s.live[p]) && a !in s.touched ==> s.memory(a) == FILL_REDZONE_PATTERN
  }

  ghost predicate ListOk(s: State) {
    && (forall p :: p in s.live ==> Recorded(s, p))
    && (forall i :: 0 <= i < |s.records| ==> Unfreed(s, i))
    && Leaks(s.records) == |s.live|
  }

  ghost predicate Inv(s: State) {
    ListOk(s) && BlocksApart(s) && ZonesIntact(s)
  }

  lemma {:induction false} FindPushed(r: Record, records: seq<Record>, p: nat)
    ensures Find([r] + records, p) == if r.ptr == p then 0 else 1 + Find(records, p)
  {
    assert ([r] + records)[1..] == records;
  }

  lemma {:induction false} FindMarked(records: seq<Record>, i: nat, p: nat)
    requires i < |records|
    ensures Find(records[i := records[i].(freed := true)], p) == Find(records, p)
  {
    var marked := records[i := records[i].(freed := true)];
    if i == 0 {
      assert marked[1..] == records[1..];
    } else {
      assert marked[1..] == records[1..][i - 1 := records[1..][i - 1].(freed := true)];
      FindMarked(records[1..], i - 1, p);
    }
  }

  lemma {:induction false} LeaksMarked(records: seq<Record>, i: nat)
    requires i < |records| && !records[i].freed
    ensures Leaks(records) == Leaks(records[i := records[i].(freed := true)]) + 1
  {
    var marked := records[i := records[i].(freed := true)];
    if i == 0 {
      assert marked[1..] == records[1..];
    } else {
      assert marked[1..] == records[1..][i - 1 := records[1..][i - 1].(freed := true)];
      LeaksMarked(records[1..], i - 1);
    }
  }

  /** A new block keeps the list right. */
  lemma MallocKeepsList(s: State, size: nat, raw: nat)
    requires ListOk(s) && Vacant(s, raw, size + 2 * REDZONE_SIZE)
    ensures ListOk(Malloc(s, size, Some(raw)).0)
  {
    hide Filled, Find, Leaks;
    var t, q := Malloc(s, size, Some(raw)).0, raw + REDZONE_SIZE;
    var r := Record(q, size, false);
    assert q !in s.live;
    assert t.records == [r] + s.records && t.live == s.live[q := size];
    hide Malloc, Vacant;
    Pushed(s, t, r);
    LeaksPushed(r, s.records);
    OneMore(s.live, q, size);
  }

  lemma OneMore(m: map<nat, nat>, k: nat, v: nat)
    requires k !in m
    ensures |m[k := v]| == |m| + 1
  {
    assert m[k := v].Keys == m.Keys + {k};
  }

  lemma Pushed(s: State, t: State, r: Record)
    requires ListOk(s) && r.ptr !in s.live && !r.freed
    requires t.records == [r] + s.records && t.live == s.live[r.ptr := r.size]
    ensures forall p :: p in t.live ==> Recorded(t, p)
    ensures forall i :: 0 <= i < |t.records| ==> Unfreed(t, i)
  {
    hide Find, Leaks;
    forall p | p in t.live ensures Recorded(t, p) {
      FindPushed(r, s.records, p);
      assert p != r.ptr ==> Recorded(s, p);
    }
    forall i | 0 <= i < |t.records| ensures Unfreed(t, i) {
      FindPushed(r, s.records, t.records[i].ptr);
      assert i > 0 ==> Unfreed(s, i - 1) && t.records[i] == s.records[i - 1];
    }
  }

  lemma LeaksPushed(r: Record, records: seq<Record>)
    ensures Leaks([r] + records) == (if r.freed then 0 else 1) + Leaks(records)
  {
    assert ([r] + records)[1..] == records;
  }

  lemma MallocKeepsBlocks(s: State, size: nat, raw: nat)
    requires BlocksApart(s) && ZonesIntact(s) && Vacant(s, raw, size + 2 * REDZONE_SIZE)
    ensures BlocksApart(Malloc(s, size, Some(raw)).0) && ZonesIntact(Malloc(s, size, Some(raw)).0)
  {
    var t, q := Malloc(s, size, Some(raw)).0, raw + REDZONE_SIZE;
    forall p, a | p in t.live && InZone(a, p, t.live[p]) && a !in t.touched
      ensures t.memory(a) == FILL_REDZONE_PATTERN
    {
      if p != q {
        assert InZone(a, p, s.live[p]);
        assert Apart(raw, size + 2 * REDZONE_SIZE, p - REDZONE_SIZE, s.live[p] + 2 * REDZONE_SIZE);
      }
    }
  }

  lemma MallocKeepsInv(s: State, size: nat, raw: Option<nat>)
    requires Inv(s) && (raw.Some? ==> Vacant(s, raw.value, size + 2 * REDZONE_SIZE))
    ensures Inv(Malloc(s, size, raw).0)
  {
    hide ListOk, BlocksApart, ZonesIntact;
    if raw.Some? {
      MallocKeepsList(s, size, raw.value);
      MallocKeepsBlocks(s, size, raw.value);
    }
  }

  lemma FreeKeepsList(s: State, ptr: nat)
    requires ListOk(s) && ptr in s.live && ptr != NULL
    ensures ListOk(Free(s, ptr).0)
  {
    hide Filled, Find, Leaks;
    var t, k := Free(s, ptr).0, Find(s.records, ptr);
    assert Recorded(s, ptr);
    forall p | p in t.live ensures Recorded(t, p) {
      FindMarked(s.records, k, p);
      assert Recorded(s, p);
    }
    forall i | 0 <= i < |t.records| ensures Unfreed(t, i) {
      FindMarked(s.records, k, t.records[i].ptr);
      assert Unfreed(s, i);
    }
    LeaksMarked(s.records, k);
    assert t.live.Keys == s.live.Keys - {ptr} && s.live.Keys == t.live.Keys + {ptr};
  }

  /** Freeing aborts exactly for a pointer that is neither null nor live. */
  lemma FreeOutcome(s: State, ptr: nat)
    requires Inv(s)
    ensures Free(s, ptr).1.Aborted? <==> ptr != NULL && ptr !in s.live
    ensures ptr == NULL || ptr !in s.live ==> Free(s, ptr).0 == s
    ensures ptr in s.live ==> ptr != NULL && Free(s, ptr).0.live == s.live - {ptr}
    ensures ptr in s.live ==> forall a: nat ::
      Free(s, ptr).0.memory(a) == if ptr <= a < ptr + s.live[ptr] then 0xDD else s.memory(a)
  {
    var i := Find(s.records, ptr);
    if ptr in s.live {
      assert Recorded(s, ptr);
    } else if i < |s.records| {
      assert Unfreed(s, i);
    }
  }

  lemma FreeKeepsInv(s: State, ptr: nat)
    requires Inv(s)
    ensures Inv(Free(s, ptr).0)
  {
    hide Recorded, Unfreed;
    FreeOutcome(s, ptr);
    if ptr in s.live {
      FreeKeepsList(s, ptr);
      FreeKeepsBlocks(s, ptr);
    }
  }

  lemma FreeKeepsBlocks(s: State, ptr: nat)
    requires Inv(s) && ptr in s.live && ptr != NULL
    ensures BlocksApart(Free(s, ptr).0) && ZonesIntact(Free(s, ptr).0)
  {
    assert Recorded(s, ptr);
    FreedFields(s, ptr);
    hide Free, ListOk, Recorded, Find, Filled;
    FillKeepsZones(s, Free(s, ptr).0, ptr, FILL_FREE_PATTERN);
  }

  /** Filling the user part of a block leaves the red zones alone. */
  lemma FillKeepsZones(s: State, t: State, ptr: nat, v: byte)
    requires BlocksApart(s) && ZonesIntact(s) && ptr in s.live && t.live == s.live - {ptr} && t.touched == s.touched
    requires t.memory == Filled(s.memory, ptr, s.live[ptr], v)
    ensures ZonesIntact(t)
  {
    forall p, a | p in t.live && InZone(a, p, t.live[p]) && a !in t.touched
      ensures t.memory(a) == FILL_REDZONE_PATTERN
    {
      assert InZone(a, p, s.live[p]);
      assert Apart(p - REDZONE_SIZE, s.live[p] + 2 * REDZONE_SIZE, ptr - REDZONE_SIZE, s.live[ptr] + 2 * REDZONE_SIZE);
    }
  }

  /** What freeing a live block does to blocks and memory. */
  lemma FreedFields(s: State, ptr: nat)
    requires ptr in s.live && ptr != NULL && Recorded(s, ptr)
    ensures var (t, outcome) := Free(s, ptr);
      && outcome == Returned(NULL) && t.live == s.live - {ptr} && t.touched == s.touched
      && t.memory == Filled(s.memory, ptr, s.live[ptr], FILL_FREE_PATTERN)
  {
    hide Filled;
  }

  lemma CopyKeepsInv(s: State, to: nat, from: nat, n: nat)
    requires Inv(s) && to in s.live && n <= s.live[to]
    ensures Inv(s.(memory := Copied(s.memory, to, from, n)))
  {
    hide Find, Leaks;
    var t := s.(memory := Copied(s.memory, to, from, n));
    assert forall p :: p in s.live ==> Recorded(s, p) == Recorded(t, p);
    assert forall i :: 0 <= i < |s.records| ==> Unfreed(s, i) == Unfreed(t, i);
    forall p, a | p in t.live && InZone(a, p, t.live[p]) && a !in t.touched
      ensures t.memory(a) == FILL_REDZONE_PATTERN
    {
      assert InZone(a, p, s.live[p]);
      assert p != to ==>
        Apart(p - REDZONE_SIZE, s.live[p] + 2 * REDZONE_SIZE, to - REDZONE_SIZE, s.live[to] + 2 * REDZONE_SIZE);
    }
  }

  lemma WriteKeepsInv(s: State, a: nat, v: byte)
    requires Inv(s)
    ensures Inv(Write(s, a, v))
  {
    hide Find, Leaks;
    var t := Write(s, a, v);
    assert forall p :: p in s.live ==> Recorded(s, p) == Recorded(t, p);
    assert forall i :: 0 <= i < |s.records| ==> Unfreed(s, i) == Unfreed(t, i);
  }

  lemma StepKeepsInv(s: State, step: Step)
    requires Inv(s) && Enabled(s, step)
    ensures Inv(Next(s, step).0)
  {
    hide Inv, Malloc, Free;
    match step
    case MallocStep(size, raw) => MallocKeepsInv(s, size, raw);
    case FreeStep(ptr) => FreeKeepsInv(s, ptr);
    case WriteStep(a, v) => WriteKeepsInv(s, a, v);
    case ReallocStep(ptr, size, raw) => ReallocKeepsInv(s, ptr, size, raw);
  }

  lemma ReallocKeepsInv(s: State, ptr: nat, size: nat, raw: Option<nat>)
    requires Inv(s) && (raw.Some? ==> Vacant(s, raw.value, size + 2 * REDZONE_SIZE))
    ensures Inv(Realloc(s, ptr, size, raw).0)
  {
    hide Inv, Free;
    MallocKeepsInv(s, size, raw);
    FreeKeepsInv(s, ptr);
    var i := Find(s.records, ptr);
    var (t, p) := Malloc(s, size, raw);
    if ptr != NULL && size != 0 && i < |s.records| && p != NULL {
      var n := if size < s.records[i].size then size else s.records[i].size;
      CopyKeepsInv(t, p, ptr, n);
      FreeKeepsInv(t.(memory := Copied(t.memory, p, ptr, n)), ptr);
    }
  }

  // ---------- runs ----------

  /** Steps one after the other, none of which aborts the program. */
  ghost predicate Run(s: State, steps: seq<Step>, t: State)
    decreases |steps|
  {
    if steps == [] then s == t
    else Enabled(s, steps[0]) && Next(s, steps[0]).1.Returned? && Run(Next(s, steps[0]).0, steps[1..], t)
  }

  lemma {:induction false} RunKeepsInv(s: State, steps: seq<Step>, t: State)
    requires Inv(s) && Run(s, steps, t)
    ensures Inv(t)
    decreases |steps|
  {
    hide Inv, Enabled, Next;
    if steps != [] {
      StepKeepsInv(s, steps[0]);
      RunKeepsInv(Next(s, steps[0]).0, steps[1..], t);
    }
  }

  ghost predicate Empty(s: State) {
    s.records == [] && s.live == map[] && s.touched == {}
  }

  lemma EmptyInv(s: State)
    requires Empty(s)
    ensures Inv(s)
  {
  }

  ghost predicate IsLiveRecord(s: State, p: nat, i: nat) {
    i < |s.records| && s.records[i].ptr == p && !s.records[i].freed
  }

  /** After any run: the pointers with an unfreed record are exactly the live ones; a search finds
      that record, with the right size; and the leak total is the number of live blocks. */
  lemma RunIsAccounted(s: State, steps: seq<Step>, t: State)
    requires Empty(s) && Run(s, steps, t)
    ensures forall p :: p in t.live ==>
      IsLiveRecord(t, p, Find(t.records, p)) && t.records[Find(t.records, p)].size == t.live[p]
    ensures forall p, i :: IsLiveRecord(t, p, i) ==> p in t.live && i == Find(t.records, p)
    ensures Leaks(t.records) == |t.live|
  {
    RunKeepsInv(s, steps, t);
    forall p | p in t.live
      ensures IsLiveRecord(t, p, Find(t.records, p)) && t.records[Find(t.records, p)].size == t.live[p]
    {
      assert Recorded(t, p);
    }
    forall p, i | IsLiveRecord(t, p, i) ensures p in t.live && i == Find(t.records, p) {
      assert Unfreed(t, i);
    }
  }

  // ---------- realloc ----------

  /** Resizing a live block: a new block of the new size takes over the first min(old, new) bytes and is
      filled with 0xAA behind them, the old one is gone, filled with 0xDD, and no other live block
      changes. */
  lemma ReallocMoves(s: State, ptr: nat, size: nat, raw: nat)
    requires Inv(s) && ptr in s.live && size != 0 && Vacant(s, raw, size + 2 * REDZONE_SIZE)
    ensures var (t, outcome) := Realloc(s, ptr, size, Some(raw));
      var p := raw + REDZONE_SIZE;
      && outcome == Returned(p) && t.live == (s.live - {ptr})[p := size]
      && (forall a :: ptr <= a < ptr + s.live[ptr] && a < ptr + size ==> t.memory(a - ptr + p) == s.memory(a))
      && (forall a :: p + s.live[ptr] <= a < p + size ==> t.memory(a) == 0xAA)
      && (forall a :: ptr <= a < ptr + s.live[ptr] ==> t.memory(a) == 0xDD)
      && (forall q, a :: q in s.live && q != ptr && q <= a < q + s.live[q] ==> t.memory(a) == s.memory(a))
  {
    hide ListOk, ZonesIntact, Filled, Copied;
    var m := Malloc(s, size, Some(raw)).0.memory;
    ReallocParts(s, ptr, size, raw);
    MallocOutcome(s, size, raw);
    hide Realloc, Malloc;
    assert Apart(raw, size + 2 * REDZONE_SIZE, ptr - REDZONE_SIZE, s.live[ptr] + 2 * REDZONE_SIZE);
    MovedBytes(s.memory, m, raw, size, ptr, s.live[ptr]);
    forall q, a | q in s.live && q != ptr && q <= a < q + s.live[q]
      ensures Apart(a, 1, raw, size + 2 * REDZONE_SIZE) && Apart(a, 1, ptr, s.live[ptr])
    {
      assert Apart(raw, size + 2 * REDZONE_SIZE, q - REDZONE_SIZE, s.live[q] + 2 * REDZONE_SIZE);
      assert Apart(ptr - REDZONE_SIZE, s.live[ptr] + 2 * REDZONE_SIZE, q - REDZONE_SIZE, s.live[q] + 2 * REDZONE_SIZE);
    }
  }

  /** The memory after copying from the old block and filling it. */
  function Moved(m: Memory, to: nat, size: nat, from: nat, oldSize: nat): Memory {
    Filled(Copied(m, to, from, if size < oldSize then size else oldSize), from, oldSize, FILL_FREE_PATTERN)
  }

  lemma MovedBytes(before: Memory, m: Memory, raw: nat, size: nat, ptr: nat, oldSize: nat)
    requires ptr >= REDZONE_SIZE && Apart(raw, size + 2 * REDZONE_SIZE, ptr - REDZONE_SIZE, oldSize + 2 * REDZONE_SIZE)
    requires forall a: nat :: Apart(a, 1, raw, size + 2 * REDZONE_SIZE) ==> m(a) == before(a)
    requires forall a :: raw + REDZONE_SIZE <= a < raw + REDZONE_SIZE + size ==> m(a) == 0xAA
    ensures var p := raw + REDZONE_SIZE; var t := Moved(m, p, size, ptr, oldSize);
      && (forall a :: p + oldSize <= a < p + size ==> t(a) == 0xAA)
      && (forall a :: ptr <= a < ptr + oldSize ==> t(a) == 0xDD)
      && (forall a :: ptr <= a < ptr + oldSize && a < ptr + size ==> t(a - ptr + p) == before(a))
      && (forall a :: 0 <= a && Apart(a, 1, raw, size + 2 * REDZONE_SIZE) && Apart(a, 1, ptr, oldSize)
            ==> t(a) == before(a))
  {
    var total := size + 2 * REDZONE_SIZE;
    assert forall a :: ptr <= a < ptr + oldSize ==> Apart(a, 1, raw, total);
  }

  /** What a new block does to blocks and memory. */
  lemma MallocFields(s: State, size: nat, raw: nat)
    ensures var (t, p) := Malloc(s, size, Some(raw));
      && p == raw + REDZONE_SIZE && t.live == s.live[p := size] && t.records == [Record(p, size, false)] + s.records
      && (forall a :: 0 <= a && Apart(a, 1, raw, size + 2 * REDZONE_SIZE) ==> t.memory(a) == s.memory(a))
  {
  }

  /** A new block lies behind its front red zone; it is filled with 0xAA between two red zones of 16
      bytes 0xEE, and no byte outside changes. Where the system has no memory nothing happens. */
  lemma MallocOutcome(s: State, size: nat, raw: nat)
    ensures Malloc(s, size, None) == (s, NULL)
    ensures var (t, p) := Malloc(s, size, Some(raw));
      && p == raw + 16 && t.live == s.live[p := size]
      && (forall a :: p <= a < p + size ==> t.memory(a) == 0xAA)
      && (forall a :: p <= a + 16 < p + 16 || p + size <= a < p + size + 16 ==> t.memory(a) == 0xEE)
      && (forall a: nat :: a < raw || p + size + 16 <= a ==> t.memory(a) == s.memory(a))
  {
  }

  /** Resizing no block is allocating, and resizing to 0 is freeing; without memory, or for a pointer
      never seen, the old block stays. */
  lemma ReallocEdges(s: State, ptr: nat, size: nat, raw: Option<nat>)
    requires Inv(s)
    ensures ptr == NULL || (size != 0 && Find(s.records, ptr) == |s.records|) ==>
      var (t, p) := Malloc(s, size, raw); Realloc(s, ptr, size, raw) == (t, Returned(p))
    ensures ptr != NULL && size == 0 ==> Realloc(s, ptr, size, raw) == Free(s, ptr)
    ensures ptr != NULL && size != 0 && raw.None? ==> Realloc(s, ptr, size, raw) == (s, Returned(NULL))
  {
  }

  lemma ReallocStages(s: State, ptr: nat, size: nat, raw: nat)
    requires ptr in s.live && ptr != NULL && Recorded(s, ptr) && size != 0 && raw + REDZONE_SIZE != ptr
    ensures var (t, outcome) := Realloc(s, ptr, size, Some(raw));
      var p, m, oldSize := raw + REDZONE_SIZE, Malloc(s, size, Some(raw)).0.memory, s.live[ptr];
      outcome == Returned(p) && t.live == (s.live - {ptr})[p := size] && t.memory == Moved(m, p, size, ptr, oldSize)
  {
    hide Find, Copied, Filled;
    MallocFields(s, size, raw);
    hide Malloc;
    var t, p := Malloc(s, size, Some(raw)).0, raw + REDZONE_SIZE;
    FindPushed(Record(p, size, false), s.records, ptr);
    FreedFields(t.(memory := Copied(t.memory, p, ptr, if size < s.live[ptr] then size else s.live[ptr])), ptr);
    hide Free;
    assert s.live[p := size] - {ptr} == (s.live - {ptr})[p := size];
  }

  /** The three stages of resizing a live block. */
  lemma ReallocParts(s: State, ptr: nat, size: nat, raw: nat)
    requires Inv(s) && ptr in s.live && size != 0 && Vacant(s, raw, size + 2 * REDZONE_SIZE)
    ensures var (t, outcome) := Realloc(s, ptr, size, Some(raw));
      var p, m, oldSize := raw + REDZONE_SIZE, Malloc(s, size, Some(raw)).0.memory, s.live[ptr];
      && outcome == Returned(p) && t.live == (s.live - {ptr})[p := size]
      && t.memory == Moved(m, p, size, ptr, oldSize)
      && (forall a :: 0 <= a && Apart(a, 1, raw, size + 2 * REDZONE_SIZE) ==> m(a) == s.memory(a))
  {
    assert Recorded(s, ptr);
    assert Apart(raw, size + 2 * REDZONE_SIZE, ptr - REDZONE_SIZE, s.live[ptr] + 2 * REDZONE_SIZE);
    MallocFields(s, size, raw);
    ReallocStages(s, ptr, size, raw);
    hide Realloc, Malloc, Moved, Recorded, Inv, Vacant;
  }

  /** Resizing a block that was freed: the program is aborted exactly when the new block lies
      elsewhere. At the old address the new block is freed at once and its dead pointer returned. */
  lemma ReallocOfFreed(s: State, ptr: nat, size: nat, raw: nat)
    requires Inv(s) && ptr != NULL && ptr !in s.live && Find(s.records, ptr) < |s.records|
    requires size != 0 && Vacant(s, raw, size + 2 * REDZONE_SIZE)
    ensures var (t, outcome) := Realloc(s, ptr, size, Some(raw));
      && (outcome.Aborted? <==> ptr != raw + REDZONE_SIZE)
      && (outcome.Returned? ==> outcome.ptr == ptr && ptr !in t.live)
  {
    hide Leaks, ZonesIntact;
    assert Unfreed(s, Find(s.records, ptr));
    FindPushed(Record(raw + REDZONE_SIZE, size, false), s.records, ptr);
  }

  // ---------- red zones ----------

  ghost predicate ZoneDamaged(m: Memory, from: nat) {
    exists a :: from <= a < from + REDZONE_SIZE && m(a) != FILL_REDZONE_PATTERN
  }

  /** The program itself has written into the zone, and the byte is no longer the pattern. */
  ghost predicate Overrun(s: State, from: nat) {
    exists a :: from <= a < from + REDZONE_SIZE && a in s.touched && s.memory(a) != FILL_REDZONE_PATTERN
  }

  /** No false alarm and no missed one: a red zone of a live block is found damaged if and only if the
      program has overrun it. */
  lemma DamageIsOverrun(s: State, ptr: nat)
    requires Inv(s) && ptr in s.live
    ensures ptr >= REDZONE_SIZE
    ensures ZoneDamaged(s.memory, ptr - REDZONE_SIZE) <==> Overrun(s, ptr - REDZONE_SIZE)
    ensures ZoneDamaged(s.memory, ptr + s.live[ptr]) <==> Overrun(s, ptr + s.live[ptr])
  {
    hide ListOk;
    forall a | ptr - REDZONE_SIZE <= a < ptr || ptr + s.live[ptr] <= a < ptr + s.live[ptr] + REDZONE_SIZE
      ensures a in s.touched || s.memory(a) == FILL_REDZONE_PATTERN
    {
      assert InZone(a, ptr, s.live[ptr]);
    }
  }

  /** A write that stays out of the red zones of the blocks that are live at that moment. */
  ghost predicate CarefulStep(s: State, step: Step) {
    step.WriteStep? ==> forall p :: p in s.live ==> !InZone(step.a, p, s.live[p])
  }

  ghost predicate Careful(s: State, steps: seq<Step>)
    decreases |steps|
  {
    steps == [] || (CarefulStep(s, steps[0]) && Careful(Next(s, steps[0]).0, steps[1..]))
  }

  ghost predicate ZonesUntouched(s: State) {
    forall p, a :: p in s.live && InZone(a, p, s.live[p]) ==> a !in s.touched
  }

  lemma MallocUntouched(s: State, size: nat, raw: Option<nat>)
    requires ZonesUntouched(s)
    ensures ZonesUntouched(Malloc(s, size, raw).0)
  {
    hide Filled;
    var t := Malloc(s, size, raw).0;
    forall p, a | p in t.live && InZone(a, p, t.live[p]) ensures a !in t.touched {
      assert p in s.live && t.live[p] == s.live[p] ==> InZone(a, p, s.live[p]);
    }
  }

  lemma FreeUntouched(s: State, ptr: nat)
    requires ZonesUntouched(s)
    ensures ZonesUntouched(Free(s, ptr).0)
  {
    hide Filled, Find;
    var t := Free(s, ptr).0;
    forall p, a | p in t.live && InZone(a, p, t.live[p]) ensures a !in t.touched {
      assert InZone(a, p, s.live[p]);
    }
  }

  lemma StepUntouched(s: State, step: Step)
    requires ZonesUntouched(s) && CarefulStep(s, step)
    ensures ZonesUntouched(Next(s, step).0)
  {
    hide Malloc, Free, Filled, Copied, Find;
    match step
    case MallocStep(size, raw) => MallocUntouched(s, size, raw);
    case FreeStep(ptr) => FreeUntouched(s, ptr);
    case WriteStep(a, v) =>
    case ReallocStep(ptr, size, raw) =>
      MallocUntouched(s, size, raw);
      FreeUntouched(s, ptr);
      var (t, p) := Malloc(s, size, raw);
      var i := Find(s.records, ptr);
      if ptr != NULL && size != 0 && i < |s.records| {
        var n := if size < s.records[i].size then size else s.records[i].size;
        var u := t.(memory := Copied(t.memory, p, ptr, n));
        assert ZonesUntouched(u);
        FreeUntouched(u, ptr);
      }
  }

  lemma {:induction false} CarefulUntouched(s: State, steps: seq<Step>, t: State)
    requires ZonesUntouched(s) && Run(s, steps, t) && Careful(s, steps)
    ensures ZonesUntouched(t)
    decreases |steps|
  {
    hide ZonesUntouched, Next, CarefulStep, Enabled;
    if steps != [] {
      StepUntouched(s, steps[0]);
      CarefulUntouched(Next(s, steps[0]).0, steps[1..], t);
    }
  }

  /** After any run of a program from the start: a red zone of a live block is found damaged exactly
      when the program has overrun it, and never when every write stayed out of the red zones. */
  lemma ReportsAfterRun(s: State, steps: seq<Step>, t: State, ptr: nat)
    requires Empty(s) && Run(s, steps, t) && ptr in t.live
    ensures ptr >= REDZONE_SIZE
    ensures ZoneDamaged(t.memory, ptr - REDZONE_SIZE) <==> Overrun(t, ptr - REDZONE_SIZE)
    ensures ZoneDamaged(t.memory, ptr + t.live[ptr]) <==> Overrun(t, ptr + t.live[ptr])
    ensures Careful(s, steps) ==> !Overrun(t, ptr - REDZONE_SIZE) && !Overrun(t, ptr + t.live[ptr])
  {
    RunKeepsInv(s, steps, t);
    DamageIsOverrun(t, ptr);
    if Careful(s, steps) {
      CarefulUntouched(s, steps, t);
      assert forall a :: ptr <= a + REDZONE_SIZE < ptr + REDZONE_SIZE ==> InZone(a, ptr, t.live[ptr]);
      assert forall a :: ptr + t.live[ptr] <= a < ptr + t.live[ptr] + REDZONE_SIZE ==> InZone(a, ptr, t.live[ptr]);
    }
  }
}
