/** The debugging allocator over its linked list of records: every call performs the step of
    `AllocModel`, and checks the red zones byte by byte. */
module DebugAlloc {
  import opened Common
  import opened AllocModel

  class AllocInfo {
    const ptr: nat
    const size: nat
    const next: AllocInfo?
    var freed: bool

    constructor (ptr: nat, size: nat, next: AllocInfo?)
      ensures this.ptr == ptr && this.size == size && this.next == next && !freed
    {
      this.ptr, this.size, this.next, freed := ptr, size, next, false;
    }
  }

  class Allocator {
    var head: AllocInfo?
    var memory: Memory
    ghost var infos: seq<AllocInfo>
    ghost var state: State

    ghost predicate LinkedAt(i: nat)
      requires i < |infos|
      reads this`infos
    {
      infos[i].next == InfoAt(i + 1) && infos[i].ptr >= REDZONE_SIZE
    }

    ghost function InfoAt(i: nat): AllocInfo?
      reads this`infos
    {
      if i < |infos| then infos[i] else null
    }

    ghost predicate SameRecord(i: nat)
      requires i < |infos| == |state.records|
      reads this`infos, this`state, infos
    {
      state.records[i] == Record(infos[i].ptr, infos[i].size, infos[i].freed)
    }

    ghost predicate Valid()
      reads this, infos
    {
      && head == InfoAt(0) && |infos| == |state.records| && memory == state.memory
      && (forall i :: 0 <= i < |infos| ==> LinkedAt(i) && SameRecord(i))
      && (forall i, j :: 0 <= i < j < |infos| ==> infos[i] != infos[j])
    }

    constructor ()
      ensures Valid() && Empty(state) && infos == []
    {
      head, memory, infos := null, _ => 0, [];
      state := State([], map[], _ => 0, {});
      new;
      state := State([], map[], memory, {});
    }

    /** `add_alloc`. */
    method AddAlloc(ptr: nat, size: nat, ghost after: State)
      requires head == InfoAt(0) && |infos| == |state.records| && memory == after.memory
      requires forall i :: 0 <= i < |infos| ==> LinkedAt(i) && SameRecord(i)
      requires forall i, j :: 0 <= i < j < |infos| ==> infos[i] != infos[j]
      requires ptr >= REDZONE_SIZE && after.records == [Record(ptr, size, false)] + state.records
      modifies this`head, this`infos, this`state
      ensures Valid() && state == after && fresh(infos[0]) && infos[1..] == old(infos)
    {
      var info := new AllocInfo(ptr, size, head);
      head := info;
      ghost var was := infos;
      infos := [info] + infos;
      state := after;
      forall i | 0 <= i < |infos| ensures LinkedAt(i) && SameRecord(i) {
        assert i > 0 ==> old(LinkedAt(i - 1) && SameRecord(i - 1)) && infos[i] == was[i - 1];
      }
    }

    /** `find_alloc_info`. */
    method FindAllocInfo(ptr: nat) returns (info: AllocInfo?)
      requires Valid()
      ensures info == InfoAt(Find(state.records, ptr))
    {
      info := head;
      ghost var i := 0;
      while info != null && info.ptr != ptr
        invariant 0 <= i <= |infos| && info == InfoAt(i)
        invariant Find(state.records, ptr) == i + Find(state.records[i..], ptr)
        decreases |infos| - i
      {
        assert LinkedAt(i) && SameRecord(i);
        assert state.records[i..][1..] == state.records[i + 1..];
        info := info.next;
        i := i + 1;
      }
      assert info != null ==> SameRecord(i);
    }

    /** The count of `report_leaks` over this thread's records. */
    method ReportLeaks() returns (leaks: nat)
      requires Valid()
      ensures leaks == Leaks(state.records)
    {
      leaks := 0;
      var info := head;
      ghost var i := 0;
      while info != null
        invariant 0 <= i <= |infos| && info == InfoAt(i)
        invariant Leaks(state.records) == leaks + Leaks(state.records[i..])
        decreases |infos| - i
      {
        assert LinkedAt(i) && SameRecord(i);
        assert state.records[i..][1..] == state.records[i + 1..];
        if !info.freed {
          leaks := leaks + 1;
        }
        info := info.next;
        i := i + 1;
      }
    }

    /** One of the red-zone scans of `debug_free_impl`. */
    method ScanZone(from: nat) returns (damaged: bool)
      ensures damaged <==> ZoneDamaged(memory, from)
    {
      for i := 0 to REDZONE_SIZE
        invariant forall a :: from <= a < from + i ==> memory(a) == FILL_REDZONE_PATTERN
      {
        if memory(from + i) != FILL_REDZONE_PATTERN {
          return true;
        }
      }
      return false;
    }

    /** `debug_malloc_impl`; `raw` is the system allocator's answer. */
    method DebugMalloc(size: nat, raw: Option<nat>) returns (ptr: nat)
      requires Valid()
      modifies this
      ensures Valid() && (state, ptr) == Malloc(old(state), size, raw)
      ensures raw.Some? ==> fresh(infos[0]) && infos[1..] == old(infos)
      ensures raw.None? ==> infos == old(infos)
    {
      if raw.None? {
        return NULL;
      }
      ghost var after := Malloc(state, size, raw).0;
      memory := Filled(memory, raw.value, REDZONE_SIZE, FILL_REDZONE_PATTERN);
      ptr := raw.value + REDZONE_SIZE;
      memory := Filled(memory, ptr + size, REDZONE_SIZE, FILL_REDZONE_PATTERN);
      memory := Filled(memory, ptr, size, FILL_ALLOC_PATTERN);
      AddAlloc(ptr, size, after);
    }

    /** `debug_free_impl`: aborts on an unknown or freed pointer, else reports damaged red zones. */
    method DebugFree(ptr: nat) returns (aborted: bool, underflow: bool, overflow: bool)
      requires Valid()
      modifies this`memory, this`state, infos
      ensures Valid() && infos == old(infos)
      ensures (state, if aborted then Aborted else Returned(NULL)) == Free(old(state), ptr)
      ensures var i := Find(old(state).records, ptr);
        !aborted && ptr != NULL ==>
          && ptr >= REDZONE_SIZE && i < |old(state).records|
          && (underflow <==> ZoneDamaged(old(memory), ptr - REDZONE_SIZE))
          && (overflow <==> ZoneDamaged(old(memory), ptr + old(state).records[i].size))
    {
      aborted, underflow, overflow := false, false, false;
      if ptr == NULL {
        return;
      }
      var info := FindAllocInfo(ptr);
      ghost var k := Find(state.records, ptr);
      assert k < |infos| ==> SameRecord(k) && LinkedAt(k);
      if info == null || info.freed {
        aborted := true;
        return;
      }
      underflow := ScanZone(ptr - REDZONE_SIZE);
      overflow := ScanZone(ptr + info.size);
      ghost var after := Free(state, ptr).0;
      memory := Filled(memory, ptr, info.size, FILL_FREE_PATTERN);
      info.freed := true;
      state := after;
      forall i | 0 <= i < |infos| ensures LinkedAt(i) && SameRecord(i) {
        assert old(LinkedAt(i) && SameRecord(i));
      }
    }

    /** Freeing a live block after any run of the program: what is reported is exactly what the program
        has overrun, and nothing when all its writes stayed out of the red zones. */
    method FreeAfterRun(ptr: nat, ghost first: State, ghost steps: seq<Step>)
      returns (aborted: bool, underflow: bool, overflow: bool)
      requires Valid() && Empty(first) && Run(first, steps, state) && ptr in state.live
      modifies this`memory, this`state, infos
      ensures Valid() && !aborted && state.live == old(state).live - {ptr} && ptr >= REDZONE_SIZE
      ensures underflow <==> Overrun(old(state), ptr - REDZONE_SIZE)
      ensures overflow <==> Overrun(old(state), ptr + old(state).live[ptr])
      ensures Careful(first, steps) ==> !underflow && !overflow
    {
      hide Overrun, ZoneDamaged, Free, Careful, Run, Find, Inv, Empty;
      EmptyInv(first);
      RunKeepsInv(first, steps, state);
      ReportsAfterRun(first, steps, state, ptr);
      RunIsAccounted(first, steps, state);
      FreeOutcome(state, ptr);
      aborted, underflow, overflow := DebugFree(ptr);
    }

    /** `debug_realloc_impl`. */
    method DebugRealloc(ptr: nat, size: nat, raw: Option<nat>) returns (aborted: bool, newPtr: nat)
      requires Valid()
      modifies this, infos
      ensures Valid()
      ensures (state, if aborted then Aborted else Returned(newPtr)) == Realloc(old(state), ptr, size, raw)
    {
      aborted, newPtr := false, NULL;
      if ptr == NULL {
        newPtr := DebugMalloc(size, raw);
        return;
      }
      if size == 0 {
        var underflow, overflow;
        aborted, underflow, overflow := DebugFree(ptr);
        return;
      }
      var oldInfo := FindAllocInfo(ptr);
      ghost var k := Find(state.records, ptr);
      assert k < |infos| ==> SameRecord(k);
      newPtr := DebugMalloc(size, raw);
      if oldInfo == null || newPtr == NULL {
        return;
      }
      var copySize := if size < oldInfo.size then size else oldInfo.size;
      memory := Copied(memory, newPtr, ptr, copySize);
      state := state.(memory := memory);
      forall i | 0 <= i < |infos| ensures LinkedAt(i) && SameRecord(i) {
      }
      var underflow, overflow;
      aborted, underflow, overflow := DebugFree(ptr);
    }
  }
}
