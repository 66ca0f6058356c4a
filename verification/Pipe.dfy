/** The byte ring of the log library (non-sync pipes), proved to behave as a byte sequence. */
module Pipe {
  import opened Common

  const PIPE_ERR_NOT_OPENED := -1
  const PIPE_ERR_ALREADY_OPENED := -2
  const PIPE_ERR_WRITE_STOPPED := -3
  const PIPE_ERR_READ_STOPPED := -4

  function Min(a: nat, b: nat): nat {
    if a < b then a else b
  }

  /** The last n bytes, or all of them. */
  function Newest(s: Bytes, n: nat): (r: Bytes)
    ensures |r| == Min(|s|, n)
  {
    if |s| <= n then s else s[|s| - n..]
  }

  /** What is kept of pending bytes and new data. */
  lemma NewestRoom(s: Bytes, data: Bytes, n: nat)
    ensures |data| <= n ==> Newest(s, n - |data|) + data == Newest(s + data, n)
    ensures Newest(s, 0) + data == data
    ensures |s| <= n ==> Newest(s + [], n) == s
  {
    assert s + [] == s && s[|s|..] + data == data;
    if |data| <= n && |s| + |data| > n {
      assert (s + data)[|s| + |data| - n..] == s[|s| - (n - |data|)..] + data;
    }
  }

  function Bunch(bunch: nat): nat {
    if bunch < 1 then 1 else bunch
  }

  /** How many bytes a read waits for. */
  function Threshold(atLeast: nat, bunch: nat): nat {
    var l := atLeast - atLeast % Bunch(bunch);
    if l < Bunch(bunch) then Bunch(bunch) else l
  }

  /** How many of the pending bytes a read of `size` takes: as many whole bunches as there are. */
  function Taken(pending: nat, size: nat, bunch: nat): (n: nat)
    ensures n == Min(size, pending) / Bunch(bunch) * Bunch(bunch) <= Min(size, pending)
    ensures Min(size, pending) - n < Bunch(bunch)
  {
    var n := Min(size, pending);
    n - n % Bunch(bunch)
  }

  // ---------- the ring as a sequence ----------

  function Wrapped(i: nat, size: nat): nat {
    if i < size then i else i - size
  }

  /** The n bytes from index r on, going round. */
  function Ring(b: Bytes, r: nat, n: nat): (s: Bytes)
    requires r <= |b| && n <= |b|
    ensures |s| == n
    ensures forall i :: 0 <= i < n ==> s[i] == b[Wrapped(r + i, |b|)]
  {
    if r + n <= |b| then b[r..r + n] else b[r..] + b[..r + n - |b|]
  }

  lemma RingTaken(b: Bytes, r: nat, n: nat, k: nat)
    requires r < |b| && k <= n <= |b|
    ensures Ring(b, Wrapped(r + k, |b|), n - k) == Ring(b, r, n)[k..]
    ensures Ring(b, r, k) == Ring(b, r, n)[..k]
  {
    hide Ring;
    var all, rest := Ring(b, r, n), Ring(b, Wrapped(r + k, |b|), n - k);
    forall i | 0 <= i < n - k ensures rest[i] == all[k..][i] {
      assert all[k..][i] == all[k + i];
    }
  }

  predicate KeptByte(b: Bytes, b': Bytes, r: nat, i: nat)
    requires r <= |b| == |b'| && i < |b|
  {
    b'[Wrapped(r + i, |b|)] == b[Wrapped(r + i, |b|)]
  }

  predicate StoredByte(b: Bytes, w: nat, data: Bytes, i: nat)
    requires w < |b| && i < |data| <= |b|
  {
    b[Wrapped(w + i, |b|)] == data[i]
  }

  /** Index i is one of the n that follow w, going round. */
  predicate Between(i: nat, w: nat, n: nat, size: nat) {
    w <= i < w + n || i + size < w + n
  }

  lemma RingStored(b: Bytes, b': Bytes, r: nat, n: nat, w: nat, data: Bytes)
    requires r < |b| == |b'| && n + |data| <= |b| && w == Wrapped(r + n, |b|)
    requires forall i :: 0 <= i < n ==> KeptByte(b, b', r, i)
    requires forall i :: 0 <= i < |data| ==> StoredByte(b', w, data, i)
    ensures Ring(b', r, n + |data|) == Ring(b, r, n) + data
  {
    hide Ring;
    var left, right := Ring(b', r, n + |data|), Ring(b, r, n) + data;
    forall i | 0 <= i < n + |data| ensures left[i] == right[i] {
      if i < n {
        assert KeptByte(b, b', r, i);
      } else {
        assert StoredByte(b', w, data, i - n);
        assert Wrapped(r + i, |b|) == Wrapped(w + (i - n), |b|);
      }
    }
  }

  /** The bytes that a looping write of n bytes pushes out. */
  function Overwritten(bytes: nat, size: nat, n: nat): int
    requires bytes <= size
  {
    if n <= size - bytes then 0
    else
      var over := n - (size - bytes);
      var over := if over > n then n else over;
      if over > size then size else over
  }

  /** Pushing out never takes more than is pending, except for a write longer than the ring. */
  lemma OverwriteSafe(bytes: nat, size: nat, n: nat)
    requires bytes <= size
    ensures Overwritten(bytes, size, n) <= bytes <==> n <= size || bytes == size
    ensures n <= size || bytes == size ==>
      Overwritten(bytes, size, n) == if n > size - bytes then bytes + Min(n, size) - size else 0
  {
  }

  class Pipe {
    var isOpen: bool
    var stopRead: bool
    var stopWrite: bool
    var loopOverwrite: bool
    var size: nat
    var bytes: nat
    var readPtr: nat
    var writePtr: nat
    var buffer: array<byte>
    var readedBytes: nat
    var writtenBytes: nat
    ghost var overwritten: nat

    ghost predicate Valid()
      reads this
    {
      && buffer.Length == size && bytes <= size
      && (size > 0 ==> readPtr < size) && (size == 0 ==> readPtr == 0)
      && writePtr == Wrapped(readPtr + bytes, size)
      && writtenBytes == readedBytes + overwritten + bytes
      && (!isOpen ==> size == 0)
    }

    /** The pending bytes, oldest first. */
    ghost function Contents(): (r: Bytes)
      requires Valid()
      reads this, buffer
      ensures |r| == bytes
    {
      Ring(buffer[..], readPtr, bytes)
    }

    constructor ()
      ensures Valid() && !isOpen && fresh(buffer)
    {
      isOpen, stopRead, stopWrite, loopOverwrite := false, false, false, false;
      size, bytes, readPtr, writePtr, readedBytes, writtenBytes, overwritten := 0, 0, 0, 0, 0, 0, 0;
      buffer := new byte[0];
    }

    /** `pipe_open` with sync 0. */
    method Open(size: nat) returns (r: int)
      requires Valid()
      modifies this
      ensures Valid()
      ensures old(isOpen) ==> r == PIPE_ERR_ALREADY_OPENED && Contents() == old(Contents()) && buffer == old(buffer)
      ensures !old(isOpen) ==> r == 0 && isOpen && this.size == size && Contents() == [] && fresh(buffer)
      ensures !old(isOpen) ==> !stopRead && !stopWrite && !loopOverwrite && writtenBytes == overwritten == 0
    {
      hide Ring;
      if isOpen {
        return PIPE_ERR_ALREADY_OPENED;
      }
      stopRead, stopWrite, loopOverwrite := false, false, false;
      this.size, bytes, readPtr, writePtr := size, 0, 0, 0;
      readedBytes, writtenBytes, overwritten := 0, 0, 0;
      isOpen := true;
      buffer := new byte[size];
      return 0;
    }

    /** `pipe_close`, once no reader or writer is inside. */
    method Close()
      requires Valid()
      modifies this
      ensures Valid() && !isOpen && Contents() == []
      ensures old(isOpen) ==> fresh(buffer)
    {
      if !isOpen {
        return;
      }
      isOpen, stopRead, stopWrite, loopOverwrite := false, false, false, false;
      size, bytes, readPtr, writePtr := 0, 0, 0, 0;
      readedBytes, writtenBytes, overwritten := 0, 0, 0;
      buffer := new byte[0];
    }

    /** `pipe_set_loop_overwrite` on a non-sync pipe. */
    method SetLoopOverwrite(on: bool) returns (r: int)
      requires Valid()
      modifies this`loopOverwrite
      ensures Valid() && r == (if isOpen then 0 else PIPE_ERR_NOT_OPENED)
      ensures loopOverwrite == (if isOpen then on else old(loopOverwrite))
    {
      if !isOpen {
        return PIPE_ERR_NOT_OPENED;
      }
      loopOverwrite := on;
      return 0;
    }

    /** `pipe_clone`. */
    method Clone(to: Pipe)
      requires Valid() && to.Valid() && to != this && to.buffer != buffer
      modifies to, to.buffer
      ensures to.Valid() && to.buffer == old(to.buffer)
      ensures isOpen == to.isOpen == old(to.isOpen) && size == old(to.size) ==>
        to.Contents() == Contents() && to.size == size && to.loopOverwrite == loopOverwrite
        && to.stopRead == stopRead && to.stopWrite == stopWrite
        && to.readedBytes == readedBytes && to.writtenBytes == writtenBytes && to.overwritten == overwritten
      ensures isOpen != old(to.isOpen) || size != old(to.size) ==>
        to.isOpen == old(to.isOpen) && to.Contents() == old(to.Contents())
    {
      hide Ring;
      var fromSize, toSize := GetSize(), to.GetSize();
      if fromSize != toSize {
        return;
      }
      to.isOpen, to.stopRead, to.stopWrite, to.loopOverwrite := isOpen, stopRead, stopWrite, loopOverwrite;
      to.size, to.bytes, to.readPtr, to.writePtr := size, bytes, readPtr, writePtr;
      to.readedBytes, to.writtenBytes, to.overwritten := readedBytes, writtenBytes, overwritten;
      CopyIn(to.buffer, 0, buffer[..]);
      assert to.buffer[..] == buffer[..];
    }

    /** `pipe_get_size`. */
    function GetSize(): int
      reads this
    {
      if isOpen then size else PIPE_ERR_NOT_OPENED
    }

    /** Copy the next n pending bytes out, in one or two pieces. */
    method CopyPending(dst: array<byte>, n: nat)
      requires Valid() && n <= bytes && n <= dst.Length && dst != buffer
      modifies dst
      ensures dst[..n] == Contents()[..n] && dst[n..] == old(dst[n..])
    {
      hide Ring;
      if size - readPtr >= n {
        CopyIn(dst, 0, buffer[readPtr..readPtr + n]);
      } else {
        var size1 := size - readPtr;
        CopyIn(dst, 0, buffer[readPtr..readPtr + size1]);
        CopyIn(dst, size1, buffer[..n - size1]);
      }
    }

    /** `pipe_peek`, whenever it need not wait for more bytes. */
    method Peek(dst: array<byte>, size: nat, atLeast: nat, bunch: nat) returns (r: int)
      requires Valid() && dst != buffer && size <= dst.Length
      requires bytes == 0 || stopWrite || Threshold(atLeast, bunch) <= bytes
      modifies dst
      ensures r == ReadResult(size, bunch)
      ensures r >= 0 ==> r <= size && r <= bytes && dst[..r] == Contents()[..r] && dst[r..] == old(dst[r..])
      ensures r < 0 ==> dst[..] == old(dst[..])
    {
      if !isOpen {
        return PIPE_ERR_NOT_OPENED;
      }
      if bytes == 0 {
        return if stopWrite then PIPE_ERR_WRITE_STOPPED else 0;
      }
      var n := Taken(bytes, size, bunch);
      CopyPending(dst, n);
      return n;
    }

    /** What a read or peek returns: an error, or the number of bytes it takes. */
    function ReadResult(size: nat, bunch: nat): int
      reads this
    {
      if !isOpen then PIPE_ERR_NOT_OPENED
      else if bytes == 0 then if stopWrite then PIPE_ERR_WRITE_STOPPED else 0
      else Taken(bytes, size, bunch)
    }

    /** `pipe_read`, whenever it need not wait for more bytes. */
    method Read(dst: array<byte>, size: nat, atLeast: nat, bunch: nat) returns (r: int)
      requires Valid() && dst != buffer && size <= dst.Length
      requires bytes == 0 || stopWrite || Threshold(atLeast, bunch) <= bytes
      modifies this`bytes, this`readPtr, this`readedBytes, dst
      ensures Valid() && r == old(ReadResult(size, bunch))
      ensures r >= 0 ==>
        && r <= size && r <= old(bytes)
        && dst[..r] == old(Contents())[..r] && dst[r..] == old(dst[r..])
        && Contents() == old(Contents())[r..] && readedBytes == old(readedBytes) + r
      ensures r < 0 ==> dst[..] == old(dst[..]) && Contents() == old(Contents()) && readedBytes == old(readedBytes)
    {
      if !isOpen {
        return PIPE_ERR_NOT_OPENED;
      }
      if bytes == 0 {
        return if stopWrite then PIPE_ERR_WRITE_STOPPED else 0;
      }
      hide Ring, Taken;
      var n := Taken(bytes, size, bunch);
      CopyPending(dst, n);
      Consume(n);
      return n;
    }

    /** Step over the n oldest pending bytes. */
    method Consume(n: nat)
      requires Valid() && 0 < bytes && n <= bytes
      modifies this`bytes, this`readPtr, this`readedBytes
      ensures Valid() && Contents() == old(Contents())[n..] && readedBytes == old(readedBytes) + n
    {
      hide Ring;
      RingTaken(buffer[..], readPtr, bytes, n);
      if size - readPtr >= n {
        readPtr := readPtr + n;
        if readPtr >= size {
          readPtr := 0;
        }
      } else {
        readPtr := n - (size - readPtr);
      }
      bytes := bytes - n;
      readedBytes := readedBytes + n;
    }

    /** Drop the k oldest pending bytes. */
    method DropOldest(k: nat)
      requires Valid() && size > 0 && k <= bytes
      modifies this`bytes, this`readPtr, this`overwritten
      ensures Valid() && Contents() == old(Contents())[k..]
    {
      hide Ring;
      RingTaken(buffer[..], readPtr, bytes, k);
      bytes := bytes - k;
      readPtr := readPtr + k;
      if readPtr >= size {
        readPtr := readPtr - size;
      }
      overwritten := overwritten + k;
    }

    /** Push out the oldest bytes so that n more fit, or as many as the ring holds. */
    method MakeRoom(n: nat)
      requires Valid() && size > 0 && (n <= size || bytes == size)
      modifies this`bytes, this`readPtr, this`overwritten
      ensures Valid() && bytes + Min(n, size) <= size
      ensures Contents() == Newest(old(Contents()), size - Min(n, size))
    {
      hide Ring, Overwritten;
      OverwriteSafe(bytes, size, n);
      if n > size - bytes {
        DropOldest(Overwritten(bytes, size, n));
      }
    }

    /** Copy data to the write position, in one or two pieces. */
    method Place(data: Bytes)
      requires writePtr < size == buffer.Length && |data| <= size
      modifies this`writePtr, buffer
      ensures writePtr == Wrapped(old(writePtr) + |data|, size)
      ensures forall i :: 0 <= i < |data| ==> StoredByte(buffer[..], old(writePtr), data, i)
      ensures forall i :: 0 <= i < size && !Between(i, old(writePtr), |data|, size) ==> buffer[i] == old(buffer[i])
    {
      var n := |data|;
      if size - writePtr >= n {
        CopyIn(buffer, writePtr, data);
        writePtr := writePtr + n;
        if writePtr >= size {
          writePtr := 0;
        }
      } else {
        var size1 := size - writePtr;
        CopyIn(buffer, writePtr, data[..size1]);
        CopyIn(buffer, 0, data[size1..]);
        writePtr := n - size1;
      }
    }

    /** Copy data that fits behind the pending bytes. */
    method Store(data: Bytes)
      requires Valid() && size > 0 && bytes + |data| <= size
      modifies this`bytes, this`writePtr, this`writtenBytes, buffer
      ensures Valid() && Contents() == old(Contents()) + data && writtenBytes == old(writtenBytes) + |data|
    {
      hide Ring;
      Place(data);
      ghost var was := old(buffer[..]);
      forall i | 0 <= i < bytes ensures KeptByte(was, buffer[..], readPtr, i) {
        assert !Between(Wrapped(readPtr + i, size), old(writePtr), |data|, size);
      }
      RingStored(was, buffer[..], readPtr, bytes, old(writePtr), data);
      bytes := bytes + |data|;
      writtenBytes := writtenBytes + |data|;
    }

    /** `pipe_write`, except of more than `size` bytes to a looping pipe that is not full
        (`OverwriteSafe`: the count of pending bytes would wrap below zero). */
    method Write(data: Bytes) returns (r: int)
      requires Valid() && (loopOverwrite ==> |data| <= size || bytes == size > 0)
      modifies this`bytes, this`readPtr, this`writePtr, this`writtenBytes, this`overwritten, buffer
      ensures Valid()
      ensures r < 0 <==> !isOpen || stopRead
      ensures r < 0 ==> r == (if isOpen then PIPE_ERR_READ_STOPPED else PIPE_ERR_NOT_OPENED)
      ensures r < 0 ==> Contents() == old(Contents()) && writtenBytes == old(writtenBytes)
      ensures r >= 0 && loopOverwrite && |data| <= size ==>
        r == |data| && Contents() == Newest(old(Contents()) + data, size)
      ensures r >= 0 && loopOverwrite && |data| > size ==> r == size && Contents() == data[..size]
      ensures r >= 0 && !loopOverwrite ==>
        r == Min(|data|, size - old(bytes)) && Contents() == old(Contents()) + data[..r]
      ensures r >= 0 ==> writtenBytes == old(writtenBytes) + r
    {
      hide Ring, Newest;
      NewestRoom(Contents(), data, size);
      if !isOpen {
        return PIPE_ERR_NOT_OPENED;
      }
      if stopRead {
        return PIPE_ERR_READ_STOPPED;
      }
      if |data| == 0 {
        assert data == [];
        return 0;
      }
      if bytes == size && !loopOverwrite {
        return 0;
      }
      if loopOverwrite {
        MakeRoom(|data|);
      }
      var n := if |data| > size - bytes then size - bytes else |data|;
      Store(data[..n]);
      assert n == |data| ==> data[..n] == data;
      return n;
    }

    /** `pipe_stop_write`. */
    method StopWrite()
      requires Valid()
      modifies this`stopWrite
      ensures Valid() && stopWrite == (old(stopWrite) || isOpen)
    {
      if isOpen {
        stopWrite := true;
      }
    }

    /** `pipe_stop_read`. */
    method StopRead()
      requires Valid()
      modifies this`stopRead
      ensures Valid() && stopRead == (old(stopRead) || isOpen)
    {
      if isOpen {
        stopRead := true;
      }
    }
  }

  /** `memcpy` of data to index `at`. */
  method CopyIn(dst: array<byte>, at: nat, data: Bytes)
    requires at + |data| <= dst.Length
    modifies dst
    ensures forall i :: 0 <= i < dst.Length ==>
      dst[i] == if at <= i < at + |data| then data[i - at] else old(dst[i])
  {
    forall i | 0 <= i < |data| {
      dst[at + i] := data[i];
    }
  }
}
