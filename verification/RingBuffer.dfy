/** kernel/lib/ringbuffer.c: a byte queue in a fixed array, one slot always left empty. */
module RingBuffers {
  import opened Bytes

  /** The bytes between the read and the write position, going round the end of the array. */
  function Window(b: seq<byte>, r: nat, w: nat): (s: seq<byte>)
    requires r <= |b| && w <= |b|
    ensures |s| == if r <= w then w - r else |b| - r + w
  {
    if r <= w then b[r..w] else b[r..] + b[..w]
  }

  /** A position that has reached the end of the array starts again at 0. */
  lemma Wraps(x: nat, n: nat)
    requires 0 < n && x <= n
    ensures x % n == if x == n then 0 else x
  {
  }

  /** One memcpy of the write loop appends its chunk to the window. */
  lemma PutChunk(b: seq<byte>, r: nat, w: nat, d: seq<byte>)
    requires r < |b| && w < |b| && w + |d| <= |b|
    requires |d| <= if r <= w then |b| - w - (if r == 0 then 1 else 0) else r - w - 1
    ensures Window(Splice(b, w, d), r, (w + |d|) % |b|) == Window(b, r, w) + d
  {
    Wraps(w + |d|, |b|);
    var s := Splice(b, w, d);
    if w + |d| == |b| {
      assert s[r..] == b[r..w] + d;
    } else if r <= w {
      assert s[r..w + |d|] == b[r..w] + d;
    } else {
      assert s[r..] == b[r..];
      assert s[..w + |d|] == b[..w] + d;
    }
  }

  /** One memcpy of the read loop takes its chunk off the front of the window. */
  lemma TakeChunk(b: seq<byte>, r: nat, w: nat, n: nat)
    requires r < |b| && w < |b| && r != w
    requires n <= if r < w then w - r else |b| - r
    ensures b[r..r + n] + Window(b, (r + n) % |b|, w) == Window(b, r, w)
  {
    Wraps(r + n, |b|);
    if r + n == |b| {
      assert b[r..r + n] == b[r..];
    } else if r < w {
      assert b[r..w] == b[r..r + n] + b[r + n..w];
    } else {
      assert b[r..] == b[r..r + n] + b[r + n..];
    }
  }

  lemma Regroup(a: seq<byte>, b: seq<byte>, c: seq<byte>)
    ensures a + b + c == a + (b + c)
  {
  }

  class RingBuffer {
    var buffer: array<byte>
    var readPtr: nat
    var writePtr: nat

    /** A freed or never allocated ring has size 0 and both positions at 0. */
    ghost predicate Valid()
      reads this
    {
      if buffer.Length == 0 then readPtr == writePtr == 0
      else readPtr < buffer.Length && writePtr < buffer.Length
    }

    ghost function Contents(): (s: seq<byte>)
      requires Valid()
      reads this, buffer
      ensures |s| <= if buffer.Length == 0 then 0 else buffer.Length - 1
    {
      Window(buffer[..], readPtr, writePtr)
    }

    /** ringbuffer_init with the allocation succeeding (size 0 is what a failed one leaves). */
    constructor (size: nat)
      ensures Valid() && fresh(buffer) && buffer.Length == size && Contents() == []
    {
      buffer := new byte[size](_ => 0);
      readPtr, writePtr := 0, 0;
    }

    function Used(): (n: nat)
      requires Valid()
      reads this, buffer
      ensures n == |Contents()|
    {
      if writePtr < readPtr then buffer.Length - readPtr + writePtr else writePtr - readPtr
    }

    /** Free bytes; with no storage the u32 subtraction wraps. */
    function Unused(): (n: nat)
      requires Valid() && buffer.Length < U32_END
      reads this, buffer
      ensures buffer.Length > 0 ==> n == buffer.Length - 1 - |Contents()|
      ensures buffer.Length == 0 ==> n == U32_END - 1
    {
      (buffer.Length - 1 - Used()) % U32_END
    }

    predicate IsEmpty()
      requires Valid()
      reads this, buffer
      ensures IsEmpty() <==> Contents() == []
    {
      writePtr == readPtr
    }

    /** Contiguous bytes the write position may still take before it meets the read position or the end. */
    function WriteRun(): (n: nat)
      requires Valid()
      reads this, buffer
      ensures n <= buffer.Length - writePtr
      ensures n == 0 <==> buffer.Length == 0 || |Contents()| == buffer.Length - 1
    {
      if writePtr >= readPtr then
        var left := buffer.Length - writePtr;
        if readPtr == 0 && left > 0 then left - 1 else left
      else
        readPtr - writePtr - 1
    }

    /** memcpy of one contiguous run, and the write position moved past it. */
    method Put(chunk: seq<byte>)
      requires Valid() && buffer.Length > 0 && |chunk| <= WriteRun()
      modifies this`writePtr, buffer
      ensures Valid() && Contents() == old(Contents()) + chunk
    {
      ghost var was := buffer[..];
      forall k | 0 <= k < |chunk| { buffer[writePtr + k] := chunk[k]; }
      assert buffer[..] == Splice(was, writePtr, chunk);
      PutChunk(was, readPtr, writePtr, chunk);
      Wraps(writePtr + |chunk|, buffer.Length);
      writePtr := (writePtr + |chunk|) % buffer.Length;
    }

    /** Accepts the longest prefix that fits and appends exactly that. */
    method Write(data: seq<byte>) returns (n: nat)
      requires Valid()
      modifies this`writePtr, buffer
      ensures Valid()
      ensures n == Min(|data|, if buffer.Length == 0 then 0 else buffer.Length - 1 - |old(Contents())|)
      ensures Contents() == old(Contents()) + data[..n]
    {
      hide Window, RingBuffer.Contents, RingBuffer.WriteRun;
      ghost var was := Contents();
      assert was + data[..0] == was;
      n := 0;
      while n < |data|
        invariant 0 <= n <= |data| && Valid()
        invariant Contents() == was + data[..n]
      {
        var left := WriteRun();
        if left == 0 { break; }
        var len := Min(Min(|data| - n, left), buffer.Length - writePtr);
        Put(data[n..n + len]);
        SliceJoin(data, 0, n, n + len);
        Regroup(was, data[..n], data[n..n + len]);
        n := n + len;
      }
    }

    /** A write that fits is taken whole. */
    method WriteWhole(data: seq<byte>)
      requires Valid() && |Contents()| + |data| < buffer.Length
      modifies this`writePtr, buffer
      ensures Valid() && Contents() == old(Contents()) + data
    {
      var n := Write(data);
      assert data[..n] == data;
    }

    /** memcpy of one contiguous run out of the ring, and the read position moved past it. */
    method Take(n: nat) returns (chunk: seq<byte>)
      requires Valid() && readPtr != writePtr
      requires n <= if readPtr >= writePtr then buffer.Length - readPtr else writePtr - readPtr
      modifies this`readPtr
      ensures Valid() && |chunk| == n && chunk + Contents() == old(Contents())
    {
      TakeChunk(buffer[..], readPtr, writePtr, n);
      chunk := buffer[readPtr..readPtr + n];
      Wraps(readPtr + n, buffer.Length);
      readPtr := (readPtr + n) % buffer.Length;
    }

    /** Removes up to `len` bytes from the front and hands them out in order. */
    method Read(len: nat) returns (out: seq<byte>)
      requires Valid()
      modifies this`readPtr
      ensures Valid()
      ensures |out| == Min(len, |old(Contents())|)
      ensures out + Contents() == old(Contents())
    {
      out := [];
      while |out| < len
        invariant |out| <= len && Valid() && buffer.Length == old(buffer.Length) && writePtr == old(writePtr)
        invariant out + Contents() == old(Contents())
      {
        if readPtr == writePtr { break; }
        var run := if readPtr >= writePtr then buffer.Length - readPtr else writePtr - readPtr;
        var chunk := Take(Min(len - |out|, run));
        Regroup(out, chunk, Contents());
        out := out + chunk;
      }
    }

    /** ringbuffer_free. */
    method Free()
      requires Valid()
      modifies this
      ensures Valid() && fresh(buffer) && buffer.Length == 0 && Contents() == []
    {
      buffer := new byte[0];
      readPtr, writePtr := 0, 0;
    }
  }
}
