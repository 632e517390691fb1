/**
 The byte ring buffer: two pointers into a fixed buffer that may come to rest behind its last
 byte, refining a bounded first-in first-out queue.
 */
module RingBuffer {

  /** The cell of the `k`-th byte behind place `at`. */
  function Cell(at: nat, k: nat, size: nat): int {
    if at + k < size then at + k else at + k - size
  }

  /** The `n` bytes of the buffer from place `at` on, around its end. */
  ghost function Queue(b: seq<int>, at: nat, n: nat): (s: seq<int>)
    requires at <= |b| && n <= |b|
    ensures |s| == n && forall k :: 0 <= k < n ==> 0 <= Cell(at, k, |b|) < |b| && s[k] == b[Cell(at, k, |b|)]
  {
    seq(n, k requires 0 <= k < n => b[Cell(at, k, |b|)])
  }

  /** The first bytes of a queue come in one or two pieces, and the rest starts where they end. */
  lemma QueueSplit(b: seq<int>, at: nat, n: nat, m: nat)
    requires at <= |b| && m <= n <= |b|
    ensures at + m <= |b| ==> Queue(b, at, n)[..m] == b[at..at + m] && Queue(b, at, n)[m..] == Queue(b, at + m, n - m)
    ensures at + m > |b| ==>
              var r := at + m - |b|;
              Queue(b, at, n)[..m] == b[at..] + b[..r] && Queue(b, at, n)[m..] == Queue(b, r, n - m)
  {}

  /** `data` has been stored from place `at` on, around the end of the buffer. */
  ghost predicate StoredAround(b: seq<int>, at: nat, data: seq<int>, b': seq<int>) {
    |b'| == |b| && forall i :: 0 <= i < |b| ==>
      b'[i] == if at <= i < at + |data| then data[i - at]
               else if i < at + |data| - |b| && i + |b| >= at then data[i + |b| - at]
               else b[i]
  }

  /** Bytes stored behind the queue extend it. */
  lemma QueueExtend(b: seq<int>, at: nat, n: nat, wr: nat, data: seq<int>, b': seq<int>)
    requires at <= |b| && wr <= |b| && n + |data| <= |b| && (at + n == wr || at + n == wr + |b|)
    requires StoredAround(b, wr, data, b')
    ensures Queue(b', at, n + |data|) == Queue(b, at, n) + data
  {
    var q, r := Queue(b', at, n + |data|), Queue(b, at, n) + data;
    forall k | 0 <= k < n + |data| ensures q[k] == r[k] {}
  }

  class ERingBuffer {
    const buffer: array<int>
    const size: nat
    var readStream: nat   // offsets into the buffer, `size` included
    var writeStream: nat
    var used: nat

    ghost predicate Valid()
      reads this
    {
      && buffer.Length == size && used <= size && readStream <= size && writeStream <= size
      && (readStream + used == writeStream || readStream + used == writeStream + size)
    }

    /** The bytes in the queue, oldest first. */
    ghost function Contents(): (s: seq<int>)
      reads this, buffer
      requires Valid()
      ensures |s| == used
    {
      Queue(buffer[..], readStream, used)
    }

    constructor (memory: array<int>)
      ensures Valid() && buffer == memory && size == memory.Length && Contents() == []
    {
      buffer, size := memory, memory.Length;
      readStream, writeStream, used := 0, 0, 0;
    }

    /** Read up to `n` of the oldest bytes; peek unless `advance`. */
    method Read(n: nat, advance: bool) returns (data: seq<int>)
      requires Valid()
      modifies `readStream, `used
      ensures Valid() && |data| == (if n < old(used) then n else old(used)) && data == old(Contents())[..|data|]
      ensures Contents() == if advance then old(Contents())[|data|..] else old(Contents())
    {
      hide Queue;
      if used == 0 {
        return [];
      }
      var m := if n > used then used else n;
      var s0 := readStream;
      var s1 := size - s0;
      var r0 := if m <= s1 then m else s1;
      var r1 := if m > s1 then m - s1 else 0;
      QueueSplit(buffer[..], readStream, used, m);
      data := buffer[s0..s0 + r0];
      if r1 != 0 {
        data := data + buffer[..r1];
      }
      if advance {
        used := used - m;
        if r1 != 0 {
          readStream := r1;
        } else {
          readStream := readStream + r0;
        }
      }
    }

    /** memcpy into the buffer. */
    method CopyIn(at: nat, data: seq<int>)
      requires at + |data| <= buffer.Length
      modifies buffer
      ensures forall i :: 0 <= i < buffer.Length ==>
                buffer[i] == if at <= i < at + |data| then data[i - at] else old(buffer[i])
    {
      var i := 0;
      while i < |data|
        invariant 0 <= i <= |data|
        invariant forall j :: 0 <= j < buffer.Length ==>
                  buffer[j] == if at <= j < at + i then data[j - at] else old(buffer[j])
      {
        buffer[at + i] := data[i];
        i := i + 1;
      }
    }

    /** Append as many bytes as there is room for. */
    method Write(data: seq<int>) returns (n: nat)
      requires Valid()
      modifies `writeStream, `used, buffer
      ensures Valid() && n == (if |data| > size - old(used) then size - old(used) else |data|)
      ensures Contents() == old(Contents()) + data[..n]
    {
      hide Queue, StoredAround;
      ghost var b := buffer[..];
      n := if |data| > size - used then size - used else |data|;
      var s0 := writeStream;
      Store(data[..n]);
      QueueExtend(b, readStream, used, s0, data[..n], buffer[..]);
      used := used + n;
    }

    /** The one or two copies of a write. */
    method Store(data: seq<int>)
      requires buffer.Length == size && writeStream <= size && |data| <= size
      modifies `writeStream, buffer
      ensures StoredAround(old(buffer[..]), old(writeStream), data, buffer[..]) && writeStream <= size
      ensures writeStream == var w := old(writeStream) + |data|; if w <= size then w else w - size
    {
      var n := |data|;
      var s1 := size - writeStream;
      var w0 := if n <= s1 then n else s1;
      var w1 := if n > s1 then n - s1 else 0;
      CopyIn(writeStream, data[..w0]);
      if w1 != 0 {
        CopyIn(0, data[w0..w0 + w1]);
        writeStream := w1;
      } else {
        writeStream := writeStream + w0;
      }
    }
  }
}
