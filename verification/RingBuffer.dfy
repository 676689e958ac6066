/**
 The byte ring of `quectel/common/src/ringbuffer.c`.

 The class keeps the source's fields; `Contents` is the byte string a reader will see. Every
 access is one serialised call: the source takes no lock of its own.
 */
module RingBuffers {
  import opened Bytes

  /** The `size` bytes that start at `head` in a circular store. */
  function Window(store: seq<byte>, head: nat, size: nat): (w: seq<byte>)
    requires head <= |store| && size <= |store|
    ensures |w| == size
    ensures forall i :: 0 <= i < size ==>
      w[i] == store[if head + i < |store| then head + i else head + i - |store|]
  {
    if head + size <= |store| then store[head..head + size]
    else store[head..] + store[..head + size - |store|]
  }

  class RingBuffer {
    const buffer: array<byte>
    const bufferSize: nat
    var size: nat
    var head: nat
    var tail: nat

    ghost predicate Valid()
      reads this
    {
      && bufferSize <= buffer.Length && bufferSize < U16
      && size <= bufferSize
      && (if bufferSize == 0 then head == 0 && tail == 0
          else head < bufferSize && tail == Wrapped(head + size, bufferSize))
    }

    ghost function Contents(): (s: seq<byte>)
      requires Valid()
      reads this, buffer
      ensures |s| == size
    {
      Window(buffer[..bufferSize], head, size)
    }

    constructor (pool: array<byte>, poolSize: nat)
      requires poolSize <= pool.Length && poolSize < U16
      ensures buffer == pool
      ensures bufferSize % 4 == 0 && poolSize - 3 <= bufferSize <= poolSize
      ensures Valid() && Contents() == []
    {
      buffer := pool;
      bufferSize := poolSize / 4 * 4;
      head := 0;
      tail := 0;
      size := 0;
    }

    function Length(): nat
      reads this
    {
      size
    }

    /** Appends as much of `data` as fits; the number of bytes taken is returned. */
    method Put(data: seq<byte>) returns (written: nat)
      requires Valid() && |data| < U16
      modifies this`size, this`tail, buffer
      ensures Valid()
      ensures written == Min(|data|, bufferSize - old(size))
      ensures Contents() == old(Contents()) + data[..written]
      ensures buffer[bufferSize..] == old(buffer[bufferSize..])
    {
      var freeLen := bufferSize - size;
      var writeLen := Min(|data|, freeLen);
      if writeLen == 0 {
        return 0;
      }
      hide Window, Spliced;
      WindowGrows(buffer[..bufferSize], head, size, data[..writeLen]);
      tail := CopyToTail(tail, data[..writeLen]);
      size := size + writeLen;
      written := writeLen;
    }

    /** The copying half of `ringbuffer_put`: one or two `memcpy`, then the new tail. */
    method CopyToTail(t: nat, data: seq<byte>) returns (newTail: nat)
      requires bufferSize <= buffer.Length && t < bufferSize && 0 < |data| <= bufferSize
      modifies buffer
      ensures buffer[..bufferSize] == Spliced(old(buffer[..bufferSize]), t, data)
      ensures buffer[bufferSize..] == old(buffer[bufferSize..])
      ensures newTail == Wrapped(t + |data|, bufferSize)
    {
      var contiguous := bufferSize - t;
      if |data| <= contiguous {
        CopyIn(buffer, t, data);
        newTail := Modulo(t + |data|, bufferSize);
      } else {
        CopyIn(buffer, t, data[..contiguous]);
        CopyIn(buffer, 0, data[contiguous..]);
        newTail := |data| - contiguous;
      }
    }

    /** Moves the oldest bytes into `data`, at most `n` of them. */
    method Get(data: array<byte>, n: nat) returns (taken: nat)
      requires Valid() && n <= data.Length && n < U16 && data != buffer
      modifies this`size, this`head, data
      ensures Valid()
      ensures taken == Min(n, old(size))
      ensures data[..] == old(Contents())[..taken] + old(data[..])[taken..]
      ensures Contents() == old(Contents())[taken..]
    {
      var readLen := Min(n, size);
      if readLen == 0 {
        return 0;
      }
      hide Window;
      ghost var store := buffer[..bufferSize];
      var h := head;
      WindowShrinks(store, h, size, readLen);
      head := CopyFromHead(h, data, readLen);
      size := size - readLen;
      assert buffer[..bufferSize] == store;
      taken := readLen;
    }

    /** The copying half of `ringbuffer_get`: one or two `memcpy`, then the new head. */
    method CopyFromHead(h: nat, data: array<byte>, n: nat) returns (newHead: nat)
      requires bufferSize <= buffer.Length && h < bufferSize && 0 < n <= bufferSize
      requires n <= data.Length && data != buffer
      modifies data
      ensures data[..] == Window(buffer[..bufferSize], h, n) + old(data[n..])
      ensures newHead == Wrapped(h + n, bufferSize)
    {
      var contiguous := bufferSize - h;
      if n <= contiguous {
        CopyIn(data, 0, buffer[h..h + n]);
        newHead := Modulo(h + n, bufferSize);
      } else {
        CopyIn(data, 0, buffer[h..bufferSize]);
        CopyIn(data, contiguous, buffer[..n - contiguous]);
        newHead := n - contiguous;
      }
    }
  }

  /** `memcpy(dst + at, src, |src|)`. */
  method CopyIn(dst: array<byte>, at: nat, src: seq<byte>)
    requires at + |src| <= dst.Length
    modifies dst
    ensures forall k :: 0 <= k < dst.Length ==>
      dst[k] == if at <= k < at + |src| then src[k - at] else old(dst[k])
  {
    forall i | 0 <= i < |src| {
      dst[at + i] := src[i];
    }
  }

  /** `store` with `data` written from index `t` on, cyclically. */
  ghost function Spliced(store: seq<byte>, t: nat, data: seq<byte>): (r: seq<byte>)
    requires t <= |store| && |data| <= |store|
    ensures |r| == |store|
  {
    seq(|store|, k requires 0 <= k < |store| =>
      if t <= k < t + |data| then data[k - t]
      else if k + |store| < t + |data| then data[k + |store| - t]
      else store[k])
  }

  /** Writing at the tail appends to the window. */
  lemma WindowGrows(store: seq<byte>, head: nat, size: nat, data: seq<byte>)
    requires head < |store| && size + |data| <= |store|
    ensures Window(Spliced(store, Wrapped(head + size, |store|), data), head, size + |data|)
         == Window(store, head, size) + data
  {
    var t := Wrapped(head + size, |store|);
    var store' := Spliced(store, t, data);
    var now, before := Window(store', head, size + |data|), Window(store, head, size);
    forall k | 0 <= k < size + |data|
      ensures now[k] == (before + data)[k]
    {
      var at := Wrapped(head + k, |store|);
      assert now[k] == store'[at];
      if k < size {
        assert before[k] == store[at];
        assert !(t <= at < t + |data|) && !(at + |store| < t + |data|);
      } else {
        assert at == Wrapped(t + (k - size), |store|);
      }
    }
    assert now == before + data;
  }

  /** Moving the head forward drops the oldest bytes of the window. */
  lemma WindowShrinks(store: seq<byte>, head: nat, size: nat, n: nat)
    requires head < |store| && n <= size <= |store|
    ensures Window(store, head, size)[..n] == Window(store, head, n)
    ensures Window(store, Wrapped(head + n, |store|), size - n) == Window(store, head, size)[n..]
  {
  }

  /** `x % m` for an index that has run past the end at most once. */
  function Wrapped(x: nat, m: nat): nat
  {
    if x < m then x else x - m
  }

  lemma WrappedIsModulo(x: nat, m: nat)
    requires 0 < m && x < 2 * m
    ensures Wrapped(x, m) == x % m
  {
    if x >= m {
      assert x == m * 1 + (x - m);
      assert (x - m) % m == x - m;
    }
  }

  method Modulo(x: nat, m: nat) returns (r: nat)
    requires 0 < m && x < 2 * m
    ensures r == Wrapped(x, m) == x % m
  {
    WrappedIsModulo(x, m);
    r := x % m;
  }

  // ----- Whole runs: the ring refines a bounded FIFO -----

  datatype Call = PutCall(data: seq<byte>) | GetCall(n: nat)

  /** A FIFO of bounded capacity, with everything it ever accepted and gave out. */
  datatype Fifo = Fifo(capacity: nat, contents: seq<byte>, accepted: seq<byte>, taken: seq<byte>)

  function Step(f: Fifo, c: Call): Fifo
    requires |f.contents| <= f.capacity
  {
    match c
    case PutCall(data) =>
      var d := data[..Min(|data|, f.capacity - |f.contents|)];
      f.(contents := f.contents + d, accepted := f.accepted + d)
    case GetCall(n) =>
      var k := Min(n, |f.contents|);
      f.(contents := f.contents[k..], taken := f.taken + f.contents[..k])
  }

  function Run(f: Fifo, calls: seq<Call>): (r: Fifo)
    requires |f.contents| <= f.capacity
    ensures r.capacity == f.capacity && |r.contents| <= r.capacity
    decreases |calls|
  {
    if calls == [] then f
    else Step(Run(f, calls[..|calls| - 1]), calls[|calls| - 1])
  }

  /** Nothing is lost, repeated or reordered: what went in is what came out plus what is left. */
  lemma {:induction false} FifoConserves(f: Fifo, calls: seq<Call>)
    requires |f.contents| <= f.capacity && f.accepted == f.taken + f.contents
    ensures var r := Run(f, calls); r.accepted == r.taken + r.contents
    decreases |calls|
  {
    if calls == [] {
    } else {
      FifoConserves(f, calls[..|calls| - 1]);
    }
  }

  /** Any sequence of calls on a fresh ring behaves like the FIFO, byte for byte. */
  method Serve(rb: RingBuffer, calls: seq<Call>) returns (taken: seq<byte>)
    requires rb.Valid() && rb.Contents() == []
    requires forall c :: c in calls ==>
      if c.PutCall? then |c.data| < U16 else c.n < U16
    modifies rb, rb.buffer
    ensures rb.Valid()
    ensures var r := Run(Fifo(rb.bufferSize, [], [], []), calls);
      rb.Contents() == r.contents && taken == r.taken
  {
    ghost var start := Fifo(rb.bufferSize, [], [], []);
    taken := [];
    for i := 0 to |calls|
      invariant rb.Valid()
      invariant rb.Contents() == Run(start, calls[..i]).contents
      invariant taken == Run(start, calls[..i]).taken
    {
      assert calls[..i + 1][..i] == calls[..i];
      match calls[i] {
        case PutCall(data) =>
          var _ := rb.Put(data);
        case GetCall(n) =>
          var out := new byte[n](_ => 0);
          var k := rb.Get(out, n);
          taken := taken + out[..k];
      }
    }
    assert calls[..|calls|] == calls;
  }
}
