/** A fixed-capacity circular byte buffer (libut's `ringbuf`).

    The state is four cursors over a byte array `d` of length `n`:
    `u` bytes are pending, starting at the read cursor `o` and wrapping at
    the end of `d`; the next byte is written at the write cursor `i`.
    Every operation is a pure function from the old state to the new one. */
module RingBuf {
  import opened Wrappers

  type Byte = bv8

  /** `sizeof(ringbuf)`: the header `ringbuf_take` carves out of the caller's
      region. Left abstract, so `Take` holds for every platform's header size
      (for example 32 bytes, four `size_t` fields, on an LP64 target). */
  const HeaderSize: nat

  /** The smallest region `ringbuf_take` accepts: the header plus one data byte. */
  const MinRingBuf: nat := HeaderSize + 1

  datatype Ring = Ring(
    n: nat,          // capacity, fixed at creation
    u: nat,          // number of pending (written, not yet consumed) bytes
    i: nat,          // write cursor: index of the next byte to write
    o: nat,          // read cursor: index of the next byte to read
    d: seq<Byte>     // the storage
  )

  /** A zero-copy descriptor: C's `(char *data, size_t len)` pair, with the
      pointer as an offset into `d` and `NULL` as `Null`. */
  datatype Span = Null | Run(offset: nat, length: nat) {
    function Length(): nat {
      if Null? then 0 else length
    }
  }

  /** Why construction failed. */
  datatype Error = OutOfMemory | ZeroCapacity

  /** `(p + len) % n` for the cursor updates; both operands are below `n`,
      so the sum wraps at most once. */
  function Advance(p: nat, len: nat, n: nat): (q: nat)
    requires 0 < n && p < n && len <= n
    ensures q < n
    ensures q == if p + len < n then p + len else p + len - n
  {
    if p + len >= n then WrapOnce(p + len, n); (p + len) % n
    else (p + len) % n
  }

  /** A sum in `[n, 2n)` reduces modulo `n` by one subtraction. */
  lemma WrapOnce(x: int, n: int)
    requires 0 < n <= x < 2 * n
    ensures x % n == x - n
  {
    var q, m := x / n, x % n;
    assert x == q * n + m && 0 <= m < n;
  }

  /** How far `p` lies ahead of `from` going round the ring. */
  function Distance(from: nat, p: nat, n: nat): (dist: nat)
    requires from < n && p < n
    ensures dist < n
    ensures Advance(from, dist, n) == p
  {
    if p >= from then p - from else p + n - from
  }

  /** The representation invariant. The write cursor is exactly `u` bytes
      ahead of the read cursor; with `u` tracked separately, `i == o` is
      either empty (`u == 0`) or full (`u == n`). */
  predicate Valid(r: Ring) {
    && InBounds(r)
    && r.i == Advance(r.o, r.u, r.n)
  }

  /** A positive capacity, storage of that length, and every counter in range. */
  predicate InBounds(r: Ring) {
    && 0 < r.n
    && |r.d| == r.n
    && r.u <= r.n
    && r.i < r.n
    && r.o < r.n
  }

  /** The abstraction function: the pending bytes in FIFO order. */
  function Contents(r: Ring): (c: seq<Byte>)
    requires Valid(r)
    ensures |c| == r.u
  {
    seq(r.u, k requires 0 <= k < r.u => r.d[Advance(r.o, k, r.n)])
  }

  /** `memcpy(&d[at], src, |src|)`. */
  function Splice(d: seq<Byte>, at: nat, src: seq<Byte>): (d': seq<Byte>)
    requires at + |src| <= |d|
    ensures |d'| == |d|
    ensures forall p :: 0 <= p < |d| ==>
              d'[p] == if at <= p < at + |src| then src[p - at] else d[p]
  {
    d[..at] + src + d[at + |src|..]
  }

  function Min(a: nat, b: nat): nat {
    if a < b then a else b
  }

  /** `ringbuf_new`, as corrected: `block` is what the allocator returned
      (`None` when it failed), holding the uninitialised storage bytes. A zero
      capacity is refused, since every later cursor update divides by `n`. */
  function New(sz: nat, block: Option<seq<Byte>>): (res: Result<Ring, Error>)
    requires block.Some? ==> |block.value| == sz
    ensures block.None? <==> res == Failure(OutOfMemory)
    ensures block.Some? ==> (res.Success? <==> sz > 0)
    ensures res.Success? ==>
              && Valid(res.value)
              && res.value.n == sz
              && res.value.d == block.value
              && res.value.u == 0 && res.value.i == 0 && res.value.o == 0
              && Contents(res.value) == []
  {
    match block
    case None => Failure(OutOfMemory)
    case Some(mem) =>
      if sz == 0 then Failure(ZeroCapacity)
      else Success(Ring(sz, 0, 0, 0, mem))
  }

  /** `ringbuf_take`: adopt the caller's `region`; the header occupies its first
      `HeaderSize` bytes and the rest becomes the storage. */
  function Take(region: seq<Byte>): (res: Option<Ring>)
    ensures res.None? <==> |region| < MinRingBuf
    ensures res.Some? ==>
              && Valid(res.value)
              && res.value.n == |region| - HeaderSize
              && res.value.d == region[HeaderSize..]
              && res.value.u == 0 && res.value.i == 0 && res.value.o == 0
              && Contents(res.value) == []
  {
    if |region| < MinRingBuf then None
    else
      var n := |region| - HeaderSize;
      assert n > 0;
      Some(Ring(n, 0, 0, 0, region[HeaderSize..]))
  }

  /** `ringbuf_get_freespace`. */
  function FreeSpace(r: Ring): (f: nat)
    requires Valid(r)
    ensures f + |Contents(r)| == r.n
  {
    r.n - r.u
  }

  /** `ringbuf_get_pending_size`. */
  function PendingSize(r: Ring): (p: nat)
    requires Valid(r)
    ensures p == |Contents(r)|
    ensures p + FreeSpace(r) == r.n
  {
    r.u
  }

  /** `ringbuf_put`: copy `data` in, or return -1 and change nothing when it
      does not fit. The copy is split at the end of storage when the free
      region wraps. */
  function Put(r: Ring, data: seq<Byte>): (res: (int, Ring))
    requires Valid(r)
    ensures res.0 == 0 || res.0 == -1
    ensures res.0 == -1 <==> |data| > FreeSpace(r)
    ensures res.0 == -1 ==> res.1 == r
    ensures res.0 == 0 ==>
              && Valid(res.1)
              && res.1.n == r.n
              && res.1.o == r.o
              && res.1.u == r.u + |data|
              && res.1.i == Advance(r.i, |data|, r.n)
  {
    var len := |data|;
    if r.i < r.o then
      // the free space is the single run [i, o)
      var a := r.o - r.i;
      assert a == r.n - r.u;
      if len > a then (-1, r)
      else (0, r.(d := Splice(r.d, r.i, data), i := Advance(r.i, len, r.n), u := r.u + len))
    else
      // the free space is [i, n) followed by [0, o)
      var b := r.n - r.i;
      var c := r.o;
      var a := if r.i == r.o then r.n - r.u else b + c;
      assert a == r.n - r.u;
      if len > a then (-1, r)
      else
        var d1 := Splice(r.d, r.i, data[..Min(b, len)]);
        var d2 := if len > b then Splice(d1, 0, data[b..]) else d1;
        (0, r.(d := d2, i := Advance(r.i, len, r.n), u := r.u + len))
  }

  /** `ringbuf_get_next_chunk`: the first contiguous run of pending bytes.
      A wrapped (or full) buffer yields only the run up to the end of storage. */
  function GetNextChunk(r: Ring): (s: Span)
    requires Valid(r)
    ensures s.Null? <==> r.u == 0
    ensures s.Run? ==>
              && s.offset == r.o
              && 1 <= s.length <= r.u
              && s.offset + s.length <= r.n
    ensures s.Run? && r.o < r.i ==> s.length == r.u
    ensures s.Run? && r.o >= r.i ==> s.offset + s.length == r.n && s.length + r.i == r.u
  {
    if r.o < r.i then
      assert r.u == r.i - r.o;
      Run(r.o, r.u)
    else if r.o == r.i && r.u == 0 then
      Null
    else
      var b := r.n - r.o;
      var c := r.i;
      assert r.u == b + c;
      Run(r.o, b)
  }

  /** `ringbuf_mark_consumed`: drop `len` pending bytes from the front. */
  function MarkConsumed(r: Ring, len: nat): (r': Ring)
    requires Valid(r) && len <= r.u
    ensures Valid(r')
    ensures r'.n == r.n && r'.i == r.i && r'.d == r.d
    ensures r'.u == r.u - len
    ensures r'.o == Advance(r.o, len, r.n)
  {
    r.(o := Advance(r.o, len, r.n), u := r.u - len)
  }

  /** `ringbuf_clear`: forget every pending byte; storage is kept. */
  function Clear(r: Ring): (r': Ring)
    requires Valid(r)
    ensures Valid(r')
    ensures r'.n == r.n && r'.d == r.d
    ensures r'.u == 0 && r'.i == 0 && r'.o == 0
    ensures Contents(r') == []
    ensures FreeSpace(r') == r.n && PendingSize(r') == 0
  {
    r.(u := 0, i := 0, o := 0)
  }

  /** The length of the run from the write cursor to the end of storage, or
      to the read cursor when that lies ahead; shared by `ringbuf_get_writable`
      and the check in `ringbuf_wrote`. */
  function WriteRun(r: Ring): nat
    requires r.i <= r.n
  {
    if r.i >= r.o then r.n - r.i else r.o - r.i
  }

  /** `ringbuf_get_writable`: the next contiguous run of free space, or `Null`
      when the buffer is full. */
  function GetWritable(r: Ring): (s: Span)
    requires Valid(r)
    ensures s.Null? <==> r.u == r.n
    ensures s.Run? ==>
              && s.offset == r.i
              && 1 <= s.length <= r.n - r.u
              && s.offset + s.length <= r.n
    ensures s.Run? ==> s.offset + s.length == r.n || s.offset + s.length == r.o
  {
    if r.n == r.u then Null
    else
      assert r.i == r.o ==> r.u == 0;
      Run(r.i, WriteRun(r))
  }

  /** The caller's `memcpy` into a descriptor it was handed. */
  function WriteInto(r: Ring, at: nat, w: seq<Byte>): (r': Ring)
    requires at + |w| <= |r.d|
    ensures r'.n == r.n && r'.u == r.u && r'.i == r.i && r'.o == r.o
    ensures |r'.d| == |r.d|
    ensures r'.d[at..at + |w|] == w
    ensures forall p :: 0 <= p < |r.d| && !(at <= p < at + |w|) ==> r'.d[p] == r.d[p]
  {
    r.(d := Splice(r.d, at, w))
  }

  /** `ringbuf_wrote`, as corrected: commit `len` bytes the caller wrote into
      the run `GetWritable` returned, and no more than that run. */
  function Wrote(r: Ring, len: nat): (r': Ring)
    requires Valid(r) && len <= GetWritable(r).Length()
    ensures Valid(r')
    ensures r'.n == r.n && r'.o == r.o && r'.d == r.d
    ensures r'.u == r.u + len
    ensures r'.i == Advance(r.i, len, r.n)
  {
    assert len <= WriteRun(r);
    r.(u := r.u + len, i := Advance(r.i, len, r.n))
  }
}
