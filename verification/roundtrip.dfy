/** Callers of the zero-copy interface: draining all pending bytes chunk by
    chunk, writing a byte string run by run, and the three test drivers of
    the library (tests/test20.c, test22.c, test23.c) replayed on the model. */
module RoundTrip {
  import opened Wrappers
  import opened RingBuf
  import opened Fifo

  /** Read everything pending through `ringbuf_get_next_chunk` and
      `ringbuf_mark_consumed` until the chunk comes back empty. */
  method Drain(r: Ring) returns (out: seq<Byte>, r': Ring)
    requires Valid(r)
    ensures Valid(r') && r'.n == r.n
    ensures out == Contents(r)
    ensures PendingSize(r') == 0 && FreeSpace(r') == r.n
  {
    out := [];
    r' := r;
    var s := GetNextChunk(r');
    while s.Run?
      invariant Valid(r') && r'.n == r.n
      invariant s == GetNextChunk(r')
      invariant out + Contents(r') == Contents(r)
      decreases r'.u
    {
      ChunkIsPrefix(r');
      ConsumeDrops(r', s.length);
      var chunk := r'.d[s.offset..s.offset + s.length];
      assert chunk + Contents(r')[s.length..] == Contents(r');
      out := out + chunk;
      r' := MarkConsumed(r', s.length);
      s := GetNextChunk(r');
    }
  }

  /** One step of a zero-copy writer: `memcpy` `w` into the run
      `ringbuf_get_writable` returned, then `ringbuf_wrote(|w|)`. */
  function FillAndCommit(r: Ring, w: seq<Byte>): (r': Ring)
    requires Valid(r) && |w| <= GetWritable(r).Length()
    ensures Valid(r') && r'.n == r.n && r'.o == r.o
    ensures FreeSpace(r') == FreeSpace(r) - |w|
    ensures Contents(r') == Contents(r) + w
  {
    ZeroCopyWrite(r, w);
    Wrote(WriteInto(r, r.i, w), |w|)
  }

  /** Write `data` through `ringbuf_get_writable` and `ringbuf_wrote`, filling
      each run as far as the remaining input reaches. */
  method WriteZeroCopy(r: Ring, data: seq<Byte>) returns (r': Ring)
    requires Valid(r) && |data| <= FreeSpace(r)
    ensures Valid(r') && r'.n == r.n && r'.o == r.o
    ensures Contents(r') == Contents(r) + data
  {
    r' := r;
    var done := 0;
    while done < |data|
      invariant Valid(r') && r'.n == r.n && r'.o == r.o
      invariant done <= |data|
      invariant |data| - done <= FreeSpace(r')
      invariant Contents(r') == Contents(r) + data[..done]
      decreases |data| - done
    {
      var k := Min(GetWritable(r').length, |data| - done);
      var w := data[done..done + k];
      assert data[..done + k] == data[..done] + w;
      r' := FillAndCommit(r', w);
      done := done + k;
    }
    assert data[..done] == data;
  }

  function Ascii(s: string): (b: seq<Byte>)
    requires forall k :: 0 <= k < |s| ==> s[k] < 128 as char
    ensures |b| == |s|
  {
    seq(|s|, k requires 0 <= k < |s| => s[k] as Byte)
  }

  /** tests/test20.c: a capacity-10 buffer offers all 10 bytes as one writable
      run, then none once full; the data comes back as one chunk, and then
      nothing. `garbage` is the allocator's uninitialised storage. */
  method Test20(garbage: seq<Byte>) returns (lens: seq<nat>, chunk: seq<Byte>)
    requires |garbage| == 10
    ensures lens == [10, 0, 10, 0]
    ensures chunk == Ascii("abcdefghik")
  {
    var r := New(10, Some(garbage)).value;
    var w := GetWritable(r);
    var msg := Ascii("abcdefghik");
    r := FillAndCommit(r, msg);
    var w2 := GetWritable(r);
    var c := GetNextChunk(r);
    ChunkIsPrefix(r);
    chunk := r.d[c.offset..c.offset + c.length];
    r := MarkConsumed(r, c.length);
    var c2 := GetNextChunk(r);
    lens := [w.Length(), w2.Length(), c.Length(), c2.Length()];
  }

  /** The shape of tests/test22.c and tests/test23.c: put `first`, consume it,
      then refill the buffer through two writable runs that straddle the end
      of storage, and read the two runs back as two chunks in write order. */
  method WrapAround(garbage: seq<Byte>, first: seq<Byte>, a: seq<Byte>, b: seq<Byte>)
    returns (lens: seq<nat>, chunks: seq<seq<Byte>>)
    requires |garbage| == 10
    requires 0 < |first| < 10 && |a| == 10 - |first| && |b| == |first|
    ensures lens == [|first|, |a|, |b|, |a|, |b|]
    ensures chunks == [first, a, b]
  {
    var m := |first|;
    var r := New(10, Some(garbage)).value;
    PutAppends(r, first);
    r := Put(r, first).1;
    assert r.u == m && r.i == m && r.o == 0 && Contents(r) == first;
    var c0 := GetNextChunk(r);
    ChunkIsPrefix(r);
    var got0 := r.d[c0.offset..c0.offset + c0.length];
    assert c0 == Run(0, m) && got0 == first;
    r := MarkConsumed(r, c0.length);
    assert r.u == 0 && r.i == m && r.o == m;

    var w1 := GetWritable(r);
    assert w1 == Run(m, |a|);
    r := FillAndCommit(r, a);
    assert r.u == |a| && r.i == 0 && r.o == m && Contents(r) == a;
    var w2 := GetWritable(r);
    assert w2 == Run(0, m);
    r := FillAndCommit(r, b);
    assert r.u == 10 && r.i == m && r.o == m && Contents(r) == a + b;

    var c1 := GetNextChunk(r);
    assert c1 == Run(m, |a|);
    ChunkIsPrefix(r);
    var got1 := r.d[c1.offset..c1.offset + c1.length];
    assert got1 == (a + b)[..|a|] == a;
    ConsumeDrops(r, c1.length);
    r := MarkConsumed(r, c1.length);
    assert r.u == m && r.i == m && r.o == 0 && Contents(r) == (a + b)[|a|..] == b;
    var c2 := GetNextChunk(r);
    assert c2 == Run(0, m);
    ChunkIsPrefix(r);
    var got2 := r.d[c2.offset..c2.offset + c2.length];
    assert got2 == b;
    lens := [c0.Length(), w1.Length(), w2.Length(), c1.Length(), c2.Length()];
    chunks := [got0, got1, got2];
  }

  /** tests/test22.c: "hello", then "abcde" and "fghij" in runs of 5 and 5. */
  method Test22(garbage: seq<Byte>) returns (lens: seq<nat>, chunks: seq<seq<Byte>>)
    requires |garbage| == 10
    ensures lens == [5, 5, 5, 5, 5]
    ensures chunks == [Ascii("hello"), Ascii("abcde"), Ascii("fghij")]
  {
    lens, chunks := WrapAround(garbage, Ascii("hello"), Ascii("abcde"), Ascii("fghij"));
  }

  /** tests/test23.c: "hello, ed", then "a" and "bcdefghij" in runs of 1 and 9. */
  method Test23(garbage: seq<Byte>) returns (lens: seq<nat>, chunks: seq<seq<Byte>>)
    requires |garbage| == 10
    ensures lens == [9, 1, 9, 1, 9]
    ensures chunks == [Ascii("hello, ed"), Ascii("a"), Ascii("bcdefghij")]
  {
    lens, chunks := WrapAround(garbage, Ascii("hello, ed"), Ascii("a"), Ascii("bcdefghij"));
  }
}
