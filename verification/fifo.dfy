/** FIFO behaviour of the ring buffer, stated through `Contents`: writes append,
    consumption drops from the front, descriptors describe the right bytes. */
module Fifo {
  import opened RingBuf

  /** The cursor invariant read as the three shapes the buffer can be in:
      contiguous, wrapped, or empty-or-full when the cursors meet. */
  predicate ShapeConsistent(r: Ring) {
    && (r.i > r.o ==> r.u == r.i - r.o)
    && (r.i < r.o ==> r.u == r.n - r.o + r.i)
    && (r.i == r.o ==> r.u == 0 || r.u == r.n)
  }

  /** `Valid`'s single cursor equation is exactly the shape description. */
  lemma ValidIffShape(r: Ring)
    requires InBounds(r)
    ensures Valid(r) <==> ShapeConsistent(r)
  {
  }

  /** `ringbuf_put` stores `data[j]` at `(i + j) % n` and touches no other byte. */
  lemma PutStorage(r: Ring, data: seq<Byte>)
    requires Valid(r) && |data| <= FreeSpace(r)
    ensures Put(r, data).0 == 0
    ensures forall p :: 0 <= p < r.n ==>
              Put(r, data).1.d[p] ==
                if Distance(r.i, p, r.n) < |data| then data[Distance(r.i, p, r.n)] else r.d[p]
  {
  }

  /** Put appends: the pending sequence grows by exactly `data`. */
  lemma PutAppends(r: Ring, data: seq<Byte>)
    requires Valid(r) && |data| <= FreeSpace(r)
    ensures Put(r, data).0 == 0
    ensures Contents(Put(r, data).1) == Contents(r) + data
  {
  }

  /** Consuming `len` bytes drops exactly the first `len` pending bytes. */
  lemma ConsumeDrops(r: Ring, len: nat)
    requires Valid(r) && len <= r.u
    ensures Contents(MarkConsumed(r, len)) == Contents(r)[len..]
  {
  }

  /** The descriptor `ringbuf_get_next_chunk` returns reads a non-empty prefix
      of the pending bytes. */
  lemma ChunkIsPrefix(r: Ring)
    requires Valid(r) && r.u > 0
    ensures GetNextChunk(r).Run?
    ensures var s := GetNextChunk(r);
            r.d[s.offset..s.offset + s.length] == Contents(r)[..s.length]
  {
  }

  /** Writing into the run `ringbuf_get_writable` describes leaves the pending
      bytes alone: that run lies wholly in free space. */
  lemma WritableIsFree(r: Ring, w: seq<Byte>)
    requires Valid(r) && |w| <= GetWritable(r).Length()
    ensures Valid(WriteInto(r, r.i, w))
    ensures Contents(WriteInto(r, r.i, w)) == Contents(r)
  {
  }

  /** Committing `len` bytes appends the bytes found at the write cursor. */
  lemma WroteAppends(r: Ring, len: nat)
    requires Valid(r) && len <= GetWritable(r).Length()
    ensures r.i + len <= r.n
    ensures Contents(Wrote(r, len)) == Contents(r) + r.d[r.i..r.i + len]
  {
  }

  /** The zero-copy write path: fill the writable run with `w`, then commit. */
  lemma ZeroCopyWrite(r: Ring, w: seq<Byte>)
    requires Valid(r) && |w| <= GetWritable(r).Length()
    ensures var r' := WriteInto(r, r.i, w);
            && Valid(r')
            && GetWritable(r') == GetWritable(r)
            && Contents(Wrote(r', |w|)) == Contents(r) + w
  {
  }

  /** A wrapped pending region takes two chunks: after consuming the first,
      the next chunk is everything that remains. */
  lemma ChunkThenRest(r: Ring)
    requires Valid(r) && r.u > 0
    ensures var r' := MarkConsumed(r, GetNextChunk(r).length);
            GetNextChunk(r').Length() == r'.u
  {
  }

  /** Likewise for free space: after committing a whole writable run, the next
      writable run is all the free space left. */
  lemma WritableThenRest(r: Ring)
    requires Valid(r) && r.u < r.n
    ensures var r' := Wrote(r, GetWritable(r).length);
            GetWritable(r').Length() == FreeSpace(r')
  {
  }
}
