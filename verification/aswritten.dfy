/** Two operations modelled exactly as src/ringbuf.c writes them, beside the
    corrected versions in `RingBuf`, with the inputs that separate the two. */
module AsWritten {
  import opened Wrappers
  import opened RingBuf

  /** `ringbuf_new` as written: any `sz` is accepted, including 0. */
  function NewAsWritten(sz: nat, block: Option<seq<Byte>>): (res: Option<Ring>)
    requires block.Some? ==> |block.value| == sz
    ensures res.None? <==> block.None?
    ensures res.Some? ==>
              && res.value.n == sz
              && res.value.u == 0 && res.value.i == 0 && res.value.o == 0
              && res.value.d == block.value
  {
    match block
    case None => None
    case Some(mem) => Some(Ring(sz, 0, 0, 0, mem))
  }

  /** A zero-sized `ringbuf_new` hands back a buffer outside the invariant
      (its cursors are then advanced modulo 0); the corrected `New` refuses
      exactly those sizes and agrees with the original everywhere else. */
  lemma NewAsWrittenZeroCapacity(sz: nat, mem: seq<Byte>)
    requires |mem| == sz
    ensures NewAsWritten(sz, Some(mem)).Some?
    ensures Valid(NewAsWritten(sz, Some(mem)).value) <==> sz > 0
    ensures New(sz, Some(mem)).Success? <==> Valid(NewAsWritten(sz, Some(mem)).value)
    ensures New(sz, Some(mem)).Success? ==> New(sz, Some(mem)).value == NewAsWritten(sz, Some(mem)).value
  {
  }

  /** `ringbuf_wrote` as written: its assertion bounds `len` only by the run
      from the write cursor, not by the free space. */
  function WroteAsWritten(r: Ring, len: nat): (r': Ring)
    requires Valid(r) && len <= WriteRun(r)
    ensures r'.n == r.n && r'.o == r.o && r'.d == r.d
    ensures r'.u == r.u + len
    ensures r'.i == Advance(r.i, len, r.n)
  {
    r.(u := r.u + len, i := Advance(r.i, len, r.n))
  }

  /** On every full buffer the assertion in `ringbuf_wrote` admits a one-byte
      commit, which leaves more bytes pending than the buffer holds. */
  lemma WroteAsWrittenOverfills(r: Ring)
    requires Valid(r) && r.u == r.n
    ensures 1 <= WriteRun(r)
    ensures WroteAsWritten(r, 1).u > WroteAsWritten(r, 1).n
    ensures !Valid(WroteAsWritten(r, 1))
  {
  }

  /** The corrected guard is the original one plus the free-space bound, and
      where both admit a length the two versions agree. */
  lemma WroteGuardCorrected(r: Ring, len: nat)
    requires Valid(r)
    ensures len <= GetWritable(r).Length() <==> len <= WriteRun(r) && len <= FreeSpace(r)
    ensures len <= GetWritable(r).Length() ==> WroteAsWritten(r, len) == Wrote(r, len)
  {
  }
}
