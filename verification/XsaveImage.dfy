/**
 Reading and writing the vector registers inside an XSAVE image, in place.

 A register has eight 64-bit chunks. Chunks of registers 0 to 15 are spread over the legacy region and two extended
 components; registers 16 to 31 are whole in a third. A chunk whose component is absent, or does not fit the image,
 reads as zero and is dropped on writing.
 */
module XsaveImage {
  import opened Bits
  import opened Bytes
  import opened Wrappers
  import opened XsaveLayout

  const MXCSR: nat := 24
  const XMM_OFFSET: nat := 160
  const XSTATE_BV: nat := 512
  const ZMM_CHUNKS: nat := 8
  const ZMM_REGS: nat := 32
  const SSE: nat := 1

  type Word64 = w: nat | w < 0x1_0000_0000_0000_0000

  /** The smallest image that has a header. */
  predicate Image(m: seq<Byte>) { |m| >= COMPACT_BASE }

  predicate Held(len: nat, c: Option<Component>) { c.Some? && c.value.offset + c.value.size <= len }

  // ------------------------------------------------------------------------- where a chunk lives

  /** The component that has chunk `i` of register `n`, as its XSTATE_BV bit. */
  function ComponentOf(n: nat, i: nat): nat {
    if n >= 16 then ZMM_HI16 else if i < 2 then SSE else if i < 4 then YMM_HI else ZMM_HI
  }

  /** Where chunk `i` of register `n` is in an image of `len` bytes, if the processor has it. */
  function ChunkAt(len: nat, layout: Layout, n: nat, i: nat): Option<nat> {
    if n >= 16 then
      if Held(len, layout.zmmHi16) then Some(layout.zmmHi16.value.offset + (n - 16) * 64 + i * 8) else None
    else if i < 2 then Some(XMM_OFFSET + n * 16 + i * 8)
    else if i < 4 then
      if Held(len, layout.ymmHi) then Some(layout.ymmHi.value.offset + n * 16 + (i - 2) * 8) else None
    else
      if Held(len, layout.zmmHi) then Some(layout.zmmHi.value.offset + n * 32 + (i - 4) * 8) else None
  }

  predicate Chunk(n: nat, i: nat) { n < ZMM_REGS && i < ZMM_CHUNKS }

  /** Every chunk lies inside the image, clear of MXCSR and the header. */
  lemma ChunkInside(len: nat, layout: Layout, n: nat, i: nat)
    requires len >= COMPACT_BASE && Sound(layout) && Chunk(n, i) && ChunkAt(len, layout, n, i).Some?
    ensures var a := ChunkAt(len, layout, n, i).value;
            a + 8 <= len && (a + 8 <= XSTATE_BV || COMPACT_BASE <= a) && XMM_OFFSET <= a
  {
  }

  /** No two chunks overlap. */
  lemma ChunksApart(len: nat, layout: Layout, n: nat, i: nat, n': nat, i': nat)
    requires len >= COMPACT_BASE && Sound(layout) && Chunk(n, i) && Chunk(n', i') && (n, i) != (n', i')
    requires ChunkAt(len, layout, n, i).Some? && ChunkAt(len, layout, n', i').Some?
    ensures var a, a' := ChunkAt(len, layout, n, i).value, ChunkAt(len, layout, n', i').value;
            a + 8 <= a' || a' + 8 <= a
  {
    if ComponentOf(n, i) == ComponentOf(n', i') {
      ChunksInOne(len, layout, n, i, n', i');
    } else {
      hide ChunkAt;
      ChunkInComponent(len, layout, n, i);
      ChunkInComponent(len, layout, n', i');
    }
  }

  lemma ChunksInOne(len: nat, layout: Layout, n: nat, i: nat, n': nat, i': nat)
    requires Chunk(n, i) && Chunk(n', i') && (n, i) != (n', i') && ComponentOf(n, i) == ComponentOf(n', i')
    requires ChunkAt(len, layout, n, i).Some? && ChunkAt(len, layout, n', i').Some?
    ensures var a, a' := ChunkAt(len, layout, n, i).value, ChunkAt(len, layout, n', i').value;
            a + 8 <= a' || a' + 8 <= a
  {
  }

  /** Where a component's registers are: the legacy area, or the place that was located. */
  function HomeOf(layout: Layout, j: nat): Option<Component> {
    if j == SSE then Some(Component(XMM_OFFSET, 256))
    else if j == YMM_HI then layout.ymmHi
    else if j == ZMM_HI then layout.zmmHi
    else layout.zmmHi16
  }

  lemma ChunkInComponent(len: nat, layout: Layout, n: nat, i: nat)
    requires Sound(layout) && Chunk(n, i) && ChunkAt(len, layout, n, i).Some?
    ensures var a, home := ChunkAt(len, layout, n, i).value, HomeOf(layout, ComponentOf(n, i));
            home.Some? && home.value.offset <= a && a + 8 <= home.value.offset + home.value.size
  {
  }

  // ------------------------------------------------------------------------- what an image says

  function ChunkValue(m: seq<Byte>, layout: Layout, n: nat, i: nat): Word64
    requires Image(m) && Sound(layout) && Chunk(n, i)
  {
    match ChunkAt(|m|, layout, n, i)
    case None => 0
    case Some(a) => ChunkInside(|m|, layout, n, i); Word64At(m, a)
  }

  /** The vector components are their registers' chunks in order: byte `o` of the legacy XMM area, of the upper YMM
      halves, of the upper ZMM halves, and of the registers 16 to 31, begins the chunk that its offset says. */
  lemma ComponentIsRegisters(m: seq<Byte>, layout: Layout, j: nat)
    requires Image(m) && Sound(layout)
    ensures j < 32 ==> Word64At(m, XMM_OFFSET + 8 * j) == ChunkValue(m, layout, j / 2, j % 2)
    ensures j < 32 && Held(|m|, layout.ymmHi) ==>
              layout.ymmHi.value.offset + 8 * j + 8 <= |m|
              && Word64At(m, layout.ymmHi.value.offset + 8 * j) == ChunkValue(m, layout, j / 2, 2 + j % 2)
    ensures j < 64 && Held(|m|, layout.zmmHi) ==>
              layout.zmmHi.value.offset + 8 * j + 8 <= |m|
              && Word64At(m, layout.zmmHi.value.offset + 8 * j) == ChunkValue(m, layout, j / 4, 4 + j % 4)
    ensures j < 128 && Held(|m|, layout.zmmHi16) ==>
              layout.zmmHi16.value.offset + 8 * j + 8 <= |m|
              && Word64At(m, layout.zmmHi16.value.offset + 8 * j) == ChunkValue(m, layout, 16 + j / 8, j % 8)
  {
    hide Word64At;
    assert j == j / 2 * 2 + j % 2 && j == j / 4 * 4 + j % 4 && j == j / 8 * 8 + j % 8;
    if j < 32 && Held(|m|, layout.ymmHi) { ChunkInside(|m|, layout, j / 2, 2 + j % 2); }
    if j < 64 && Held(|m|, layout.zmmHi) { ChunkInside(|m|, layout, j / 4, 4 + j % 4); }
    if j < 128 && Held(|m|, layout.zmmHi16) { ChunkInside(|m|, layout, 16 + j / 8, j % 8); }
  }

  /** The chunk as the processor would load it: a component absent from XSTATE_BV is in its initial state, zero. */
  function ArchitecturalValue(m: seq<Byte>, layout: Layout, n: nat, i: nat): Word64
    requires Image(m) && Sound(layout) && Chunk(n, i)
  {
    if Bit(Word64At(m, XSTATE_BV), ComponentOf(n, i)) then ChunkValue(m, layout, n, i) else 0
  }

  /** Components absent from XSTATE_BV are all zeros in the image too. */
  ghost predicate AbsentIsZero(m: seq<Byte>, layout: Layout)
    requires Image(m) && Sound(layout)
  {
    forall n: nat, i: nat :: Chunk(n, i) && !Bit(Word64At(m, XSTATE_BV), ComponentOf(n, i))
                             ==> ChunkValue(m, layout, n, i) == 0
  }

  /** Under that invariant, reading the bytes without looking at XSTATE_BV is right. */
  lemma ReadsArchitectural(m: seq<Byte>, layout: Layout)
    requires Image(m) && Sound(layout)
    ensures AbsentIsZero(m, layout)
            <==> forall n: nat, i: nat :: Chunk(n, i) ==>
                   ChunkValue(m, layout, n, i) == ArchitecturalValue(m, layout, n, i)
  {
    hide ChunkValue, Bits.Bit;
    if AbsentIsZero(m, layout) {
      forall n: nat, i: nat | Chunk(n, i)
        ensures ChunkValue(m, layout, n, i) == ArchitecturalValue(m, layout, n, i)
      {
      }
    } else {
      var n: nat, i: nat :| Chunk(n, i) && !Bit(Word64At(m, XSTATE_BV), ComponentOf(n, i))
                            && ChunkValue(m, layout, n, i) != 0;
      assert ChunkValue(m, layout, n, i) != ArchitecturalValue(m, layout, n, i);
    }
  }

  // ------------------------------------------------------------------------- the operations

  method WriteU64At(bytes: array<Byte>, offset: nat, value: nat)
    requires offset + 8 <= bytes.Length
    modifies bytes
    ensures bytes[..] == Splice(old(bytes[..]), offset, Le(value, 8))
  {
    CopyBytes(bytes, offset, Le(value, 8));
  }

  /** `xsave_get_zmm` */
  method GetZmm(bytes: array<Byte>, layout: Layout, n: nat) returns (out: array<Word64>)
    requires Image(bytes[..]) && Sound(layout) && n < ZMM_REGS
    ensures fresh(out) && out.Length == ZMM_CHUNKS
    ensures forall i: nat :: i < ZMM_CHUNKS ==> out[i] == ChunkValue(bytes[..], layout, n, i)
  {
    hide Word64At;
    out := new Word64[ZMM_CHUNKS](_ => 0);
    var m := bytes[..];
    if n < 16 {
      var off := XMM_OFFSET + n * 16;
      out[0] := Word64At(m, off);
      out[1] := Word64At(m, off + 8);
      if Held(|m|, layout.ymmHi) {
        var off := layout.ymmHi.value.offset + n * 16;
        out[2] := Word64At(m, off);
        out[3] := Word64At(m, off + 8);
      }
      if Held(|m|, layout.zmmHi) {
        var off := layout.zmmHi.value.offset + n * 32;
        for i := 0 to 4
          modifies out
          invariant forall k: nat :: k < 4 + i ==> out[k] == ChunkValue(m, layout, n, k)
        {
          out[4 + i] := Word64At(m, off + i * 8);
        }
      }
    } else if Held(|m|, layout.zmmHi16) {
      var off := layout.zmmHi16.value.offset + (n - 16) * 64;
      for i := 0 to ZMM_CHUNKS
        modifies out
        invariant forall k: nat :: k < i ==> out[k] == ChunkValue(m, layout, n, k)
      {
        out[i] := Word64At(m, off + i * 8);
      }
    }
  }

  function ChunkOf(data: seq<Word64>, i: nat): Word64 { if i < |data| then data[i] else 0 }

  /** Chunks below `k` of register `n`: where any byte of them is. */
  ghost predicate InChunks(len: nat, layout: Layout, n: nat, k: nat, a: int) {
    exists i: nat :: i < k && InChunk(ChunkAt(len, layout, n, i), a)
  }

  predicate InChunk(at: Option<nat>, a: int) { at.Some? && at.value <= a < at.value + 8 }

  lemma InChunksStep(len: nat, layout: Layout, n: nat, k: nat, a: int)
    ensures InChunks(len, layout, n, k + 1, a)
            <==> InChunks(len, layout, n, k, a) || InChunk(ChunkAt(len, layout, n, k), a)
  {
    hide ChunkAt, InChunk;
    if InChunks(len, layout, n, k + 1, a) {
      var i: nat :| i < k + 1 && InChunk(ChunkAt(len, layout, n, i), a);
    }
  }

  /** `m'` is `m` with the first `k` chunks of register `n` written, those that the processor has. */
  ghost predicate Wrote(m: seq<Byte>, m': seq<Byte>, layout: Layout, n: nat, data: seq<Word64>, k: nat) {
    && Image(m) && |m'| == |m| && Sound(layout) && n < ZMM_REGS && k <= ZMM_CHUNKS
    && (forall n': nat, i: nat :: Chunk(n', i) ==>
          ChunkValue(m', layout, n', i)
          == if n' == n && i < k && ChunkAt(|m|, layout, n, i).Some? then ChunkOf(data, i)
             else ChunkValue(m, layout, n', i))
    && (forall a :: 0 <= a < |m| && !InChunks(|m|, layout, n, k, a) ==> m'[a] == m[a])
  }

  lemma WroteNone(m: seq<Byte>, layout: Layout, n: nat, data: seq<Word64>)
    requires Image(m) && Sound(layout) && n < ZMM_REGS
    ensures Wrote(m, m, layout, n, data, 0)
  {
    hide Sound;
  }

  lemma SpliceChunk(m: seq<Byte>, layout: Layout, n: nat, i: nat, a: nat, w: Word64, n': nat, i': nat)
    requires Image(m) && Sound(layout) && Chunk(n, i) && Chunk(n', i') && ChunkAt(|m|, layout, n, i) == Some(a)
    ensures a + 8 <= |m|
    ensures ChunkValue(Splice(m, a, Le(w, 8)), layout, n', i')
            == if n' == n && i' == i then w else ChunkValue(m, layout, n', i')
  {
    hide Sound, ChunkAt, Splice, Word64At, Le;
    ChunkInside(|m|, layout, n, i);
    var at' := ChunkAt(|m|, layout, n', i');
    if at'.Some? {
      ChunkInside(|m|, layout, n', i');
      if n' == n && i' == i {
        SpliceReadsBack(m, a, w);
      } else {
        ChunksApart(|m|, layout, n, i, n', i');
        SpliceFrame(m, a, Le(w, 8), at'.value);
      }
    }
  }

  /** One more chunk. */
  lemma WroteOne(m: seq<Byte>, m1: seq<Byte>, layout: Layout, n: nat, data: seq<Word64>, k: nat)
    requires Wrote(m, m1, layout, n, data, k) && k < ZMM_CHUNKS
    ensures match ChunkAt(|m|, layout, n, k)
            case None => Wrote(m, m1, layout, n, data, k + 1)
            case Some(a) => a + 8 <= |m| && Wrote(m, Splice(m1, a, Le(ChunkOf(data, k), 8)), layout, n, data, k + 1)
  {
    hide Sound, ChunkAt, ChunkValue, Word64At, Le;
    var at := ChunkAt(|m|, layout, n, k);
    forall a | 0 <= a < |m| && !InChunks(|m|, layout, n, k + 1, a)
      ensures !InChunk(at, a) && m1[a] == m[a]
    {
      InChunksStep(|m|, layout, n, k, a);
    }
    if at.Some? {
      var w := ChunkOf(data, k);
      assert Chunk(n, k);
      SpliceChunk(m1, layout, n, k, at.value, w, n, k);
      forall n': nat, i: nat | Chunk(n', i)
        ensures ChunkValue(Splice(m1, at.value, Le(w, 8)), layout, n', i)
                == if n' == n && i == k then w else ChunkValue(m1, layout, n', i)
      {
        SpliceChunk(m1, layout, n, k, at.value, w, n', i);
      }
    }
  }

  /** The word at XSTATE_BV after a write: the old one, and the bit of each component that has a chunk of `n`. */
  ghost predicate Marked(m: seq<Byte>, bv: nat, layout: Layout, n: nat)
    requires Image(m)
  {
    forall k: nat :: Bit(bv, k) <==>
      Bit(Word64At(m, XSTATE_BV), k)
      || (n < 16 && (k == SSE || (k == YMM_HI && Held(|m|, layout.ymmHi)) || (k == ZMM_HI && Held(|m|, layout.zmmHi))))
      || (n >= 16 && k == ZMM_HI16 && Held(|m|, layout.zmmHi16))
  }

  lemma MarkBit(bv: Word64, k: nat)
    requires k < 64
    ensures Or(bv, Pow2(k)) < Pow2(64) == 0x1_0000_0000_0000_0000
    ensures forall j: nat :: Bit(Or(bv, Pow2(k)), j) <==> Bit(bv, j) || j == k
  {
    hide Bits.Or, Bits.Bit, Bits.Pow2;
    WordSizes();
    Pow2Smaller(k, 64);
    OrBound(bv, Pow2(k), 64);
    forall j: nat ensures Bit(Or(bv, Pow2(k)), j) <==> Bit(bv, j) || j == k {
      OrBit(bv, Pow2(k), j);
      Pow2Bit(k, j);
    }
  }

  lemma Pow2Smaller(k: nat, n: nat)
    requires k < n
    ensures Pow2(k) < Pow2(n)
  {
    Pow2Monotone(k, n - 1);
  }

  function Mark(bv: Word64, k: nat): (r: Word64)
    requires k < 64
    ensures forall j: nat :: Bit(r, j) <==> Bit(bv, j) || j == k
  {
    MarkBit(bv, k);
    Or(bv, Pow2(k))
  }

  /** What writing register `n` does to an image. */
  ghost predicate Updated(m: seq<Byte>, m': seq<Byte>, layout: Layout, n: nat, data: seq<Word64>) {
    && Image(m) && |m'| == |m| && Sound(layout) && n < ZMM_REGS
    && (forall n': nat, i: nat :: Chunk(n', i) ==>
          ChunkValue(m', layout, n', i)
          == if n' == n && ChunkAt(|m|, layout, n, i).Some? then ChunkOf(data, i) else ChunkValue(m, layout, n', i))
    && Marked(m, Word64At(m', XSTATE_BV), layout, n)
    && (forall a :: 0 <= a < |m| && !InChunks(|m|, layout, n, ZMM_CHUNKS, a) && !(XSTATE_BV <= a < XSTATE_BV + 8)
                    ==> m'[a] == m[a])
  }

  lemma {:induction false} WroteRest(m: seq<Byte>, m1: seq<Byte>, layout: Layout, n: nat, data: seq<Word64>, k: nat)
    requires Wrote(m, m1, layout, n, data, k)
    requires forall i: nat :: k <= i < ZMM_CHUNKS ==> ChunkAt(|m|, layout, n, i) == None
    ensures Wrote(m, m1, layout, n, data, ZMM_CHUNKS)
    decreases ZMM_CHUNKS - k
  {
    hide ChunkAt, ChunkValue, InChunks;
    if k < ZMM_CHUNKS {
      WroteOne(m, m1, layout, n, data, k);
      assert ChunkAt(|m|, layout, n, k) == None;
      WroteRest(m, m1, layout, n, data, k + 1);
    }
  }

  lemma SpliceHeader(m: seq<Byte>, layout: Layout, w: Word64, n: nat, i: nat)
    requires Image(m) && Sound(layout) && Chunk(n, i)
    ensures ChunkValue(Splice(m, XSTATE_BV, Le(w, 8)), layout, n, i) == ChunkValue(m, layout, n, i)
  {
    hide Sound, ChunkAt, Splice, Word64At, Le;
    var at := ChunkAt(|m|, layout, n, i);
    if at.Some? {
      ChunkInside(|m|, layout, n, i);
      SpliceFrame(m, XSTATE_BV, Le(w, 8), at.value);
    }
  }

  lemma WroteHeader(m: seq<Byte>, m1: seq<Byte>, layout: Layout, n: nat, data: seq<Word64>, bv: Word64)
    requires Wrote(m, m1, layout, n, data, ZMM_CHUNKS) && Marked(m, bv, layout, n)
    ensures Updated(m, Splice(m1, XSTATE_BV, Le(bv, 8)), layout, n, data)
  {
    hide Sound, ChunkAt, ChunkValue, Word64At, Le, Marked, InChunks;
    SpliceReadsBack(m1, XSTATE_BV, bv);
    forall n': nat, i: nat | Chunk(n', i)
      ensures ChunkValue(Splice(m1, XSTATE_BV, Le(bv, 8)), layout, n', i) == ChunkValue(m1, layout, n', i)
    {
      SpliceHeader(m1, layout, bv, n', i);
    }
  }

  /** Consecutive chunks of one component, written in order. */
  method WriteChunks(bytes: array<Byte>, ghost m: seq<Byte>, layout: Layout, n: nat, data: seq<Word64>, first: nat,
                     count: nat, off: nat)
    requires Wrote(m, bytes[..], layout, n, data, first) && first + count <= ZMM_CHUNKS
    requires forall i: nat :: first <= i < first + count ==>
               ChunkAt(|m|, layout, n, i) == Some(off + (i - first) * 8)
    modifies bytes
    ensures Wrote(m, bytes[..], layout, n, data, first + count)
  {
    hide Wrote, ChunkAt;
    for i := 0 to count
      invariant Wrote(m, bytes[..], layout, n, data, first + i)
    {
      assert ChunkAt(|m|, layout, n, first + i) == Some(off + i * 8);
      assert |bytes[..]| == |m| by { WroteLength(m, bytes[..], layout, n, data, first + i); }
      WroteOne(m, bytes[..], layout, n, data, first + i);
      WriteU64At(bytes, off + i * 8, ChunkOf(data, first + i));
    }
  }

  lemma WroteLength(m: seq<Byte>, m1: seq<Byte>, layout: Layout, n: nat, data: seq<Word64>, k: nat)
    requires Wrote(m, m1, layout, n, data, k)
    ensures |m1| == |m|
  {
  }

  /** `xsave_set_zmm`: the chunks of register `n` that the processor has are the ones asked for, missing ones counting
      as zero; no other register changes; the components written are marked present; and no other byte changes. */
  method SetZmm(bytes: array<Byte>, layout: Layout, n: nat, data: seq<Word64>)
    requires Image(bytes[..]) && Sound(layout) && n < ZMM_REGS
    modifies bytes
    ensures Updated(old(bytes[..]), bytes[..], layout, n, data)
  {
    ghost var m := bytes[..];
    var xstateBv := Word64At(bytes[..], XSTATE_BV);
    var len := bytes.Length;
    WroteNone(m, layout, n, data);
    hide Wrote, Word64At, Sound, Splice, Updated, Bits.Bit;
    if n < 16 {
      WriteChunks(bytes, m, layout, n, data, 0, 2, XMM_OFFSET + n * 16);
      xstateBv := Mark(xstateBv, SSE);
      if Held(len, layout.ymmHi) {
        WriteChunks(bytes, m, layout, n, data, 2, 2, layout.ymmHi.value.offset + n * 16);
        xstateBv := Mark(xstateBv, YMM_HI);
      } else {
        WroteOne(m, bytes[..], layout, n, data, 2);
        WroteOne(m, bytes[..], layout, n, data, 3);
      }
      if Held(len, layout.zmmHi) {
        WriteChunks(bytes, m, layout, n, data, 4, 4, layout.zmmHi.value.offset + n * 32);
        xstateBv := Mark(xstateBv, ZMM_HI);
      } else {
        WroteRest(m, bytes[..], layout, n, data, 4);
      }
    } else if Held(len, layout.zmmHi16) {
      WriteChunks(bytes, m, layout, n, data, 0, ZMM_CHUNKS, layout.zmmHi16.value.offset + (n - 16) * 64);
      xstateBv := Mark(xstateBv, ZMM_HI16);
    } else {
      WroteRest(m, bytes[..], layout, n, data, 0);
    }
    WroteHeader(m, bytes[..], layout, n, data, xstateBv);
    WriteU64At(bytes, XSTATE_BV, xstateBv);
  }

  /** Writing keeps absent components zero, so what is read back stays what the processor would load. */
  lemma UpdateKeepsAbsentZero(m: seq<Byte>, m': seq<Byte>, layout: Layout, n: nat, data: seq<Word64>)
    requires Updated(m, m', layout, n, data) && AbsentIsZero(m, layout)
    ensures AbsentIsZero(m', layout)
  {
    hide ChunkValue, Sound, Word64At, Bits.Bit, InChunks;
    forall n': nat, i: nat | Chunk(n', i) && !Bit(Word64At(m', XSTATE_BV), ComponentOf(n', i))
      ensures ChunkValue(m', layout, n', i) == 0
    {
      assert !Bit(Word64At(m, XSTATE_BV), ComponentOf(n', i));
      assert ChunkValue(m, layout, n', i) == 0;
    }
  }

  // ------------------------------------------------------------------------- reset

  predicate InComponent(len: nat, c: Option<Component>, a: int) {
    Held(len, c) && c.value.offset <= a < c.value.offset + c.value.size
  }

  /** The bytes that hold vector state. */
  predicate InVectors(len: nat, layout: Layout, a: int) {
    || XMM_OFFSET <= a < XMM_OFFSET + 256
    || InComponent(len, layout.ymmHi, a) || InComponent(len, layout.zmmHi, a) || InComponent(len, layout.zmmHi16, a)
  }

  method Fill(bytes: array<Byte>, from: nat, to: nat)
    requires from <= to <= bytes.Length
    modifies bytes
    ensures forall a :: 0 <= a < bytes.Length ==> bytes[a] == if from <= a < to then 0 else old(bytes[a])
  {
    for a := from to to
      invariant forall b :: 0 <= b < bytes.Length ==> bytes[b] == if from <= b < a then 0 else old(bytes[b])
    {
      bytes[a] := 0;
    }
  }

  method FillComponent(bytes: array<Byte>, c: Option<Component>)
    modifies bytes
    ensures forall a :: 0 <= a < bytes.Length ==>
              bytes[a] == if InComponent(bytes.Length, c, a) then 0 else old(bytes[a])
  {
    if c.Some? && c.value.offset + c.value.size <= bytes.Length {
      Fill(bytes, c.value.offset, c.value.offset + c.value.size);
    }
  }

  /** `xsave_reset_vectors`: all vector state zero, MXCSR at its reset value, every other byte as it was. */
  method ResetVectors(bytes: array<Byte>, layout: Layout)
    requires Image(bytes[..]) && Sound(layout)
    modifies bytes
    ensures forall a :: 0 <= a < bytes.Length ==>
              bytes[a] == if InVectors(bytes.Length, layout, a) then 0
                          else if MXCSR <= a < MXCSR + 4 then Le(0x1F80, 4)[a - MXCSR]
                          else old(bytes[a])
  {
    Fill(bytes, XMM_OFFSET, XMM_OFFSET + 256);
    FillComponent(bytes, layout.ymmHi);
    FillComponent(bytes, layout.zmmHi);
    FillComponent(bytes, layout.zmmHi16);
    var mxcsr := Le(0x1F80, 4);
    bytes[MXCSR], bytes[MXCSR + 1], bytes[MXCSR + 2], bytes[MXCSR + 3] := mxcsr[0], mxcsr[1], mxcsr[2], mxcsr[3];
  }

  lemma ChunkInVectors(len: nat, layout: Layout, n: nat, i: nat, a: int)
    requires len >= COMPACT_BASE && Sound(layout) && Chunk(n, i) && InChunk(ChunkAt(len, layout, n, i), a)
    ensures InVectors(len, layout, a)
  {
  }

  /** After a reset every register reads zero, whatever XSTATE_BV says, and XSTATE_BV says what it did. */
  lemma ResetReadsZero(m: seq<Byte>, m': seq<Byte>, layout: Layout)
    requires Image(m) && Sound(layout) && |m'| == |m|
    requires forall a :: 0 <= a < |m| ==>
               (InVectors(|m|, layout, a) ==> m'[a] == 0)
               && (!InVectors(|m|, layout, a) && !(MXCSR <= a < MXCSR + 4) ==> m'[a] == m[a])
    ensures forall n: nat, i: nat :: Chunk(n, i) ==> ChunkValue(m', layout, n, i) == 0
    ensures AbsentIsZero(m', layout) && Word64At(m', XSTATE_BV) == Word64At(m, XSTATE_BV)
  {
    hide ChunkAt, Word64At, InVectors;
    forall n: nat, i: nat | Chunk(n, i) ensures ChunkValue(m', layout, n, i) == 0 {
      var at := ChunkAt(|m|, layout, n, i);
      if at.Some? {
        ChunkInside(|m|, layout, n, i);
        forall a | at.value <= a < at.value + 8 ensures m'[a] == 0 { ChunkInVectors(|m|, layout, n, i, a); }
        ZeroWord(m', at.value);
      }
    }
    forall a | XSTATE_BV <= a < XSTATE_BV + 8 ensures !InVectors(|m|, layout, a) { HeaderOutside(|m|, layout, a); }
    WordLocal(m, m', XSTATE_BV, XSTATE_BV + 8);
  }

  lemma HeaderOutside(len: nat, layout: Layout, a: int)
    requires Sound(layout) && XSTATE_BV <= a < XSTATE_BV + 8
    ensures !InVectors(len, layout, a)
  {
  }

  // ------------------------------------------------------------------------- the two formats

  /** Two images have the same bytes in a component, wherever each keeps it, or neither has it. */
  ghost predicate SameComponent(m: seq<Byte>, c: Option<Component>, m': seq<Byte>, c': Option<Component>) {
    && (Held(|m|, c) <==> Held(|m'|, c'))
    && (Held(|m|, c) ==>
          m[c.value.offset..c.value.offset + c.value.size] == m'[c'.value.offset..c'.value.offset + c'.value.size])
  }

  lemma SubSlice(m: seq<Byte>, from: nat, to: nat, o: nat)
    requires from <= to <= |m| && from + o + 8 <= to
    ensures m[from + o..from + o + 8] == m[from..to][o..o + 8]
  {
    var part, whole := m[from + o..from + o + 8], m[from..to];
    forall k | 0 <= k < 8 ensures part[k] == whole[o..o + 8][k] {
      assert whole[o + k] == m[from + (o + k)];
    }
  }

  lemma SlicedWord(m: seq<Byte>, from: nat, to: nat, m': seq<Byte>, from': nat, to': nat, o: nat)
    requires from <= to <= |m| && from' <= to' <= |m'| && m[from..to] == m'[from'..to'] && from + o + 8 <= to
    ensures from' + o + 8 <= to' && Word64At(m, from + o) == Word64At(m', from' + o)
  {
    SubSlice(m, from, to, o);
    SubSlice(m', from', to', o);
  }

  /** A standard and a compacted image with the same components have the same registers. */
  lemma FormatsAgree(m: seq<Byte>, layout: Layout, m': seq<Byte>, layout': Layout, n: nat, i: nat)
    requires Image(m) && Image(m') && Sound(layout) && Sound(layout') && Chunk(n, i)
    requires m[XMM_OFFSET..XMM_OFFSET + 256] == m'[XMM_OFFSET..XMM_OFFSET + 256]
    requires SameComponent(m, layout.ymmHi, m', layout'.ymmHi)
    requires SameComponent(m, layout.zmmHi, m', layout'.zmmHi)
    requires SameComponent(m, layout.zmmHi16, m', layout'.zmmHi16)
    ensures ChunkValue(m, layout, n, i) == ChunkValue(m', layout', n, i)
  {
    hide Word64At;
    if ChunkAt(|m|, layout, n, i).Some? {
      if n < 16 && i < 2 {
        SlicedWord(m, XMM_OFFSET, XMM_OFFSET + 256, m', XMM_OFFSET, XMM_OFFSET + 256, n * 16 + i * 8);
      } else {
        var c := if n >= 16 then layout.zmmHi16.value else if i < 4 then layout.ymmHi.value else layout.zmmHi.value;
        var c' := if n >= 16 then layout'.zmmHi16.value else if i < 4 then layout'.ymmHi.value else layout'.zmmHi.value;
        var o := if n >= 16 then (n - 16) * 64 + i * 8
                 else if i < 4 then n * 16 + (i - 2) * 8
                 else n * 32 + (i - 4) * 8;
        SlicedWord(m, c.offset, c.offset + c.size, m', c'.offset, c'.offset + c'.size, o);
      }
    }
  }
}
