/**
 The Bochs backend's page tables: an identity map of the low 512 GiB in 2 MiB leaves, kept inside the memory it maps,
 and the conversion of frames to shadow-stack pages (Intel SDM Vol. 1, section 17.2.2; Vol. 3A, section 4.6).
 */
module BochsPaging {
  import opened Arith
  import opened Bits
  import opened Bytes
  import opened Wrappers
  import opened LongMode
  import opened BochsMemory

  const PT_BASE: nat := 0x7F_C000_0000
  const PT_PML4: nat := PT_BASE
  const PT_PDPT: nat := PT_BASE + 0x1000
  const PT_PD0: nat := PT_BASE + 0x2000
  const PT_BYTES: nat := 0x2000 + 512 * 0x1000
  const IDENTITY_LIMIT: nat := 0x80_0000_0000
  const FRAME_2M: nat := 0x20_0000
  const FRAMES: nat := 0x4_0000
  const FIRST_PT_FRAME: nat := 0x3_FE00
  const LAST_PT_FRAME: nat := 0x3_FE01

  const PTE_P: nat := 0x001
  const PTE_W: nat := 0x002
  const PTE_US: nat := 0x004
  const PTE_D: nat := 0x040
  const PTE_PS: nat := 0x080

  // ------------------------------------------------------------------------- table words

  function WordOf(m: Pages, a: nat): nat
    requires Wf(m)
  {
    Word(BytesOf(m, a, 8))
  }

  /** How the processor reads the tables. */
  function FromPages(m: Pages): Loader
    requires Wf(m)
  {
    a => WordOf(m, a)
  }

  /** A leaf of the identity map, and a shadow-stack leaf: dirty, not writable, supervisor. */
  function PlainLeaf(f: nat): nat { f * FRAME_2M + 0x87 }

  function ShadowLeaf(f: nat): nat { f * FRAME_2M + 0xC1 }

  function LeafAt(f: nat): nat { PT_PD0 + f * 8 }

  predicate TableWord(a: nat) { PT_BASE <= a && a + 8 <= PT_BASE + PT_BYTES && a % 8 == 0 }

  lemma WordInPage(a: nat)
    requires TableWord(a)
    ensures InPage(a, 8) && Phys(a) == a
  {
  }

  lemma TableByte(a: nat, i: nat)
    requires TableWord(a) && i < 8
    ensures Phys(a + i) == a + i
  {
  }

  lemma WordsApart(a: nat, b: nat)
    requires TableWord(a) && TableWord(b) && a != b
    ensures a + 8 <= b || b + 8 <= a
  {
  }

  /** A word store among the tables changes that word only. */
  lemma StoredTableWord(m: Pages, a: nat, w: nat, b: nat)
    requires Wf(m) && TableWord(a) && TableWord(b) && w < ADDRESS_LIMIT
    ensures InPage(a, 8) && WordOf(Stored(m, a, Le(w, 8)), b) == if a == b then w else WordOf(m, b)
  {
    WordInPage(a);
    if a != b { WordsApart(a, b); }
    hide Stored, ByteOf, Le, Phys, Key, Offset, InPage, TableWord;
    var t := Stored(m, a, Le(w, 8));
    forall i | 0 <= i < 8 ensures BytesOf(t, b, 8)[i] == if a == b then Le(w, 8)[i] else BytesOf(m, b, 8)[i] {
      TableByte(b, i);
      StoredBytes(m, a, Le(w, 8), b + i);
    }
    if a == b {
      assert BytesOf(t, b, 8) == Le(w, 8);
      WordSizes();
      WordOfLe(w, 8);
    } else {
      assert BytesOf(t, b, 8) == BytesOf(m, b, 8);
    }
  }

  /** A store elsewhere leaves the tables. */
  lemma StoredElsewhere(m: Pages, g: nat, data: seq<Byte>, b: nat)
    requires Wf(m) && InPage(g, |data|) && TableWord(b)
    requires Phys(g) + |data| <= PT_BASE || PT_BASE + PT_BYTES <= Phys(g)
    ensures WordOf(Stored(m, g, data), b) == WordOf(m, b)
  {
    hide Stored, ByteOf, InPage;
    WordInPage(b);
    var t := Stored(m, g, data);
    forall i | 0 <= i < 8 ensures BytesOf(t, b, 8)[i] == BytesOf(m, b, 8)[i] {
      assert Phys(b + i) == b + i;
      StoredBytes(m, g, data, b + i);
    }
    assert BytesOf(t, b, 8) == BytesOf(m, b, 8);
  }

  // ------------------------------------------------------------------------- the map

  /** The tables map every frame to itself, the frames of `shadow` as shadow-stack pages, none of which is a frame of
      the tables. */
  ghost predicate Identity(m: Pages, shadow: set<nat>)
    requires Wf(m)
  {
    && WordOf(m, PT_PML4) == PT_PDPT + 7
    && (forall i: nat :: i < 512 ==> WordOf(m, PT_PDPT + i * 8) == PT_PD0 + i * 0x1000 + 7)
    && (forall f: nat :: f < FRAMES ==> WordOf(m, LeafAt(f)) == if f in shadow then ShadowLeaf(f) else PlainLeaf(f))
    && (forall f :: f in shadow ==> f < FRAMES && f != FIRST_PT_FRAME && f != LAST_PT_FRAME)
  }

  /** No shadow-stack frame contains a byte of the tables. */
  lemma ShadowMissesTables(m: Pages, shadow: set<nat>, f: nat, a: nat)
    requires Wf(m) && Identity(m, shadow) && f in shadow && PT_BASE <= a < PT_BASE + PT_BYTES
    ensures !(f * FRAME_2M <= a < f * FRAME_2M + FRAME_2M)
  {
  }

  lemma TableFields(k: nat)
    requires k < 0x1000_0000
    ensures var e := k * PAGE_4K + 7;
            && Present(e) && !Large(e) && Flag(e, 2) && Flag(e, 4) && !Flag(e, 0x8000_0000_0000_0000)
            && Frame(e) == k * PAGE_4K
  {
    var e := k * PAGE_4K + 7;
    RemainderUnique(e, PAGE_4K, k, 7);
    RemainderUnique(e, 2, k * 0x800 + 3, 1);
    Field(1, 1, 1 + k * 0x400, 2, 2);
    Field(3, 1, k * 0x200, 4, 2);
    Field(7, 0, k * 0x10, 0x80, 2);
  }

  lemma LeafFields(f: nat, shadow: bool)
    requires f < FRAMES
    ensures var e := if shadow then ShadowLeaf(f) else PlainLeaf(f);
            && Present(e) && Large(e) && Flag(e, 2) == !shadow && Flag(e, 4) == !shadow
            && !Flag(e, 0x8000_0000_0000_0000) && Frame(e) == f * FRAME_2M && (shadow ==> Flag(e, PTE_D))
  {
    var e, low := if shadow then ShadowLeaf(f) else PlainLeaf(f), if shadow then 0xC1 else 0x87;
    RemainderUnique(e, PAGE_4K, f * 512, low);
    RemainderUnique(e, 2, f * 0x10_0000 + low / 2, 1);
    if shadow {
      Field(1, 0, 0x30 + f * 0x8_0000, 2, 2);
      Field(1, 0, 0x18 + f * 0x4_0000, 4, 2);
      Field(1, 1, 1 + f * 0x4000, 0x40, 2);
      Field(0x41, 1, f * 0x2000, 0x80, 2);
    } else {
      Field(1, 1, 0x21 + f * 0x8_0000, 2, 2);
      Field(3, 1, 0x10 + f * 0x4_0000, 4, 2);
      Field(7, 1, f * 0x2000, 0x80, 2);
    }
  }

  lemma FrameIndices(linear: nat)
    requires linear < IDENTITY_LIMIT
    ensures var i, f := linear / PAGE_1G, linear / FRAME_2M;
            && Canonical(linear) && linear / REACH_PML4 % 512 == 0 && i < 512 && i % 512 == i && f < FRAMES
            && PT_PD0 + i * 0x1000 + f % 512 * 8 == LeafAt(f) && f * FRAME_2M + linear % FRAME_2M == linear
  {
    assert linear / REACH_PML4 == 0;
    var f := linear / FRAME_2M;
    assert linear / PAGE_1G == f / 512;
  }

  /** Every address below 512 GiB translates to itself; it is writable, and reachable from user level, unless its frame
      is a shadow-stack frame. */
  lemma IdentityWalk(m: Pages, shadow: set<nat>, linear: nat)
    requires Wf(m) && Identity(m, shadow) && linear < IDENTITY_LIMIT
    ensures var plain := linear / FRAME_2M !in shadow;
            Walk(FromPages(m), PT_PML4, linear) == Some(Mapping(linear, plain, plain, true))
  {
    hide Present, Large, Flag, Frame, PlainLeaf, ShadowLeaf, Canonical, WordOf;
    var i, f := linear / PAGE_1G, linear / FRAME_2M;
    FrameIndices(linear);
    TableFields(PT_PDPT / PAGE_4K);
    TableFields(PT_PD0 / PAGE_4K + i);
    LeafFields(f, f in shadow);
    RemainderUnique(f * FRAME_2M, PAGE_2M, f, 0);
    assert WordOf(m, PT_PML4) == PT_PDPT + 7;
    assert WordOf(m, PT_PDPT + i * 8) == PT_PD0 + i * 0x1000 + 7;
    WalkToLeaf(FromPages(m), PT_PML4, linear, PT_PDPT + 7, PT_PD0 + i * 0x1000 + 7, WordOf(m, LeafAt(f)));
    hide Walk;
  }

  // ------------------------------------------------------------------------- building the map

  lemma TableFlags(k: nat)
    ensures Or(Or(Or(k * PAGE_4K, PTE_P), PTE_W), PTE_US) == k * PAGE_4K + 7
    ensures Or(Or(Or(Or(k * PAGE_4K, PTE_P), PTE_W), PTE_US), PTE_PS) == k * PAGE_4K + 0x87
    ensures Or(Or(Or(k * PAGE_4K, PTE_P), PTE_D), PTE_PS) == k * PAGE_4K + 0xC1
  {
    hide Bits.Or;
    var a := k * PAGE_4K;
    WordSizes();
    SmallFlags();
    OrAssociates(a, PTE_P, PTE_W);
    OrAssociates(a, 3, PTE_US);
    OrAssociates(a, 7, PTE_PS);
    OrAssociates(a, PTE_P, PTE_D);
    OrAssociates(a, 0x41, PTE_PS);
    OrFlags(k, 12, 7);
    OrFlags(k, 12, 0x87);
    OrFlags(k, 12, 0xC1);
  }

  lemma SmallFlags()
    ensures Or(PTE_P, PTE_W) == 3 && Or(3, PTE_US) == 7 && Or(7, PTE_PS) == 0x87
    ensures Or(PTE_P, PTE_D) == 0x41 && Or(0x41, PTE_PS) == 0xC1
  {
  }

  /** `(i << 30) | (j << 21)` */
  lemma FrameBase(i: nat, j: nat)
    requires i < 512 && j < 512
    ensures Or(i * PAGE_1G, j * FRAME_2M) == (i * 512 + j) * FRAME_2M
  {
    Pow2Adds(8, 22);
    Pow2Adds(8, 13);
    Pow2Adds(8, 14);
    assert Pow2(5) == 32 && Pow2(6) == 64 && Pow2(8) == 256;
    Pow2Adds(5, 8);
    Pow2Adds(6, 8);
    assert Pow2(13) == 0x2000 && Pow2(14) == 0x4000;
    assert Pow2(22) == 0x40_0000;
    OrCommutes(i * PAGE_1G, j * FRAME_2M);
    OrFields(j * FRAME_2M, i, 30);
  }

  /** `p` directory entries and `f` leaves are written since `start`, and only they. */
  ghost predicate Built(start: Pages, m: Pages, p: nat, f: nat) {
    && Wf(start) && Wf(m) && p <= 512 && f <= FRAMES
    && WordOf(m, PT_PML4) == PT_PDPT + 7
    && (forall k: nat :: 1 <= k < 512 ==> WordOf(m, PT_PML4 + k * 8) == WordOf(start, PT_PML4 + k * 8))
    && (forall k: nat :: k < p ==> WordOf(m, PT_PDPT + k * 8) == PT_PD0 + k * 0x1000 + 7)
    && (forall k: nat :: k < f ==> WordOf(m, LeafAt(k)) == PlainLeaf(k))
    && SameOutside(start, m)
  }

  /** Nothing outside the tables differs. */
  ghost predicate SameOutside(start: Pages, m: Pages)
    requires Wf(start) && Wf(m)
  {
    forall h: nat :: !(PT_BASE <= Phys(h) < PT_BASE + PT_BYTES) ==> ByteOf(m, h) == ByteOf(start, h)
  }

  lemma StoredOutside(start: Pages, m: Pages, a: nat, w: nat)
    requires Wf(start) && Wf(m) && SameOutside(start, m) && TableWord(a)
    ensures InPage(a, 8) && SameOutside(start, Stored(m, a, Le(w, 8)))
  {
    hide Stored, ByteOf, Le, Offset;
    WordInPage(a);
    forall h: nat | !(PT_BASE <= Phys(h) < PT_BASE + PT_BYTES)
      ensures ByteOf(Stored(m, a, Le(w, 8)), h) == ByteOf(start, h)
    {
      StoredBytes(m, a, Le(w, 8), h);
    }
  }

  /** Every word of the tables after a store to one of them. */
  lemma StoredTables(m: Pages, a: nat, w: nat)
    requires Wf(m) && TableWord(a) && w < ADDRESS_LIMIT
    ensures InPage(a, 8)
    ensures forall b: nat :: TableWord(b) ==> WordOf(Stored(m, a, Le(w, 8)), b) == if a == b then w else WordOf(m, b)
  {
    hide Stored, WordOf, Le;
    WordInPage(a);
    forall b: nat | TableWord(b)
      ensures WordOf(Stored(m, a, Le(w, 8)), b) == if a == b then w else WordOf(m, b)
    {
      StoredTableWord(m, a, w, b);
    }
  }

  lemma Slots(k: nat)
    ensures k < 512 ==> TableWord(PT_PML4 + k * 8) && TableWord(PT_PDPT + k * 8)
    ensures k < FRAMES ==> TableWord(LeafAt(k)) && LeafAt(k) >= PT_PD0
  {
  }

  lemma BuiltRoot(start: Pages)
    requires Wf(start)
    ensures InPage(PT_PML4, 8) && Built(start, Stored(start, PT_PML4, Le(PT_PDPT + 7, 8)), 0, 0)
  {
    Slots(0);
    StoredTables(start, PT_PML4, PT_PDPT + 7);
    StoredOutside(start, start, PT_PML4, PT_PDPT + 7);
    hide Stored, WordOf, Le, SameOutside, TableWord, LeafAt;
    var t := Stored(start, PT_PML4, Le(PT_PDPT + 7, 8));
    forall k: nat | 1 <= k < 512 ensures WordOf(t, PT_PML4 + k * 8) == WordOf(start, PT_PML4 + k * 8) { Slots(k); }
  }

  lemma BuiltDirectory(start: Pages, m: Pages, p: nat, f: nat)
    requires Built(start, m, p, f) && p < 512
    ensures var a := PT_PDPT + p * 8;
            InPage(a, 8) && Built(start, Stored(m, a, Le(PT_PD0 + p * 0x1000 + 7, 8)), p + 1, f)
  {
    var a := PT_PDPT + p * 8;
    var w := PT_PD0 + p * 0x1000 + 7;
    Slots(p);
    StoredTables(m, a, w);
    StoredOutside(start, m, a, w);
    hide Stored, WordOf, Le, SameOutside, PlainLeaf, TableWord, LeafAt;
    var t := Stored(m, a, Le(w, 8));
    forall k: nat | 1 <= k < 512 ensures WordOf(t, PT_PML4 + k * 8) == WordOf(start, PT_PML4 + k * 8) { Slots(k); }
    forall k: nat | k < p + 1 ensures WordOf(t, PT_PDPT + k * 8) == PT_PD0 + k * 0x1000 + 7 { Slots(k); }
    forall k: nat | k < f ensures WordOf(t, LeafAt(k)) == PlainLeaf(k) { Slots(k); }
    Slots(0);
  }

  lemma BuiltLeaf(start: Pages, m: Pages, p: nat, f: nat)
    requires Built(start, m, p, f) && f < FRAMES
    ensures InPage(LeafAt(f), 8) && Built(start, Stored(m, LeafAt(f), Le(PlainLeaf(f), 8)), p, f + 1)
  {
    var a := LeafAt(f);
    Slots(f);
    assert PlainLeaf(f) < ADDRESS_LIMIT;
    StoredTables(m, a, PlainLeaf(f));
    StoredOutside(start, m, a, PlainLeaf(f));
    hide Stored, WordOf, Le, SameOutside, PlainLeaf, TableWord, LeafAt;
    var t := Stored(m, a, Le(PlainLeaf(f), 8));
    forall k: nat | 1 <= k < 512 ensures WordOf(t, PT_PML4 + k * 8) == WordOf(start, PT_PML4 + k * 8) { Slots(k); }
    forall k: nat | k < p ensures WordOf(t, PT_PDPT + k * 8) == PT_PD0 + k * 0x1000 + 7 { Slots(k); }
    forall k: nat | k < f + 1 ensures WordOf(t, LeafAt(k)) == PlainLeaf(k) { Slots(k); }
    Slots(0);
  }

  /** No root entry but the first. */
  ghost predicate OnlyLow(m: Pages)
    requires Wf(m)
  {
    forall k: nat :: 1 <= k < 512 ==> WordOf(m, PT_PML4 + k * 8) == 0
  }

  /** An instance starts from no pages at all. */
  lemma FreshOnlyLow()
    ensures Wf(map[]) && OnlyLow(map[])
  {
    hide Key, Phys, Offset;
    forall k: nat | 1 <= k < 512 ensures WordOf(map[], PT_PML4 + k * 8) == 0 {
      var bytes := BytesOf(map[], PT_PML4 + k * 8, 8);
      ZeroBytes(8);
      forall i | 0 <= i < 8 ensures bytes[i] == Le(0, 8)[i] { assert ByteOf(map[], PT_PML4 + k * 8 + i) == 0; }
      assert bytes == Le(0, 8);
      WordOfLe(0, 8);
    }
  }

  lemma Finished(start: Pages, m: Pages)
    requires Built(start, m, 512, FRAMES)
    ensures Identity(m, {}) && SameOutside(start, m) && (OnlyLow(start) ==> OnlyLow(m))
  {
  }

  /** `build_identity_map`: the tables are the identity without shadow-stack frames, and no other byte changes. */
  method BuildIdentityMap(mem: GuestMemory)
    requires mem.Valid()
    modifies mem, mem.pages.Values
    ensures mem.Valid() && Identity(mem.Model(), {}) && SameOutside(old(mem.Model()), mem.Model())
    ensures OnlyLow(old(mem.Model())) ==> OnlyLow(mem.Model())
    ensures forall k :: k in mem.pages && (k !in old(mem.pages) || mem.pages[k] != old(mem.pages[k]))
                        ==> fresh(mem.pages[k])
  {
    hide Identity, OnlyLow, SameOutside, Built, Stored, Le, Bits.Or, PlainLeaf, GuestMemory.Valid, GuestMemory.Model,
         InPage;
    ghost var start := mem.Model();
    TableFlags(PT_PDPT / PAGE_4K);
    BuiltRoot(start);
    var pml4e := Or(Or(Or(PT_PDPT, PTE_P), PTE_W), PTE_US);
    mem.Write(PT_PML4, Le(pml4e, 8));
    for i := 0 to 512
      invariant mem.Valid() && Built(start, mem.Model(), i, i * 512)
      invariant forall k :: k in mem.pages && (k !in old(mem.pages) || mem.pages[k] != old(mem.pages[k]))
                            ==> fresh(mem.pages[k])
    {
      var pd := PT_PD0 + i * 0x1000;
      TableFlags(PT_PD0 / PAGE_4K + i);
      BuiltDirectory(start, mem.Model(), i, i * 512);
      var pdpte := Or(Or(Or(pd, PTE_P), PTE_W), PTE_US);
      mem.Write(PT_PDPT + i * 8, Le(pdpte, 8));
      for j := 0 to 512
        invariant mem.Valid() && Built(start, mem.Model(), i + 1, i * 512 + j)
        invariant forall k :: k in mem.pages && (k !in old(mem.pages) || mem.pages[k] != old(mem.pages[k]))
                              ==> fresh(mem.pages[k])
      {
        FrameBase(i, j);
        var base := Or(i * PAGE_1G, j * FRAME_2M);
        LeafFlags(i * 512 + j);
        BuiltLeaf(start, mem.Model(), i + 1, i * 512 + j);
        var pde := Or(Or(Or(Or(base, PTE_P), PTE_W), PTE_US), PTE_PS);
        mem.Write(pd + j * 8, Le(pde, 8));
      }
    }
    Finished(start, mem.Model());
  }

  lemma LeafFlags(f: nat)
    ensures Or(Or(Or(Or(f * FRAME_2M, PTE_P), PTE_W), PTE_US), PTE_PS) == PlainLeaf(f)
    ensures Or(Or(Or(f * FRAME_2M, PTE_P), PTE_D), PTE_PS) == ShadowLeaf(f)
  {
    TableFlags(f * 512);
  }

  /** With no other root entry, nothing from 512 GiB up is mapped. */
  lemma NothingAbove(m: Pages, shadow: set<nat>, linear: nat)
    requires Wf(m) && Identity(m, shadow) && OnlyLow(m) && IDENTITY_LIMIT <= linear < ADDRESS_LIMIT
    ensures Walk(FromPages(m), PT_PML4, linear) == None
  {
    hide WordOf, Canonical;
    var i4 := linear / REACH_PML4 % 512;
    if i4 == 0 {
      WrappedRoot(linear);
    } else {
      assert WordOf(m, PT_PML4 + i4 * 8) == 0;
      ZeroAbsent();
    }
  }

  lemma ZeroAbsent()
    ensures !Present(0)
  {
  }

  /** The root index comes round again only for addresses that are not canonical. */
  lemma WrappedRoot(linear: nat)
    requires IDENTITY_LIMIT <= linear < ADDRESS_LIMIT && linear / REACH_PML4 % 512 == 0
    ensures !Canonical(linear)
  {
    var q := linear / REACH_PML4;
    assert 1 <= q < 0x200_0000;
    Euclid(q, 512);
    assert q >= 512;
    if linear >= 0xFFFF_8000_0000_0000 {
      assert 0x1FF_FF00 <= q;
      RemainderUnique(q, 512, 0xFFFF, q - 0x1FF_FE00);
    }
  }

  // ------------------------------------------------------------------------- shadow-stack frames

  function FirstFrame(base: nat): nat { base / FRAME_2M }

  function LastFrame(base: nat, len: nat): nat
    requires len >= 1
  {
    (base + len - 1) / FRAME_2M
  }

  /** A range inside the map, none of whose frames holds a table. */
  predicate Acceptable(base: nat, len: nat) {
    && len != 0 && base < IDENTITY_LIMIT && len <= IDENTITY_LIMIT - base
    && !(FirstFrame(base) <= LAST_PT_FRAME && FIRST_PT_FRAME <= LastFrame(base, len))
  }

  /** The frame holds a byte of the range. */
  ghost predicate InFrame(base: nat, len: nat, f: nat) { exists a: nat :: base <= a < base + len && a / FRAME_2M == f }

  /** No frame that holds a byte of the range holds a byte of the tables. */
  ghost predicate MissesTables(base: nat, len: nat) {
    forall f: nat :: InFrame(base, len, f) ==> !InFrame(PT_BASE, PT_BYTES, f)
  }

  lemma AcceptableMeans(base: nat, len: nat)
    ensures Acceptable(base, len) <==> len > 0 && base + len <= IDENTITY_LIMIT && MissesTables(base, len)
  {
    if len > 0 && base + len <= IDENTITY_LIMIT {
      if Acceptable(base, len) {
        forall f: nat | InFrame(base, len, f) ensures !InFrame(PT_BASE, PT_BYTES, f) {
          var a: nat :| base <= a < base + len && a / FRAME_2M == f;
          Between(base, a, base + len - 1);
          if t: nat :| PT_BASE <= t < PT_BASE + PT_BYTES && t / FRAME_2M == f {
            Between(PT_BASE, t, PT_BASE + PT_BYTES - 1);
          }
        }
      } else {
        var f := if FirstFrame(base) < FIRST_PT_FRAME then FIRST_PT_FRAME else FirstFrame(base);
        var a := if FirstFrame(base) < FIRST_PT_FRAME then FIRST_PT_FRAME * FRAME_2M else base;
        var t := if f == FIRST_PT_FRAME then PT_BASE else PT_BASE + PT_BYTES - 1;
        assert f == FIRST_PT_FRAME || f == LAST_PT_FRAME;
        assert base <= a < base + len && a / FRAME_2M == f;
        assert InFrame(base, len, f);
        assert PT_BASE <= t < PT_BASE + PT_BYTES && t / FRAME_2M == f;
        assert InFrame(PT_BASE, PT_BYTES, f);
      }
    }
  }

  lemma Between(a: nat, b: nat, c: nat)
    requires a <= b <= c
    ensures a / FRAME_2M <= b / FRAME_2M <= c / FRAME_2M
  {
  }

  /** The frames of a range are those that hold a byte of it. */
  lemma FramesTouched(base: nat, len: nat, f: nat)
    ensures f in FramesOf(base, len) <==> InFrame(base, len, f)
  {
    if len > 0 {
      if a: nat :| base <= a < base + len && a / FRAME_2M == f { Between(base, a, base + len - 1); }
      if f in FramesOf(base, len) {
        var a := if f == FirstFrame(base) then base else f * FRAME_2M;
        Between(base, base + len - 1, base + len - 1);
        assert base <= a < base + len && a / FRAME_2M == f;
      }
    }
  }

  function FrameRange(first: nat, n: nat): (r: set<nat>)
    ensures forall f :: f in r <==> first <= f < n
  {
    if n <= first then {} else FrameRange(first, n - 1) + {n - 1}
  }

  /** The frames a range touches. */
  function FramesOf(base: nat, len: nat): set<nat> {
    if len == 0 then {} else FrameRange(FirstFrame(base), LastFrame(base, len) + 1)
  }

  lemma LeafStore(f: nat)
    requires f < FRAMES
    ensures TableWord(LeafAt(f)) && InPage(LeafAt(f), 8) && ShadowLeaf(f) < ADDRESS_LIMIT
  {
    Slots(f);
    WordInPage(LeafAt(f));
  }

  /** The tables after the frames from `first` up to `n` are converted. */
  function Remapped(m: Pages, first: nat, n: nat): (t: Pages)
    requires Wf(m) && n <= FRAMES
    ensures Wf(t)
    decreases n
  {
    if n <= first then m
    else
      LeafStore(n - 1);
      Stored(Remapped(m, first, n - 1), LeafAt(n - 1), Le(ShadowLeaf(n - 1), 8))
  }

  function AfterConvert(m: Pages, base: nat, len: nat): (t: Pages)
    requires Wf(m)
    ensures Wf(t)
  {
    if Acceptable(base, len) then
      assert LastFrame(base, len) < FRAMES by { FramesInside(base, len); }
      Remapped(m, FirstFrame(base), LastFrame(base, len) + 1)
    else m
  }

  lemma FramesInside(base: nat, len: nat)
    requires Acceptable(base, len)
    ensures FirstFrame(base) <= LastFrame(base, len) < FRAMES
  {
  }

  /** One more frame. */
  lemma ConvertOne(m: Pages, shadow: set<nat>, f: nat)
    requires Wf(m) && Identity(m, shadow) && f < FRAMES && f != FIRST_PT_FRAME && f != LAST_PT_FRAME
    ensures InPage(LeafAt(f), 8) && Identity(Stored(m, LeafAt(f), Le(ShadowLeaf(f), 8)), shadow + {f})
    ensures OnlyLow(m) ==> OnlyLow(Stored(m, LeafAt(f), Le(ShadowLeaf(f), 8)))
  {
    LeafStore(f);
    StoredTables(m, LeafAt(f), ShadowLeaf(f));
    hide Stored, WordOf, Le, PlainLeaf, ShadowLeaf, TableWord, LeafAt;
    var t := Stored(m, LeafAt(f), Le(ShadowLeaf(f), 8));
    Slots(f);
    RootsStay(m, t, LeafAt(f));
    forall k: nat | k < FRAMES ensures WordOf(t, LeafAt(k)) == if k == f then ShadowLeaf(f) else WordOf(m, LeafAt(k)) {
      Slots(k);
      LeavesApart(k, f);
    }
  }

  /** A change of one leaf word leaves the two upper levels alone. */
  lemma RootsStay(m: Pages, t: Pages, a: nat)
    requires Wf(m) && Wf(t) && PT_PD0 <= a && forall b: nat :: TableWord(b) && b != a ==> WordOf(t, b) == WordOf(m, b)
    ensures forall k: nat :: k < 512 ==> WordOf(t, PT_PDPT + k * 8) == WordOf(m, PT_PDPT + k * 8)
    ensures forall k: nat :: k < 512 ==> WordOf(t, PT_PML4 + k * 8) == WordOf(m, PT_PML4 + k * 8)
    ensures WordOf(t, PT_PML4) == WordOf(m, PT_PML4)
  {
    hide WordOf, TableWord;
    forall k: nat | k < 512
      ensures WordOf(t, PT_PDPT + k * 8) == WordOf(m, PT_PDPT + k * 8)
      ensures WordOf(t, PT_PML4 + k * 8) == WordOf(m, PT_PML4 + k * 8)
    {
      Slots(k);
    }
    assert PT_PML4 + 0 * 8 == PT_PML4;
    assert WordOf(t, PT_PML4 + 0 * 8) == WordOf(m, PT_PML4 + 0 * 8);
  }

  lemma LeavesApart(k: nat, f: nat)
    ensures LeafAt(k) == LeafAt(f) <==> k == f
  {
  }

  /** Only the leaf words of the frames converted so far differ. */
  ghost predicate SameButLeaves(m: Pages, t: Pages, first: nat, n: nat)
    requires Wf(m) && Wf(t)
  {
    forall h: nat :: !(LeafAt(first) <= Phys(h) < LeafAt(n)) ==> ByteOf(t, h) == ByteOf(m, h)
  }

  lemma {:induction false} RemappedIs(m: Pages, shadow: set<nat>, first: nat, n: nat)
    requires Wf(m) && Identity(m, shadow) && first <= n <= FRAMES && (n <= FIRST_PT_FRAME || LAST_PT_FRAME < first)
    ensures Identity(Remapped(m, first, n), shadow + FrameRange(first, n))
    ensures OnlyLow(m) ==> OnlyLow(Remapped(m, first, n))
    ensures SameButLeaves(m, Remapped(m, first, n), first, n)
    decreases n
  {
    hide Identity, OnlyLow, Stored, SameButLeaves, Le;
    var frames := FrameRange(first, n);
    if n == first {
      assert shadow + frames == shadow;
      SameBytes(m, first, n);
    } else {
      RemappedIs(m, shadow, first, n - 1);
      var before := FrameRange(first, n - 1);
      ConvertOne(Remapped(m, first, n - 1), shadow + before, n - 1);
      assert shadow + before + {n - 1} == shadow + frames;
      OneMoreLeaf(m, Remapped(m, first, n - 1), first, n);
    }
  }

  lemma SameBytes(m: Pages, first: nat, n: nat)
    requires Wf(m)
    ensures SameButLeaves(m, m, first, n)
  {
  }

  lemma OneMoreLeaf(m: Pages, t: Pages, first: nat, n: nat)
    requires Wf(m) && Wf(t) && first < n <= FRAMES && SameButLeaves(m, t, first, n - 1)
    ensures InPage(LeafAt(n - 1), 8) && SameButLeaves(m, Stored(t, LeafAt(n - 1), Le(ShadowLeaf(n - 1), 8)), first, n)
  {
    LeafStore(n - 1);
    WordInPage(LeafAt(n - 1));
    hide Stored, ByteOf, Le, ShadowLeaf, InPage, Phys;
    forall h: nat | !(LeafAt(first) <= Phys(h) < LeafAt(n))
      ensures ByteOf(Stored(t, LeafAt(n - 1), Le(ShadowLeaf(n - 1), 8)), h) == ByteOf(m, h)
    {
      StoredBytes(t, LeafAt(n - 1), Le(ShadowLeaf(n - 1), 8), h);
    }
  }

  /** An accepted range turns exactly the frames it touches into shadow-stack frames, by changing exactly their leaf
      words; a refused one changes nothing. */
  lemma ConvertIs(m: Pages, shadow: set<nat>, base: nat, len: nat)
    requires Wf(m) && Identity(m, shadow)
    ensures var t := AfterConvert(m, base, len);
            if Acceptable(base, len)
            then Identity(t, shadow + FramesOf(base, len))
                 && SameButLeaves(m, t, FirstFrame(base), LastFrame(base, len) + 1)
            else t == m
    ensures OnlyLow(m) ==> OnlyLow(AfterConvert(m, base, len))
  {
    hide Identity, OnlyLow, SameButLeaves, Remapped;
    if Acceptable(base, len) {
      FramesInside(base, len);
      var first, n := FirstFrame(base), LastFrame(base, len) + 1;
      RemappedIs(m, shadow, first, n);
    }
  }

  lemma RoundedRange(base: nat, len: nat)
    requires len >= 1
    ensures AndNot(base, FRAME_2M - 1) == FirstFrame(base) * FRAME_2M
    ensures Or(base + len - 1, FRAME_2M - 1) == LastFrame(base, len) * FRAME_2M + (FRAME_2M - 1)
  {
    hide Bits.Or, Bits.AndNot;
    assert Pow2(21) == FRAME_2M by { WordSizes(); assert Pow2(5) == 32; Pow2Adds(16, 5); }
    OrLowMask(base, 21);
    OrLowMask(base + len - 1, 21);
  }

  lemma TableWindow()
    ensures AndNot(PT_BASE, FRAME_2M - 1) == FIRST_PT_FRAME * FRAME_2M
    ensures Or(PT_BASE + PT_BYTES - 1, FRAME_2M - 1) == LAST_PT_FRAME * FRAME_2M + (FRAME_2M - 1)
  {
    hide Bits.Or, Bits.AndNot;
    RoundedRange(PT_BASE, PT_BYTES);
  }

  lemma LeafIndex(f: nat)
    requires f < FRAMES
    ensures PT_PD0 + f * FRAME_2M / PAGE_1G * 0x1000 + And(f * FRAME_2M / FRAME_2M, 0x1FF) * 8 == LeafAt(f)
  {
    assert Pow2(9) == 512;
    AndLowMask(f, 9);
    RemainderUnique(f * FRAME_2M, FRAME_2M, f, 0);
    assert f * FRAME_2M / PAGE_1G == f / 512;
  }

  /** `map_shadow_stack` */
  method MapShadowStack(mem: GuestMemory, base: nat, len: nat) returns (ok: bool)
    requires mem.Valid()
    modifies mem, mem.pages.Values
    ensures mem.Valid() && ok == Acceptable(base, len) && mem.Model() == AfterConvert(old(mem.Model()), base, len)
    ensures ok <==> len > 0 && base + len <= IDENTITY_LIMIT && MissesTables(base, len)
    ensures !ok ==> mem.Model() == old(mem.Model())
  {
    AcceptableMeans(base, len);
    hide Bits.Or, Bits.And, Bits.AndNot, Stored, Le, Remapped, ShadowLeaf, GuestMemory.Valid, GuestMemory.Model, InPage;
    if len == 0 || base >= IDENTITY_LIMIT || len > IDENTITY_LIMIT - base { return false; }
    ghost var m := mem.Model();
    RoundedRange(base, len);
    TableWindow();
    var first := AndNot(base, FRAME_2M - 1);
    var last := Or(base + len - 1, FRAME_2M - 1);
    var ptFirst := AndNot(PT_BASE, FRAME_2M - 1);
    var ptLast := Or(PT_BASE + PT_BYTES - 1, FRAME_2M - 1);
    if first <= ptLast && ptFirst <= last { return false; }
    FramesInside(base, len);
    var a := first;
    ghost var f := FirstFrame(base);
    RemappedNone(m, f);
    while a <= last
      invariant a == f * FRAME_2M && FirstFrame(base) <= f <= LastFrame(base, len) + 1
      invariant mem.Valid() && mem.Model() == Remapped(m, FirstFrame(base), f)
      invariant forall k :: k in mem.pages && (k !in old(mem.pages) || mem.pages[k] != old(mem.pages[k]))
                            ==> fresh(mem.pages[k])
      decreases LastFrame(base, len) + 1 - f
    {
      LeafStore(f);
      LeafIndex(f);
      LeafFlags(f);
      RemappedNext(m, FirstFrame(base), f);
      var pd := PT_PD0 + a / PAGE_1G * 0x1000;
      var pde := Or(Or(Or(a, PTE_P), PTE_D), PTE_PS);
      mem.Write(pd + And(a / FRAME_2M, 0x1FF) * 8, Le(pde, 8));
      a := a + FRAME_2M;
      f := f + 1;
    }
    ok := true;
  }

  lemma RemappedNone(m: Pages, first: nat)
    requires Wf(m) && first <= FRAMES
    ensures Remapped(m, first, first) == m
  {
  }

  lemma RemappedNext(m: Pages, first: nat, f: nat)
    requires Wf(m) && first <= f < FRAMES
    ensures InPage(LeafAt(f), 8)
    ensures Remapped(m, first, f + 1) == Stored(Remapped(m, first, f), LeafAt(f), Le(ShadowLeaf(f), 8))
  {
    LeafStore(f);
  }

  // ------------------------------------------------------------------------- any run

  datatype Event = Convert(base: nat, len: nat) | Data(gpa: nat, data: seq<Byte>)

  /** Data never goes to the tables. */
  predicate LegalEvent(e: Event) {
    e.Data? ==> InPage(e.gpa, |e.data|) && (Phys(e.gpa) + |e.data| <= PT_BASE || PT_BASE + PT_BYTES <= Phys(e.gpa))
  }

  predicate LegalRun(events: seq<Event>) { forall e :: e in events ==> LegalEvent(e) }

  function After(m: Pages, e: Event): (t: Pages)
    requires Wf(m) && LegalEvent(e)
    ensures Wf(t)
  {
    match e
    case Convert(base, len) => AfterConvert(m, base, len)
    case Data(gpa, data) => Stored(m, gpa, data)
  }

  function AfterAll(m: Pages, events: seq<Event>): (t: Pages)
    requires Wf(m) && LegalRun(events)
    ensures Wf(t)
    decreases |events|
  {
    if events == [] then m else AfterAll(After(m, events[0]), events[1..])
  }

  /** The frames of the ranges accepted in a run. */
  function Converted(events: seq<Event>): set<nat> {
    if events == [] then {}
    else
      match events[0]
      case Convert(base, len) =>
        (if Acceptable(base, len) then FramesOf(base, len) else {}) + Converted(events[1..])
      case Data(_, _) => Converted(events[1..])
  }

  lemma DataKeepsIdentity(m: Pages, shadow: set<nat>, gpa: nat, data: seq<Byte>)
    requires Wf(m) && Identity(m, shadow) && OnlyLow(m) && LegalEvent(Data(gpa, data))
    ensures Identity(Stored(m, gpa, data), shadow) && OnlyLow(Stored(m, gpa, data))
  {
    hide Stored, WordOf, PlainLeaf, ShadowLeaf, TableWord, LeafAt, InPage, Phys;
    var t := Stored(m, gpa, data);
    forall b: nat | TableWord(b) ensures WordOf(t, b) == WordOf(m, b) { StoredElsewhere(m, gpa, data, b); }
    forall k: nat | k < 512
      ensures WordOf(t, PT_PDPT + k * 8) == WordOf(m, PT_PDPT + k * 8)
      ensures WordOf(t, PT_PML4 + k * 8) == WordOf(m, PT_PML4 + k * 8)
    {
      Slots(k);
    }
    Slots(0);
    assert WordOf(t, PT_PML4 + 0 * 8) == WordOf(m, PT_PML4 + 0 * 8);
    forall k: nat | k < FRAMES ensures WordOf(t, LeafAt(k)) == WordOf(m, LeafAt(k)) { Slots(k); }
  }

  /** After any run of conversions and data, every address below 512 GiB translates to itself and no other translates at
      all; the shadow-stack frames are those of the ranges accepted, and none of them holds a table. */
  lemma {:induction false} IdentityForever(m: Pages, shadow: set<nat>, events: seq<Event>, linear: nat)
    requires Wf(m) && Identity(m, shadow) && OnlyLow(m) && linear < ADDRESS_LIMIT
    requires LegalRun(events)
    ensures Identity(AfterAll(m, events), shadow + Converted(events)) && OnlyLow(AfterAll(m, events))
    ensures var plain := linear / FRAME_2M !in shadow + Converted(events);
            Walk(FromPages(AfterAll(m, events)), PT_PML4, linear)
            == if linear < IDENTITY_LIMIT then Some(Mapping(linear, plain, plain, true)) else None
    decreases |events|
  {
    hide Identity, OnlyLow, Walk, FromPages, Stored, AfterConvert, Acceptable, FramesOf;
    if events == [] {
      assert shadow + Converted(events) == shadow;
      if linear < IDENTITY_LIMIT { IdentityWalk(m, shadow, linear); } else { NothingAbove(m, shadow, linear); }
    } else {
      var e := events[0];
      assert LegalEvent(e);
      match e
      case Convert(base, len) =>
        ConvertIs(m, shadow, base, len);
        var more := if Acceptable(base, len) then FramesOf(base, len) else {};
        assert shadow + more + Converted(events[1..]) == shadow + Converted(events);
        assert shadow + {} == shadow;
        IdentityForever(AfterConvert(m, base, len), shadow + more, events[1..], linear);
      case Data(gpa, data) =>
        DataKeepsIdentity(m, shadow, gpa, data);
        IdentityForever(Stored(m, gpa, data), shadow, events[1..], linear);
    }
  }

  /** Translation after a run on tables without shadow-stack frames. */
  ghost predicate TranslatesAfter(m: Pages, events: seq<Event>, linear: nat)
    requires Wf(m) && LegalRun(events)
  {
    var plain := linear / FRAME_2M !in Converted(events);
    Walk(FromPages(AfterAll(m, events)), PT_PML4, linear)
    == if linear < IDENTITY_LIMIT then Some(Mapping(linear, plain, plain, true)) else None
  }

  /** What a new instance has done to the memory before anything else happens: it is cleared and gets its tables. From
      then on translation is the identity, whatever the run. */
  method StartInstance(mem: GuestMemory)
    requires mem.Valid()
    modifies mem, mem.pages.Values
    ensures mem.Valid() && Identity(mem.Model(), {}) && OnlyLow(mem.Model())
    ensures forall h: nat :: !(PT_BASE <= Phys(h) < PT_BASE + PT_BYTES) ==> ByteOf(mem.Model(), h) == 0
    ensures forall events: seq<Event>, linear: nat | LegalRun(events) && linear < ADDRESS_LIMIT ::
              TranslatesAfter(mem.Model(), events, linear)
  {
    mem.Clear();
    FreshOnlyLow();
    hide Identity, OnlyLow, Walk, FromPages, GuestMemory.Valid, GuestMemory.Model, AfterAll, Converted;
    BuildIdentityMap(mem);
    forall events: seq<Event>, linear: nat | LegalRun(events) && linear < ADDRESS_LIMIT
      ensures TranslatesAfter(mem.Model(), events, linear)
    {
      IdentityForever(mem.Model(), {}, events, linear);
      assert {} + Converted(events) == Converted(events);
    }
  }
}
