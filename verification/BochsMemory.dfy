/**
 The sparse guest memory behind the Bochs backend: 4 KiB host pages made on first touch, standing for a flat space of
 2^52 bytes that are zero until written.

 Its value is a map from page addresses to page contents. `ByteOf` reads that map as the flat space; the class holds
 the host pages themselves, which the emulator also reaches by pointer.
 */
module BochsMemory {
  import opened Arith
  import opened Bytes

  const PG_SIZE: nat := 0x1000
  const PHY_LIMIT: nat := 0x10_0000_0000_0000
  const ADDRESS_LIMIT: nat := 0x1_0000_0000_0000_0000

  type Pages = map<nat, seq<Byte>>

  /** `gpa & PHY_MASK` */
  function Phys(gpa: nat): nat { gpa % PHY_LIMIT }

  function Offset(gpa: nat): nat { Phys(gpa) % PG_SIZE }

  /** `(gpa & PHY_MASK) & PG_MASK` */
  function Key(gpa: nat): nat { Phys(gpa) - Offset(gpa) }

  predicate Wf(m: Pages) { forall k :: k in m ==> k % PG_SIZE == 0 && k < PHY_LIMIT && |m[k]| == PG_SIZE }

  function ZeroPage(): (z: seq<Byte>)
    ensures |z| == PG_SIZE && forall o :: 0 <= o < PG_SIZE ==> z[o] == 0
  {
    seq(PG_SIZE, _ => 0)
  }

  // ------------------------------------------------------------------------- the flat space

  /** The byte at an address; a page never touched reads as zeros. */
  function ByteOf(m: Pages, gpa: nat): Byte
    requires Wf(m)
  {
    if Key(gpa) in m then m[Key(gpa)][Offset(gpa)] else 0
  }

  predicate Mapped(m: Pages, gpa: nat) { Key(gpa) in m }

  /** One access, which the emulator never lets cross a page. */
  predicate InPage(gpa: nat, len: nat) { Offset(gpa) + len <= PG_SIZE }

  function Touched(m: Pages, gpa: nat): (t: Pages)
    requires Wf(m)
    ensures Wf(t) && Key(gpa) in t
  {
    KeyAligned(gpa);
    if Key(gpa) in m then m else m[Key(gpa) := ZeroPage()]
  }

  function Stored(m: Pages, gpa: nat, data: seq<Byte>): (t: Pages)
    requires Wf(m) && InPage(gpa, |data|)
    ensures Wf(t)
  {
    var t := Touched(m, gpa);
    t[Key(gpa) := Splice(t[Key(gpa)], Offset(gpa), data)]
  }

  lemma KeyAligned(gpa: nat)
    ensures Key(gpa) % PG_SIZE == 0 && Key(gpa) <= Phys(gpa) < Key(gpa) + PG_SIZE && Key(gpa) < PHY_LIMIT
  {
    var p := Phys(gpa);
    Euclid(p, PG_SIZE);
    RemainderUnique(p / PG_SIZE * PG_SIZE, PG_SIZE, p / PG_SIZE, 0);
  }

  /** Two addresses share a page exactly when the page holds both. */
  lemma SamePage(g: nat, h: nat)
    ensures Key(g) == Key(h) <==> Key(g) <= Phys(h) < Key(g) + PG_SIZE
  {
    KeyAligned(g);
    KeyAligned(h);
    if Key(g) <= Phys(h) < Key(g) + PG_SIZE {
      Euclid(Key(g), PG_SIZE);
      Euclid(Key(h), PG_SIZE);
    }
  }

  /** Making a page changes no byte, and maps its 4 KiB only. */
  lemma TouchedBytes(m: Pages, gpa: nat, h: nat)
    requires Wf(m)
    ensures ByteOf(Touched(m, gpa), h) == ByteOf(m, h)
    ensures Mapped(Touched(m, gpa), h) <==> Mapped(m, h) || Key(h) == Key(gpa)
  {
  }

  /** A store changes the bytes it covers and no others. */
  lemma StoredBytes(m: Pages, gpa: nat, data: seq<Byte>, h: nat)
    requires Wf(m) && InPage(gpa, |data|)
    ensures ByteOf(Stored(m, gpa, data), h)
            == if Phys(gpa) <= Phys(h) < Phys(gpa) + |data| then data[Phys(h) - Phys(gpa)] else ByteOf(m, h)
    ensures Mapped(Stored(m, gpa, data), h) <==> Mapped(m, h) || Key(h) == Key(gpa)
  {
    TouchedBytes(m, gpa, h);
    SamePage(gpa, h);
    KeyAligned(gpa);
    KeyAligned(h);
  }

  function BytesOf(m: Pages, gpa: nat, len: nat): (r: seq<Byte>)
    requires Wf(m)
    ensures |r| == len
  {
    seq<Byte>(len, i requires 0 <= i < len => ByteOf(m, gpa + i))
  }

  // ------------------------------------------------------------------------- the host pages

  class GuestMemory {
    var pages: map<nat, array<Byte>>

    /** Every key is a page address with a page of its own. */
    ghost predicate Valid()
      reads `pages
    {
      && (forall k :: k in pages ==> k % PG_SIZE == 0 && k < PHY_LIMIT && pages[k].Length == PG_SIZE)
      && (forall k, l :: k in pages && l in pages && pages[k] == pages[l] ==> k == l)
    }

    ghost function Model(): (m: Pages)
      requires Valid()
      reads `pages, pages.Values
      ensures Wf(m)
    {
      map k | k in pages :: pages[k][..]
    }

    constructor ()
      ensures Valid() && Model() == map[]
    {
      pages := map[];
    }

    method Clear()
      modifies `pages
      ensures Valid() && pages == map[] && Model() == map[]
    {
      pages := map[];
    }

    /** The host page of an address, made on demand; without `alloc`, null when there is none. */
    method Page(gpa: nat, alloc: bool) returns (p: array?<Byte>)
      requires Valid()
      modifies `pages
      ensures Valid()
      ensures Model() == if alloc then Touched(old(Model()), gpa) else old(Model())
      ensures p == null <==> !alloc && !Mapped(old(Model()), gpa)
      ensures p != null ==> Key(gpa) in pages && pages[Key(gpa)] == p
      ensures forall k :: k in old(pages) ==> k in pages && pages[k] == old(pages[k])
      ensures forall k :: k in pages && k !in old(pages) ==> fresh(pages[k])
    {
      var key := Key(gpa);
      if key in pages { return pages[key]; }
      if !alloc { return null; }
      KeyAligned(gpa);
      p := new Byte[PG_SIZE](_ => 0);
      ghost var before := Model();
      pages := pages[key := p];
      assert p[..] == ZeroPage();
      assert Model() == before[key := ZeroPage()];
    }

    method IsMapped(gpa: nat) returns (mapped: bool)
      requires Valid()
      modifies `pages
      ensures Valid() && Model() == old(Model()) && (mapped <==> gpa % PHY_LIMIT / PG_SIZE * PG_SIZE in Model())
    {
      var p := Page(gpa, false);
      mapped := p != null;
      Euclid(Phys(gpa), PG_SIZE);
    }

    method Read(gpa: nat, len: nat) returns (dst: seq<Byte>)
      requires Valid() && InPage(gpa, len)
      modifies `pages
      ensures Valid() && Model() == old(Model()) && dst == BytesOf(Model(), gpa, len)
    {
      hide Key, Offset;
      var p := Page(gpa, false);
      InOnePage(Model(), gpa, len);
      if p == null { return seq(len, _ => 0); }
      assert p[..] == Model()[Key(gpa)];
      dst := p[Offset(gpa)..Offset(gpa) + len];
    }

    /** Copies into a page, which leaves the other pages alone. */
    method CopyInto(p: array<Byte>, ghost key: nat, o: nat, src: seq<Byte>)
      requires Valid() && key in pages && pages[key] == p && o + |src| <= PG_SIZE
      modifies p
      ensures Valid() && Model() == old(Model())[key := Splice(old(Model())[key], o, src)]
    {
      ghost var before := Model();
      CopyBytes(p, o, src);
      assert Model() == before[key := p[..]];
    }

    method Write(gpa: nat, src: seq<Byte>)
      requires Valid() && InPage(gpa, |src|)
      modifies this, pages.Values
      ensures Valid() && Model() == Stored(old(Model()), gpa, src)
      ensures forall k :: k in pages && (k !in old(pages) || pages[k] != old(pages[k])) ==> fresh(pages[k])
    {
      hide Key, Offset;
      var p := Page(gpa, true);
      CopyInto(p, Key(gpa), Offset(gpa), src);
    }

    /** `getHostMemAddr`: the page itself, made even for a read, for the emulator to keep and store through. */
    method GetHostMemAddr(gpa: nat) returns (p: array<Byte>)
      requires Valid()
      modifies `pages
      ensures Valid() && Model() == Touched(old(Model()), gpa) && p.Length == PG_SIZE && p[..] == Model()[Key(gpa)]
    {
      var page := Page(gpa, true);
      p := page;
      assert p[..] == Model()[Key(gpa)];
    }

    method ReadSlice(addr: nat, len: nat) returns (dst: seq<Byte>)
      requires Valid()
      modifies `pages
      ensures Valid() && Model() == old(Model()) && |dst| == len
      ensures forall i: nat :: i < len ==> dst[i] == ByteOf(Model(), Wrap(addr, i))
    {
      dst := [];
      for i := 0 to len
        invariant Valid() && Model() == old(Model()) && |dst| == i
        invariant forall j: nat :: j < i ==> dst[j] == ByteOf(Model(), Wrap(addr, j))
      {
        OneByteInPage(Wrap(addr, i));
        var b := Read(Wrap(addr, i), 1);
        assert b[0] == ByteOf(Model(), Wrap(addr, i) + 0);
        dst := dst + b;
      }
    }

    method WriteSlice(addr: nat, src: seq<Byte>)
      requires Valid()
      modifies this, pages.Values
      ensures Valid() && Model() == SliceStored(old(Model()), addr, src, |src|)
    {
      hide Stored, SliceStored, Model, Valid, Wrap;
      ghost var before := Model();
      NothingStored(before, addr, src);
      for i := 0 to |src|
        invariant Valid() && Model() == SliceStored(before, addr, src, i)
        invariant forall k :: k in pages && (k !in old(pages) || pages[k] != old(pages[k])) ==> fresh(pages[k])
      {
        OneByteInPage(Wrap(addr, i));
        OneMoreStored(before, addr, src, i);
        Write(Wrap(addr, i), [src[i]]);
      }
    }
  }

  /** `addr + i` in 64 bits. */
  function Wrap(addr: nat, i: nat): nat { (addr + i) % ADDRESS_LIMIT }

  lemma OneByteInPage(gpa: nat)
    ensures InPage(gpa, 1)
  {
  }

  /** The first `n` bytes of a slice, stored one at a time. */
  function SliceStored(m: Pages, addr: nat, src: seq<Byte>, n: nat): (t: Pages)
    requires Wf(m) && n <= |src|
    ensures Wf(t)
  {
    if n == 0 then m
    else
      OneByteInPage(Wrap(addr, n - 1));
      Stored(SliceStored(m, addr, src, n - 1), Wrap(addr, n - 1), [src[n - 1]])
  }

  lemma NothingStored(m: Pages, addr: nat, src: seq<Byte>)
    requires Wf(m)
    ensures SliceStored(m, addr, src, 0) == m
  {
  }

  lemma OneMoreStored(m: Pages, addr: nat, src: seq<Byte>, i: nat)
    requires Wf(m) && i < |src|
    ensures InPage(Wrap(addr, i), 1)
    ensures SliceStored(m, addr, src, i + 1) == Stored(SliceStored(m, addr, src, i), Wrap(addr, i), [src[i]])
  {
    OneByteInPage(Wrap(addr, i));
  }

  predicate Hits(addr: nat, i: nat, h: nat) { Phys(Wrap(addr, i)) == Phys(h) }

  /** A slice leaves at each address the last of its bytes that lands there, and changes no other address. */
  lemma {:induction false} SliceBytes(m: Pages, addr: nat, src: seq<Byte>, n: nat, h: nat)
    requires Wf(m) && n <= |src|
    ensures (forall i: nat :: i < n ==> !Hits(addr, i, h)) ==> ByteOf(SliceStored(m, addr, src, n), h) == ByteOf(m, h)
    ensures forall i: nat :: i < n && Hits(addr, i, h) && (forall j: nat :: i < j < n ==> !Hits(addr, j, h)) ==>
              ByteOf(SliceStored(m, addr, src, n), h) == src[i]
  {
    hide Stored, ByteOf, Phys, Wrap, Hits, InPage;
    if n > 0 {
      SliceBytes(m, addr, src, n - 1, h);
      OneByteInPage(Wrap(addr, n - 1));
      StoredBytes(SliceStored(m, addr, src, n - 1), Wrap(addr, n - 1), [src[n - 1]], h);
      HitsMeans(addr, n - 1, h);
    }
  }

  lemma HitsMeans(addr: nat, i: nat, h: nat)
    ensures Hits(addr, i, h) <==> Phys(Wrap(addr, i)) <= Phys(h) < Phys(Wrap(addr, i)) + 1
  {
  }

  // ------------------------------------------------------------------------- any run

  /** What happens to the memory: a store, by the interface or by the emulator through a pointer; a page made for a
      pointer; or the end of one instance and the start of the next. */
  datatype Op = Store(gpa: nat, data: seq<Byte>) | HostPointer(gpa: nat) | Reset

  predicate LegalOp(op: Op) { op.Store? ==> InPage(op.gpa, |op.data|) }

  function Apply(m: Pages, op: Op): (t: Pages)
    requires Wf(m) && LegalOp(op)
    ensures Wf(t)
  {
    match op
    case Store(gpa, data) => Stored(m, gpa, data)
    case HostPointer(gpa) => Touched(m, gpa)
    case Reset => map[]
  }

  function Run(ops: seq<Op>): (m: Pages)
    requires forall op :: op in ops ==> LegalOp(op)
    ensures Wf(m)
  {
    if ops == [] then map[] else Apply(Run(ops[..|ops| - 1]), ops[|ops| - 1])
  }

  /** The byte last stored at `h` since the last reset, or zero. */
  function LastStored(ops: seq<Op>, h: nat): Byte {
    if ops == [] then 0
    else
      match ops[|ops| - 1]
      case Store(gpa, data) =>
        if Phys(gpa) <= Phys(h) < Phys(gpa) + |data| then data[Phys(h) - Phys(gpa)] else LastStored(ops[..|ops| - 1], h)
      case HostPointer(_) => LastStored(ops[..|ops| - 1], h)
      case Reset => 0
  }

  /** Some operation since the last reset was on the page of `h`. */
  predicate PageUsed(ops: seq<Op>, h: nat) {
    ops != [] &&
      match ops[|ops| - 1]
      case Store(gpa, _) => Key(gpa) == Key(h) || PageUsed(ops[..|ops| - 1], h)
      case HostPointer(gpa) => Key(gpa) == Key(h) || PageUsed(ops[..|ops| - 1], h)
      case Reset => false
  }

  /** The page map is the flat memory: over any run, every address reads as what was last stored there, and is mapped
      exactly when its page was used. */
  lemma {:induction false} RunIsFlat(ops: seq<Op>, h: nat)
    requires forall op :: op in ops ==> LegalOp(op)
    ensures ByteOf(Run(ops), h) == LastStored(ops, h)
    ensures Mapped(Run(ops), h) <==> PageUsed(ops, h)
  {
    if ops != [] {
      hide Stored, Touched, Key, Offset, Phys, ByteOf, Mapped;
      var rest, op := ops[..|ops| - 1], ops[|ops| - 1];
      RunIsFlat(rest, h);
      assert op in ops && LegalOp(op);
      match op
      case Store(gpa, data) => StoredBytes(Run(rest), gpa, data, h);
      case HostPointer(gpa) => TouchedBytes(Run(rest), gpa, h);
      case Reset => NothingMapped(h);
    } else {
      NothingMapped(h);
    }
  }

  lemma NothingMapped(h: nat)
    ensures Wf(map[]) && ByteOf(map[], h) == 0 && !Mapped(map[], h)
  {
  }

  /** The bytes of an access, from its page or as zeros. */
  lemma InOnePage(m: Pages, gpa: nat, len: nat)
    requires Wf(m) && InPage(gpa, len)
    ensures BytesOf(m, gpa, len)
            == if Mapped(m, gpa) then m[Key(gpa)][Offset(gpa)..Offset(gpa) + len] else seq(len, _ => 0)
  {
    hide Key, Offset;
    forall i | 0 <= i < len
      ensures BytesOf(m, gpa, len)[i] == if Mapped(m, gpa) then m[Key(gpa)][Offset(gpa) + i] else 0
    {
      StepInPage(gpa, i);
      assert BytesOf(m, gpa, len)[i] == ByteOf(m, gpa + i);
    }
  }

  lemma StepInPage(gpa: nat, i: nat)
    requires InPage(gpa, i + 1)
    ensures Key(gpa + i) == Key(gpa) && Offset(gpa + i) == Offset(gpa) + i
  {
    KeyAligned(gpa);
    var p, q := Phys(gpa), gpa / PHY_LIMIT;
    Euclid(Key(gpa), PG_SIZE);
    assert Key(gpa) + PG_SIZE <= PHY_LIMIT;
    RemainderUnique(gpa + i, PHY_LIMIT, q, p + i);
    RemainderUnique(p + i, PG_SIZE, Key(gpa) / PG_SIZE, Offset(gpa) + i);
  }
}
