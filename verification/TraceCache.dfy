/**
 The decoded-trace cache of the Bochs core and its self-modifying-code path.

 A trace is cached at index `hash(pAddr, fetchModeMask)`, which displaces it from the entries of its own
 128-byte line. A store looks for the traces it may have changed by walking a bounded run of entries, and only
 if the page-write stamps say that some trace was built from the stored lines. The class below is the cache
 with its stamps; its invariant is that no cached trace disagrees with memory, and every method keeps it.
 */
module TraceCache {
  import opened Arith
  import opened Bits
  import opened Bytes
  import opened Wrappers

  const ENTRIES: nat := 0x1_0000
  const STAMPS: nat := 0x10_0000
  const SPLITS: nat := 8
  const POOL: nat := 576 * 1024
  const MAX_TRACE_LENGTH: nat := 32
  const LINK_STAMP_LIMIT: nat := 0xFFFF_FFFF
  const WORD32: nat := 0x1_0000_0000
  /** Physical addresses have 52 bits; the cache marks an entry dead with the all-ones 64-bit value. */
  const PHY_LIMIT: nat := 0x10_0000_0000_0000
  const DEAD: nat := 0xFFFF_FFFF_FFFF_FFFF

  /** `trace` is the trace the entry points at, numbered in the order of decoding; `lens` are the lengths of its
      instructions, `tlen` counts them and the end-of-trace opcode behind them; `code` is the memory they were decoded
      from, `mode` the fetch mode they were decoded under. */
  datatype Entry = Entry(
    pAddr: nat, traceMask: nat, tlen: nat, mode: nat, trace: nat, lens: seq<nat>, code: map<nat, Byte>)

  /** The instructions of an entry and the end-of-trace opcode. */
  predicate Counted(e: Entry) {
    e.tlen == |e.lens| + 1 && e.lens != [] && forall n :: 0 <= n < |e.lens| ==> e.lens[n] >= 1
  }

  /** One instruction that crosses into the page `ppf`, all its bytes being in the code. */
  ghost predicate Crosses(e: Entry, ppf: nat) {
    var first := 4096 - e.pAddr % 4096;
    && |e.lens| == 1 && first < e.lens[0]
    && forall a :: a in e.code <==> e.pAddr <= a < e.pAddr + first || ppf <= a < ppf + (e.lens[0] - first)
  }

  /** A trace of one instruction that crosses into the physical page `ppf`. */
  datatype Split = Split(ppf: nat, e: nat)

  /** An instruction of a trace. */
  datatype Place = Place(trace: nat, branch: nat)

  /** A direct jump into another trace, good while the link stamp has not moved past `stamp`. */
  datatype Link = Link(target: nat, stamp: nat)

  /** A store of the guest. */
  datatype GuestStore = GuestStore(pAddr: nat, data: seq<Byte>)

  function Read(mem: map<nat, Byte>, a: nat): Byte {
    if a in mem then mem[a] else 0
  }

  /** Index of the page-write stamp: pages 4 GiB apart share one. */
  function StampIndex(pAddr: nat): (i: nat)
    ensures i < STAMPS
  {
    pAddr % WORD32 / 4096
  }

  /** Number of the 128-byte line inside its page. */
  function Line(pAddr: nat): (n: nat)
    ensures n < 32
  {
    pAddr % 4096 / 128
  }

  function Hash(pAddr: nat, fetchModeMask: nat): nat {
    Xor(And(pAddr, ENTRIES - 1), fetchModeMask)
  }

  /** The lines a store of `len` bytes at `pAddr` touches, as the stamp table computes them. */
  function StoreMask(pAddr: nat, len: nat): nat
    requires len >= 1
  {
    Or(Pow2(Line(pAddr)), Pow2(Line(pAddr + len - 1)))
  }

  /** An address that the stamp table takes for one in the lines stored to: pages 4 GiB apart are one to it. */
  predicate InStoredLines(pAddr: nat, len: nat, a: nat)
    requires len >= 1
  {
    StampIndex(a) == StampIndex(pAddr) && Bit(StoreMask(pAddr, len), Line(a))
  }

  /** How far the walk goes: every written line and the line after it. */
  function WalkMask(mask: nat): nat {
    Or(mask, mask * 2 % WORD32)
  }

  /** The walk visits the 128 entries of a line while the line's bit does not exceed the walk mask. */
  predicate Walked(x: nat, pAddr: nat, walkMask: nat) {
    var base := Hash(pAddr - pAddr % 4096, 0);
    base <= x < base + 4096 && Pow2((x - base) / 128) <= walkMask
  }

  predicate Live(e: Entry) { e.pAddr < PHY_LIMIT }

  function Stored(mem: map<nat, Byte>, at: nat, data: seq<Byte>): map<nat, Byte> {
    mem + map a | at <= a < at + |data| :: ByteAt(data, at, a)
  }

  function ByteAt(data: seq<Byte>, at: nat, a: nat): Byte
    requires at <= a < at + |data|
  {
    data[a - at]
  }

  /** The writes of a slice, one byte after the other. */
  function StoredSlice(mem: map<nat, Byte>, addr: nat, src: seq<Byte>): map<nat, Byte> {
    if src == [] then mem
    else
      var last := |src| - 1;
      StoredSlice(mem, addr, src[..last])[(addr + last) % PHY_LIMIT := src[last]]
  }

  /** The bytes an instruction is decoded from. */
  function Snapshot(mem: map<nat, Byte>, at: nat, len: nat): map<nat, Byte> {
    map a | at <= a < at + len :: Read(mem, a)
  }

  /** The bytes of an instruction that runs from `pAddr` over the page end into `ppf`. */
  function Crossing(mem: map<nat, Byte>, pAddr: nat, len: nat, ppf: nat): map<nat, Byte>
    requires 4096 - pAddr % 4096 < len
  {
    var first := 4096 - pAddr % 4096;
    Snapshot(mem, pAddr, first) + Snapshot(mem, ppf, len - first)
  }

  /** The links of trace `t`, by their place in it. */
  function Placed(t: nat, links: map<nat, Link>): (r: map<Place, Link>)
    ensures forall k :: k in r <==> k.trace == t && k.branch in links
    ensures forall k :: k in r ==> r[k] == links[k.branch]
  {
    var keys := set b | b in links :: Place(t, b);
    map k | k in keys :: links[k.branch]
  }

  function WithLinks(next: map<Place, Link>, t: nat, links: map<nat, Link>): map<Place, Link> {
    next + Placed(t, links)
  }

  function Sum(lens: seq<nat>): nat {
    if lens == [] then 0 else lens[0] + Sum(lens[1..])
  }

  /** Bytes that memory held are changed by a store exactly if it stores another value over one of them. */
  lemma ChangedBytes(code: map<nat, Byte>, m: map<nat, Byte>, pAddr: nat, data: seq<Byte>)
    requires forall a :: a in code ==> Read(m, a) == code[a]
    ensures (exists a :: a in code && Read(Stored(m, pAddr, data), a) != code[a])
            <==> exists a :: a in code && pAddr <= a < pAddr + |data| && ByteAt(data, pAddr, a) != code[a]
  {
    var m' := Stored(m, pAddr, data);
    forall a | a in code
      ensures Read(m', a) == if pAddr <= a < pAddr + |data| then ByteAt(data, pAddr, a) else Read(m, a)
    {
    }
  }

  /** A store that reaches a stamped line of a trace finds the stamp; the bytes it stores are in its lines. */
  lemma StampedHits(stamps: nat, code: map<nat, Byte>, pAddr: nat, len: nat)
    requires 1 <= len <= 64 && pAddr % 4096 + len <= 4096
    requires forall a :: a in code && StampIndex(a) == StampIndex(pAddr) ==> Bit(stamps, Line(a))
    ensures (exists a :: a in code && InStoredLines(pAddr, len, a)) ==> And(stamps, StoreMask(pAddr, len)) != 0
    ensures forall a :: pAddr <= a < pAddr + len ==> InStoredLines(pAddr, len, a)
  {
    forall a | pAddr <= a < pAddr + len ensures InStoredLines(pAddr, len, a) { StoreMaskCovers(pAddr, len, a); }
    if a :| a in code && InStoredLines(pAddr, len, a) {
      AndNonZero(stamps, StoreMask(pAddr, len), Line(a));
    }
  }

  // ------------------------------------------------------------------------- the index arithmetic

  lemma HashByMode(pAddr: nat, mode: nat)
    requires mode < 0x100
    ensures Hash(pAddr, mode) < ENTRIES
    ensures Hash(pAddr, mode) / 256 == pAddr % ENTRIES / 256
  {
    WordSizes();
    LowWord(pAddr);
    XorKeepsHigh(pAddr % ENTRIES, mode, 8);
    XorKeepsHigh(pAddr % ENTRIES, mode, 16);
  }

  /** An address found under two fetch modes would have two indices: a hit is a hit in its own mode. */
  lemma HashSeparatesModes(pAddr: nat, mode: nat, mode': nat)
    requires Hash(pAddr, mode) == Hash(pAddr, mode')
    ensures mode == mode'
  {
    var low := And(pAddr, ENTRIES - 1);
    forall k: nat ensures Bit(mode, k) <==> Bit(mode', k) {
      XorBit(low, mode, k);
      XorBit(low, mode', k);
    }
    BitExtensional(mode, mode');
  }

  lemma {:induction false} LowOnes(n: nat, k: nat)
    ensures Bit(Pow2(n) - 1, k) <==> k < n
  {
    if k < n {
      var x := Pow2(n - 1) - 1;
      assert Pow2(n) - 1 == 2 * x + 1;
      hide Bits.Pow2;
      assert (2 * x + 1) / 2 == x && (2 * x + 1) % 2 == 1;
      if k > 0 { LowOnes(n - 1, k - 1); }
    } else {
      NoHighBit(Pow2(n) - 1, n, k);
    }
  }

  /** The walk mask has the bit of every written line and of its successor inside the page. */
  lemma WalkMaskBits(mask: nat, w: nat, k: nat)
    requires w < 32 && Bit(mask, w) && (k == w || k == w + 1 < 32)
    ensures Bit(WalkMask(mask), k)
  {
    WordSizes();
    OrBit(mask, mask * 2 % WORD32, k);
    if k == w + 1 {
      AndLowMask(mask * 2, 32);
      AndBit(mask * 2, Pow2(32) - 1, k);
      LowOnes(32, k);
    }
  }

  /** Every entry that a trace of the written lines can occupy is on the walk, wherever its fetch mode put it:
      in the line the trace starts in or in the one it is exchanged with, line 31 included. */
  lemma WalkReaches(p: nat, mode: nat, stored: nat, w: nat, mask: nat)
    requires mode < 0x100
    requires StampIndex(p) == StampIndex(stored)
    requires Line(p) <= w < 32 && Bit(mask, w)
    ensures Walked(Hash(p, mode), stored, WalkMask(mask))
  {
    var x := Hash(p, mode);
    HashByMode(p, mode);
    PageBase(stored);
    SamePageLow(p, stored);
    DisplacedLine(x, p, stored);
    var n := (x - (stored % ENTRIES - stored % 4096)) / 128;
    var k := if n <= w then w else w + 1;
    WalkMaskBits(mask, w, k);
    BitLowerBound(WalkMask(mask), k);
    Pow2Monotone(n, k);
  }

  /** The index keeps the low 16 address bits but for the last eight: a trace of line `n` lies in line
      `n` or `n XOR 1` of the entries of its page. */
  lemma DisplacedLine(x: nat, p: nat, stored: nat)
    requires x / 256 == p % 0x1_0000 / 256
    requires p % 0x1_0000 / 4096 == stored % 0x1_0000 / 4096
    ensures var base := stored % 0x1_0000 - stored % 4096;
            base <= x < base + 4096 && (x - base) / 128 <= Line(p) + 1
  {
    var low, page := p % 0x1_0000, stored % 0x1_0000 / 4096;
    OffsetInWord(p);
    OffsetInWord(stored);
    assert low == page * 4096 + low % 4096;
    SameBlock(x, page, low % 4096);
  }

  lemma OffsetInWord(p: nat)
    ensures p % 0x1_0000 % 4096 == p % 4096
    ensures p % 0x1_0000 - p % 4096 == p % 0x1_0000 / 4096 * 4096
  {
  }

  lemma SameBlock(x: nat, page: nat, offset: nat)
    requires offset < 4096 && x / 256 == (page * 4096 + offset) / 256
    ensures page * 4096 <= x < page * 4096 + 4096 && (x - page * 4096) / 128 <= offset / 128 + 1
  {
    assert (page * 4096 + offset) / 256 == page * 16 + offset / 256;
    assert x == 256 * (page * 16 + offset / 256) + x % 256;
  }

  lemma PageBase(stored: nat)
    ensures Hash(stored - stored % 4096, 0) == stored % ENTRIES - stored % 4096
  {
    LowWord(stored - stored % 4096);
    PageInLowWord(stored);
  }

  lemma LowWord(a: nat)
    ensures And(a, ENTRIES - 1) == a % 0x1_0000
  {
    WordSizes();
    AndLowMask(a, 16);
  }

  lemma PageInLowWord(a: nat)
    ensures (a - a % 4096) % 0x1_0000 == a % 0x1_0000 - a % 4096
  {
    OffsetInWord(a);
    RemainderUnique(a - a % 4096, 0x1_0000, a / 0x1_0000, a % 0x1_0000 - a % 4096);
  }

  lemma SamePageLow(p: nat, q: nat)
    requires StampIndex(p) == StampIndex(q)
    ensures p % ENTRIES / 4096 == q % ENTRIES / 4096
  {
    PageInWord(p);
    PageInWord(q);
  }

  lemma PageInWord(p: nat)
    ensures p % ENTRIES / 4096 == StampIndex(p) % 16
  {
    var word := p % 0x1_0000_0000;
    assert word % 0x1_0000 == p % 0x1_0000;
    PageNumber(word);
  }

  lemma PageNumber(word: nat)
    ensures word % 0x1_0000 / 4096 == word / 4096 % 16
  {
  }

  /** Two words share a bit exactly when their conjunction is not zero. */
  lemma AndNonZero(a: nat, b: nat, k: nat)
    requires Bit(a, k) && Bit(b, k)
    ensures And(a, b) != 0
  {
    AndBit(a, b, k);
    ZeroHasNoBits(k);
  }

  /** Of two lines asked for, one that is stamped. */
  lemma FoundLine(stamps: nat, x: nat, y: nat)
    requires And(stamps, Or(Pow2(x), Pow2(y))) != 0
    ensures Bit(stamps, x) || Bit(stamps, y)
    ensures Bit(Or(Pow2(x), Pow2(y)), x) && Bit(Or(Pow2(x), Pow2(y)), y)
  {
    hide And, Or, Bit;
    var mask := Or(Pow2(x), Pow2(y));
    var k := HighBitExists(And(stamps, mask), 0);
    hide Pow2;
    AndBit(stamps, mask, k);
    OrBit(Pow2(x), Pow2(y), k);
    OrBit(Pow2(x), Pow2(y), x);
    OrBit(Pow2(x), Pow2(y), y);
    Pow2Bit(x, k);
    Pow2Bit(y, k);
    Pow2Bit(x, x);
    Pow2Bit(y, y);
  }

  /** Decoding of the trace at `pAddr` has come to `p`, `room` bytes before the end of its page. */
  predicate Decoding(pAddr: nat, p: nat, room: nat) {
    pAddr <= p && p / 4096 == pAddr / 4096 && room == 4096 - p % 4096
  }

  lemma RoomToDecode(pAddr: nat, p: nat, room: nat, len: nat)
    requires Decoding(pAddr, p, room) && len <= room
    ensures pAddr <= p && p / 4096 == pAddr / 4096 && p % 4096 + len <= 4096
    ensures len < room ==> Decoding(pAddr, p + len, room - len)
  {
    if len < room { InPage(p, p + len); }
  }

  /** A store of at most 64 bytes touches no line but its first and its last. */
  lemma StoreMaskCovers(pAddr: nat, len: nat, a: nat)
    requires 1 <= len <= 64 && pAddr % 4096 + len <= 4096
    requires pAddr <= a < pAddr + len
    ensures Bit(StoreMask(pAddr, len), Line(a)) && StampIndex(a) == StampIndex(pAddr)
  {
    OrBit(Pow2(Line(pAddr)), Pow2(Line(pAddr + len - 1)), Line(a));
    Pow2Bit(Line(pAddr), Line(a));
    Pow2Bit(Line(pAddr + len - 1), Line(a));
    InPage(pAddr, a);
    InPage(pAddr, pAddr + len - 1);
  }

  /** Two addresses of one page. */
  lemma InPage(p: nat, a: nat)
    requires p <= a && p % 4096 + (a - p) < 4096
    ensures a % 4096 == p % 4096 + (a - p) && a / 4096 == p / 4096
    ensures StampIndex(a) == StampIndex(p) && Line(p) <= Line(a)
  {
    assert a % 4096 == p % 4096 + (a - p);
    SamePageSameStamp(p, a);
  }

  lemma SamePageSameStamp(p: nat, a: nat)
    requires p / 4096 == a / 4096
    ensures StampIndex(a) == StampIndex(p)
  {
    StampOfPage(p);
    StampOfPage(a);
  }

  lemma CrossingIs(pAddr: nat, mode: nat, trace: nat, len: nat, ppf: nat, m: map<nat, Byte>)
    requires 4096 - pAddr % 4096 < len
    ensures var e := Entry(pAddr, 0x8000_0000, 2, mode, trace, [len], Crossing(m, pAddr, len, ppf));
            Counted(e) && Crosses(e, ppf)
  {
  }

  /** A page-split instruction lies in the last line of its page and the first line of the next. */
  lemma CrossingLines(pAddr: nat, len: nat, ppf: nat)
    requires 4096 - pAddr % 4096 < len <= 15 && ppf % 4096 == 0
    ensures forall a :: pAddr <= a < pAddr + (4096 - pAddr % 4096) ==>
              StampIndex(a) == StampIndex(pAddr) && Bit(0x8000_0000, Line(a))
    ensures forall a :: ppf <= a < ppf + (len - (4096 - pAddr % 4096)) ==>
              StampIndex(a) == StampIndex(ppf) && Bit(1, Line(a))
  {
    assert Pow2(31) == 0x8000_0000 by { WordSizes(); }
    forall a | pAddr <= a < pAddr + (4096 - pAddr % 4096)
      ensures StampIndex(a) == StampIndex(pAddr) && Bit(0x8000_0000, Line(a))
    {
      InPage(pAddr, a);
      Pow2Bit(31, Line(a));
    }
    forall a | ppf <= a < ppf + (len - (4096 - pAddr % 4096))
      ensures StampIndex(a) == StampIndex(ppf) && Bit(1, Line(a))
    {
      InPage(ppf, a);
      Pow2Bit(0, Line(a));
    }
  }

  /** Stamps and lines look at the low 32 address bits only. */
  lemma LowBitsDecide(addr: nat)
    ensures StampIndex(addr % PHY_LIMIT) == StampIndex(addr) && Line(addr % PHY_LIMIT) == Line(addr)
  {
    LowBits(addr);
    assert addr % 0x10_0000_0000_0000 % 4096 == addr % 4096;
  }

  lemma LowBits(addr: nat)
    ensures addr % 0x10_0000_0000_0000 % 0x1_0000_0000 == addr % 0x1_0000_0000
  {
  }

  lemma PhyPage(p: nat, a: nat)
    requires p < PHY_LIMIT && a / 4096 == p / 4096
    ensures a < PHY_LIMIT
  {
  }

  lemma {:induction false} SumBoth(first: seq<nat>, second: seq<nat>)
    ensures Sum(first + second) == Sum(first) + Sum(second)
  {
    if first == [] {
      assert first + second == second;
    } else {
      SumBoth(first[1..], second);
      assert (first + second)[1..] == first[1..] + second;
    }
  }

  lemma SumPrefix(lens: seq<nat>, n: nat)
    requires n < |lens|
    ensures Sum(lens[..n + 1]) == Sum(lens[..n]) + lens[n] <= Sum(lens)
  {
    SumBoth(lens[..n], [lens[n]]);
    assert lens[..n + 1] == lens[..n] + [lens[n]];
    SumBoth(lens[..n + 1], lens[n + 1..]);
    assert lens == lens[..n + 1] + lens[n + 1..];
  }

  lemma {:induction false} SumMonotone(lens: seq<nat>, m: nat, n: nat)
    requires m <= n <= |lens|
    ensures Sum(lens[..m]) <= Sum(lens[..n])
    decreases n - m
  {
    if m < n {
      SumPrefix(lens, m);
      SumMonotone(lens, m + 1, n);
    }
  }

  lemma SamePagePhy(pAddr: nat, p: nat)
    requires pAddr < PHY_LIMIT && pAddr <= p && pAddr % 4096 + (p - pAddr) < 4096
    ensures p < PHY_LIMIT
  {
    InPage(pAddr, p);
    PhyPage(pAddr, p);
  }

  lemma StampOfPage(p: nat)
    ensures StampIndex(p) == p / 4096 % STAMPS
  {
    assert p % 0x1_0000_0000 / 4096 == p / 4096 % 0x10_0000;
  }

  // ------------------------------------------------------------------------- the cache

  /** A trace that a store to `mask` of the page of `pAddr` may have changed, going by its mask. */
  predicate Overlaps(e: Entry, pAddr: nat, mask: nat) {
    StampIndex(pAddr) == StampIndex(e.pAddr) && And(e.traceMask, mask) != 0
  }

  class Cache {
    const entry: array<Entry>
    const fine: array<nat>        // page-write stamps: which lines of a page some trace came from
    const splits: array<Split>
    var mem: map<nat, Byte>
    var nextSplit: nat
    var linkStamp: nat
    var mpindex: nat
    var nextTrace: nat                       // how many traces have been decoded
    var next: map<Place, Link>          // the link that a trace's instruction holds
    var running: Option<nat>                 // the trace being executed
    var stopTrace: bool                      // the event that ends it after the present instruction
    var fetchPage: nat                       // the page that instructions are fetched from
    ghost var oldest: nat                    // the first trace decoded since the last whole-cache flush
    ghost var codeOf: map<nat, map<nat, Byte>>

    ghost predicate Shape()
      reads `nextSplit, `linkStamp, `mpindex, splits
    {
      && entry.Length == ENTRIES && fine.Length == STAMPS && splits.Length == SPLITS
      && nextSplit < SPLITS && linkStamp < LINK_STAMP_LIMIT && mpindex <= POOL
      && forall k :: 0 <= k < SPLITS && splits[k].ppf != DEAD ==> splits[k].e < ENTRIES
    }

    ghost predicate Registered(x: nat)
      requires splits.Length == SPLITS
      reads splits
    {
      exists k :: 0 <= k < SPLITS && splits[k].ppf != DEAD && splits[k].e == x
    }

    /** Entry `x` is registered as a page-split trace, and `e` is one into the registered page. */
    ghost predicate SplitTrace(x: nat, e: Entry)
      requires splits.Length == SPLITS
      reads splits
    {
      exists k :: 0 <= k < SPLITS && splits[k].ppf != DEAD && splits[k].e == x && Crosses(e, splits[k].ppf)
    }

    /** Entry `x` holds a trace that is registered to end in a page. */
    ghost predicate CrossesInto(x: nat, page: nat)
      requires splits.Length == SPLITS
      reads splits
    {
      exists k :: 0 <= k < SPLITS && splits[k].ppf == page * 4096 && splits[k].e == x
    }

    ghost predicate NothingLive()
      reads entry
    {
      forall x :: 0 <= x < entry.Length ==> !Live(entry[x])
    }

    ghost predicate Stamped(a: nat)
      requires fine.Length == STAMPS
      reads fine
    {
      Bit(fine[StampIndex(a)], Line(a))
    }

    /** Decoded from what `m` holds, out of stamped lines. */
    ghost predicate Fresh(code: map<nat, Byte>, m: map<nat, Byte>)
      requires fine.Length == STAMPS
      reads fine
    {
      forall a :: a in code ==> Read(m, a) == code[a] && Stamped(a)
    }

    /** The code is every byte of every instruction, from `pAddr` on, all in one page and in lines of the mask. */
    ghost predicate InOnePage(e: Entry) {
      && (forall a :: a in e.code <==> e.pAddr <= a < e.pAddr + Sum(e.lens))
      && forall a :: a in e.code ==> a / 4096 == e.pAddr / 4096 && Bit(e.traceMask, Line(a))
    }

    ghost predicate EntryOk(x: nat, m: map<nat, Byte>)
      requires entry.Length == ENTRIES && fine.Length == STAMPS && splits.Length == SPLITS && x < ENTRIES
      reads `oldest, `nextTrace, `codeOf, entry, fine, splits
    {
      var e := entry[x];
      Live(e) ==>
        && oldest <= e.trace < nextTrace && e.trace in codeOf && codeOf[e.trace] == e.code
        && e.mode < 0x100 && x == Hash(e.pAddr, e.mode) && e.pAddr in e.code && Fresh(e.code, m)
        && Counted(e) && (InOnePage(e) || (SplitTrace(x, e) && 4096 - e.pAddr % 4096 < 15))
    }

    /** A link into a trace decoded since the last flush, whose bytes are still those it was decoded from if the link
        would be followed. */
    ghost predicate LinkGood(l: Link, m: map<nat, Byte>)
      requires fine.Length == STAMPS
      reads `oldest, `nextTrace, `codeOf, `linkStamp, fine
    {
      && oldest <= l.target < nextTrace && l.target in codeOf
      && l.stamp <= linkStamp && (l.stamp == linkStamp ==> Fresh(codeOf[l.target], m))
    }

    /** Links of traces from before the last flush are not restricted: no live entry points at those traces. */
    ghost predicate LinkOk(k: Place, l: Link, m: map<nat, Byte>)
      requires fine.Length == STAMPS
      reads `oldest, `nextTrace, `codeOf, `linkStamp, fine
    {
      k.trace < nextTrace && l.target in codeOf && (k.trace >= oldest ==> LinkGood(l, m))
    }

    /** No cached trace, and no link that such a trace or the traces linked from it hold, disagrees with `m`. */
    ghost predicate CoherentWith(m: map<nat, Byte>)
      reads `nextSplit, `linkStamp, `mpindex, `nextTrace, `next, `running, `oldest, `codeOf, entry, fine, splits
    {
      && Shape() && oldest <= nextTrace
      && (forall t :: t in codeOf ==> t < nextTrace)
      && (running.Some? ==> running.value in codeOf)
      && (forall x :: 0 <= x < ENTRIES ==> EntryOk(x, m))
      && (forall k :: k in next ==> LinkOk(k, next[k], m))
    }

    /** The trace being executed was decoded since the last flush. */
    ghost predicate Current()
      reads `running, `oldest
    {
      running.Some? && running.value >= oldest
    }

    /** Memory no longer holds what a trace was decoded from. */
    ghost predicate Stale(t: nat)
      reads `mem, `codeOf
    {
      t in codeOf && exists a :: a in codeOf[t] && Read(mem, a) != codeOf[t][a]
    }

    /** A store gives some byte of a trace another value. */
    ghost predicate Overwrites(t: nat, pAddr: nat, data: seq<Byte>)
      reads `codeOf
    {
      t in codeOf && exists a :: a in codeOf[t] && pAddr <= a < pAddr + |data| && ByteAt(data, pAddr, a) != codeOf[t][a]
    }

    /** A trace that agrees with memory and lies in stamped lines. */
    ghost predicate Guarded(t: nat)
      requires fine.Length == STAMPS
      reads `mem, `codeOf, fine
    {
      t in codeOf && Fresh(codeOf[t], mem)
    }

    /** A store reaches a line of a trace, as the stamp table sees it. */
    ghost predicate Touches(t: nat, pAddr: nat, len: nat)
      requires len >= 1
      reads `codeOf
    {
      t in codeOf && exists a :: a in codeOf[t] && InStoredLines(pAddr, len, a)
    }

    ghost predicate Valid()
      reads this, entry, fine, splits
    {
      CoherentWith(mem)
    }

    /** The guard under which an executed link is followed. */
    predicate Accepts(l: Link)
      reads `linkStamp
    {
      !(linkStamp > l.stamp)
    }

    constructor ()
      ensures Valid() && fresh(entry) && fresh(fine) && fresh(splits)
      ensures mem == map[] && next == map[] && running == None && !stopTrace && linkStamp == 0 && mpindex == 0
      ensures nextTrace == 0 && oldest == 0 && codeOf == map[]
      ensures NothingLive() && forall a :: !Stamped(a)
    {
      entry := new Entry[ENTRIES](_ => Entry(DEAD, 0, 0, 0, 0, [], map[]));
      fine := new nat[STAMPS](_ => 0);
      splits := new Split[SPLITS](_ => Split(DEAD, 0));
      mem, nextSplit, linkStamp, mpindex, nextTrace, next := map[], 0, 0, 0, 0, map[];
      running, stopTrace, fetchPage, oldest, codeOf := None, false, 0, 0, map[];
      new;
      forall a ensures !Stamped(a) { ZeroHasNoBits(Line(a)); }
    }

    method FlushSMC(x: nat)
      requires x < entry.Length
      modifies entry
      ensures entry[x] == old(entry[x]).(pAddr := DEAD)
      ensures forall y :: 0 <= y < entry.Length && y != x ==> entry[y] == old(entry[y])
    {
      if entry[x].pAddr != DEAD {
        entry[x] := entry[x].(pAddr := DEAD);
      }
    }

    /** A whole-cache flush: no entry points at an older trace from then on. */
    method FlushICacheEntries()
      requires Shape()
      modifies `nextSplit, `linkStamp, `mpindex, `oldest, entry, splits
      ensures Shape() && linkStamp == 0 && mpindex == 0 && oldest == nextTrace
      ensures forall x :: 0 <= x < ENTRIES ==> entry[x].pAddr == DEAD
      ensures forall k :: 0 <= k < SPLITS ==> splits[k].ppf == DEAD
    {
      for i := 0 to ENTRIES
        modifies entry
        invariant forall x :: 0 <= x < i ==> entry[x].pAddr == DEAD
      {
        entry[i] := entry[i].(pAddr := DEAD, traceMask := 0);
      }
      nextSplit := 0;
      for i := 0 to SPLITS
        modifies splits
        invariant Shape()
        invariant forall k :: 0 <= k < i ==> splits[k].ppf == DEAD
      {
        splits[i] := splits[i].(ppf := DEAD);
      }
      mpindex := 0;
      linkStamp := 0;
      oldest := nextTrace;
    }

    method InvalidatePageSplitICacheEntries()
      requires Shape()
      modifies this`nextSplit, entry, splits
      ensures Shape()
      ensures forall k :: 0 <= k < SPLITS ==> splits[k].ppf == DEAD
      ensures forall x :: 0 <= x < ENTRIES ==>
                entry[x] == if old(Registered(x)) then old(entry[x]).(pAddr := DEAD) else old(entry[x])
    {
      for i := 0 to SPLITS
        invariant Shape()
        invariant forall k :: 0 <= k < i ==> splits[k].ppf == DEAD
        invariant forall k :: i <= k < SPLITS ==> splits[k] == old(splits[k])
        invariant forall x :: 0 <= x < ENTRIES ==>
                    entry[x] == if exists k :: 0 <= k < i && old(splits[k]).ppf != DEAD && old(splits[k]).e == x
                                then old(entry[x]).(pAddr := DEAD) else old(entry[x])
      {
        if splits[i].ppf != DEAD {
          splits[i] := splits[i].(ppf := DEAD);
          FlushSMC(splits[i].e);
        }
      }
      nextSplit := 0;
    }

    /** Breaks every link between traces by moving the link stamp on; the stamp running out flushes the cache. */
    method BreakLinks() returns (flushed: bool)
      requires Shape()
      modifies `nextSplit, `linkStamp, `mpindex, `oldest, entry, splits
      ensures Shape()
      ensures flushed <==> old(linkStamp) + 1 == LINK_STAMP_LIMIT
      ensures forall k :: 0 <= k < SPLITS ==> splits[k].ppf == DEAD
      ensures flushed ==> linkStamp == 0 && oldest == nextTrace
      ensures flushed ==> forall x :: 0 <= x < ENTRIES ==> entry[x].pAddr == DEAD
      ensures !flushed ==> linkStamp == old(linkStamp) + 1 && oldest == old(oldest) && mpindex == old(mpindex)
      ensures !flushed ==> forall x :: 0 <= x < ENTRIES ==>
                entry[x] == if old(Registered(x)) then old(entry[x]).(pAddr := DEAD) else old(entry[x])
      ensures flushed ==> mpindex == 0
    {
      InvalidatePageSplitICacheEntries();
      if linkStamp + 1 == LINK_STAMP_LIMIT {
        FlushICacheEntries();
        return true;
      }
      linkStamp := linkStamp + 1;
      return false;
    }

    /** The 128 entries from `e` on. */
    method WalkLine(e: nat, pAddr: nat, mask: nat)
      requires Shape() && e + 128 <= ENTRIES
      modifies entry
      ensures Shape()
      ensures forall x :: 0 <= x < ENTRIES ==>
                entry[x] == if e <= x < e + 128 && Overlaps(old(entry[x]), pAddr, mask)
                            then old(entry[x]).(pAddr := DEAD) else old(entry[x])
    {
      for index := 0 to 128
        invariant Shape()
        invariant forall x :: 0 <= x < ENTRIES ==>
                    entry[x] == if e <= x < e + index && Overlaps(old(entry[x]), pAddr, mask)
                                then old(entry[x]).(pAddr := DEAD) else old(entry[x])
      {
        if Overlaps(entry[e + index], pAddr, mask) {
          FlushSMC(e + index);
        }
      }
    }

    /** The walk over the lines of a page. */
    method WalkPage(pAddr: nat, mask: nat)
      requires Shape()
      modifies entry
      ensures Shape()
      ensures forall x :: 0 <= x < ENTRIES ==>
                entry[x] == if Walked(x, pAddr, WalkMask(mask)) && Overlaps(old(entry[x]), pAddr, mask)
                            then old(entry[x]).(pAddr := DEAD) else old(entry[x])
    {
      PageBase(pAddr);
      var walkMask := WalkMask(mask);
      var base := Hash(pAddr - pAddr % 4096, 0);
      assert base + 4096 <= ENTRIES by { PageNumber(pAddr % ENTRIES); }
      var n := 0;
      while n < 32 && Pow2(n) <= walkMask
        invariant 0 <= n <= 32
        invariant Shape()
        invariant n > 0 ==> Pow2(n - 1) <= walkMask
        invariant forall x :: 0 <= x < ENTRIES ==>
                    entry[x] == if base <= x < base + 128 * n && Overlaps(old(entry[x]), pAddr, mask)
                                then old(entry[x]).(pAddr := DEAD) else old(entry[x])
      {
        WalkLine(base + 128 * n, pAddr, mask);
        n := n + 1;
      }
      forall x | 0 <= x < ENTRIES ensures Walked(x, pAddr, walkMask) <==> base <= x < base + 128 * n {
        if base <= x < base + 4096 {
          var line := (x - base) / 128;
          if line < n { Pow2Monotone(line, n - 1); } else { Pow2Monotone(n, line); }
        }
      }
    }

    /** The page-split traces that continue in the page of `pAddr`. */
    method FlushSplitsInto(pAddr: nat)
      requires Shape()
      modifies entry, splits
      ensures Shape()
      ensures forall k :: 0 <= k < SPLITS ==>
                splits[k] == if old(splits[k]).ppf != DEAD && StampIndex(pAddr) == StampIndex(old(splits[k]).ppf)
                             then old(splits[k]).(ppf := DEAD) else old(splits[k])
      ensures forall x :: 0 <= x < ENTRIES ==>
                entry[x] == if exists k :: 0 <= k < SPLITS && old(splits[k]).ppf != DEAD && old(splits[k]).e == x
                                           && StampIndex(pAddr) == StampIndex(old(splits[k]).ppf)
                            then old(entry[x]).(pAddr := DEAD) else old(entry[x])
    {
      for i := 0 to SPLITS
        invariant Shape()
        invariant forall k :: i <= k < SPLITS ==> splits[k] == old(splits[k])
        invariant forall k :: 0 <= k < i ==>
                splits[k] == if old(splits[k]).ppf != DEAD && StampIndex(pAddr) == StampIndex(old(splits[k]).ppf)
                             then old(splits[k]).(ppf := DEAD) else old(splits[k])
        invariant forall x :: 0 <= x < ENTRIES ==>
                    entry[x] == if exists k :: 0 <= k < i && old(splits[k]).ppf != DEAD && old(splits[k]).e == x
                                               && StampIndex(pAddr) == StampIndex(old(splits[k]).ppf)
                                then old(entry[x]).(pAddr := DEAD) else old(entry[x])
      {
        if splits[i].ppf != DEAD && StampIndex(pAddr) == StampIndex(splits[i].ppf) {
          splits[i] := splits[i].(ppf := DEAD);
          FlushSMC(splits[i].e);
        }
      }
    }

    method HandleSMC(pAddr: nat, mask: nat) returns (flushed: bool)
      requires Shape()
      modifies `nextSplit, `linkStamp, `mpindex, `oldest, `stopTrace, entry, splits
      ensures Shape()
      ensures flushed <==> old(linkStamp) + 1 == LINK_STAMP_LIMIT
      ensures stopTrace == (old(stopTrace) || fetchPage == pAddr / 4096)
      ensures forall k :: 0 <= k < SPLITS ==> splits[k].ppf == DEAD
      ensures flushed ==> linkStamp == 0 && oldest == nextTrace
      ensures flushed ==> forall x :: 0 <= x < ENTRIES ==> entry[x].pAddr == DEAD
      ensures !flushed ==> linkStamp == old(linkStamp) + 1 && oldest == old(oldest) && mpindex == old(mpindex)
      ensures !flushed ==> forall x :: 0 <= x < ENTRIES ==>
                entry[x] == if old(Registered(x))
                               || (Walked(x, pAddr, WalkMask(mask)) && Overlaps(old(entry[x]), pAddr, mask))
                            then old(entry[x]).(pAddr := DEAD) else old(entry[x])
      ensures flushed ==> mpindex == 0
    {
      if fetchPage == pAddr / 4096 { stopTrace := true; }
      flushed := BreakLinks();
      if flushed { return; }
      if mask % 2 == 1 {
        FlushSplitsInto(pAddr);
      }
      WalkPage(pAddr, mask);
    }

    // ----------------------------------------------------------------------- stores

    /** What a walk leaves behind: no live trace holds a byte of the walked lines. */
    lemma WalkedClean(x: nat, e: Entry, pAddr: nat, mask: nat, a: nat)
      requires e.mode < 0x100 && x == Hash(e.pAddr, e.mode) && InOnePage(e)
      requires a in e.code && StampIndex(a) == StampIndex(pAddr) && Bit(mask, Line(a))
      ensures Walked(x, pAddr, WalkMask(mask)) && Overlaps(e, pAddr, mask)
    {
      InPage(e.pAddr, a);
      WalkReaches(e.pAddr, e.mode, pAddr, Line(a), mask);
      AndNonZero(e.traceMask, mask, Line(a));
    }

    /** No live trace holds a byte of the lines `mask` of the pages stamped at `index`. */
    ghost predicate NoneIn(index: nat, mask: nat)
      requires entry.Length == ENTRIES
      reads entry
    {
      forall x :: 0 <= x < ENTRIES && Live(entry[x]) ==>
        forall a :: a in entry[x].code && StampIndex(a) == index ==> !Bit(mask, Line(a))
    }

    /** `NoneIn`, for the live traces and for every link of a trace since the last flush that would be followed. */
    ghost predicate Forgot(index: nat, mask: nat)
      requires entry.Length == ENTRIES
      reads `next, `oldest, `codeOf, `linkStamp, entry
    {
      && NoneIn(index, mask)
      && forall k :: k in next && k.trace >= oldest && Accepts(next[k]) && next[k].target in codeOf ==>
           forall a :: a in codeOf[next[k].target] && StampIndex(a) == index ==> !Bit(mask, Line(a))
    }

    /** Clears the stamps of `mask`, which no live trace and no link of the present stamp relies on. */
    method ClearStamps(index: nat, mask: nat, ghost m: map<nat, Byte>)
      requires CoherentWith(m) && index < STAMPS
      requires NoneIn(index, mask)
      requires forall k :: k in next && k.trace >= oldest ==> next[k].stamp < linkStamp
      modifies fine
      ensures CoherentWith(m)
      ensures forall i :: 0 <= i < STAMPS && i != index ==> fine[i] == old(fine[i])
      ensures forall k: nat :: Bit(fine[index], k) <==> Bit(old(fine[index]), k) && !Bit(mask, k)
    {
      ghost var stamps := fine[index];
      fine[index] := AndNot(fine[index], mask);
      forall k: nat ensures Bit(fine[index], k) <==> Bit(stamps, k) && !Bit(mask, k) {
        AndNotBit(stamps, mask, k);
      }
      forall x | 0 <= x < ENTRIES ensures EntryOk(x, m) {
        assert old(EntryOk(x, m));
        assert SplitTrace(x, entry[x]) == old(SplitTrace(x, entry[x]));
      }
      forall k | k in next ensures LinkOk(k, next[k], m) { assert old(LinkOk(k, next[k], m)); }
    }

    /** The walk of a store: no trace of the lines `mask` stays live, and no link made so far stays good. */
    method InvalidateLines(pAddr: nat, mask: nat, ghost m: map<nat, Byte>)
      requires CoherentWith(m)
      modifies `nextSplit, `linkStamp, `mpindex, `oldest, `stopTrace, entry, splits
      ensures CoherentWith(m)
      ensures NoneIn(StampIndex(pAddr), mask)
      ensures linkStamp == if old(linkStamp) + 1 == LINK_STAMP_LIMIT then 0 else old(linkStamp) + 1
      ensures oldest == if old(linkStamp) + 1 == LINK_STAMP_LIMIT then nextTrace else old(oldest)
      ensures stopTrace == (old(stopTrace) || fetchPage == pAddr / 4096)
      ensures forall k :: k in next && k.trace >= oldest ==> next[k].stamp < linkStamp
      ensures forall x :: 0 <= x < ENTRIES ==> entry[x] == old(entry[x]) || !Live(entry[x])
      ensures mpindex <= old(mpindex)
    {
      var flushed := HandleSMC(pAddr, mask);
      forall x | 0 <= x < ENTRIES && Live(entry[x])
        ensures entry[x] == old(entry[x]) && InOnePage(entry[x]) && EntryOk(x, m)
      {
        assert old(EntryOk(x, m));
      }
      forall k | k in next ensures LinkOk(k, next[k], m) && (k.trace >= oldest ==> next[k].stamp < linkStamp) {
        assert old(LinkOk(k, next[k], m));
      }
      forall x | 0 <= x < ENTRIES && Live(entry[x])
        ensures forall a :: a in entry[x].code && StampIndex(a) == StampIndex(pAddr) ==> !Bit(mask, Line(a))
      {
        assert old(EntryOk(x, m));
        forall a | a in entry[x].code && StampIndex(a) == StampIndex(pAddr) ensures !Bit(mask, Line(a)) {
          if Bit(mask, Line(a)) { WalkedClean(x, entry[x], pAddr, mask, a); }
        }
      }
    }

    /** Whether a store reaches a stamped line. */
    predicate Hit(pAddr: nat, len: nat)
      requires fine.Length == STAMPS && len >= 1
      reads fine
    {
      And(fine[StampIndex(pAddr)], StoreMask(pAddr, len)) != 0
    }

    /** What a store that hits has found. */
    lemma HitMeans(pAddr: nat, len: nat)
      requires fine.Length == STAMPS && 1 <= len && pAddr % 4096 + len <= 4096
      ensures Hit(pAddr, len) ==> exists a :: Stamped(a) && InStoredLines(pAddr, len, a)
    {
      var stamps, last := fine[StampIndex(pAddr)], pAddr + len - 1;
      if Hit(pAddr, len) {
        InPage(pAddr, last);
        FoundLine(stamps, Line(pAddr), Line(last));
        hide And, Or, Pow2, Bit, StampIndex, Line;
        var a := if Bit(stamps, Line(pAddr)) then pAddr else last;
        assert Stamped(a) && InStoredLines(pAddr, len, a);
      }
    }

    /** A store to `len` bytes at `pAddr`, as the stamp table hears of it. `m` is a memory the cache agrees with;
        afterwards the cache holds none of the stored bytes and no link to them is followed. Only if the link stamp
        runs out does the whole cache go, and with it what is known of the trace being executed. */
    method DecWriteStamp(pAddr: nat, len: nat, ghost m: map<nat, Byte>)
      requires CoherentWith(m) && 1 <= len <= 64 && pAddr % 4096 + len <= 4096
      modifies `nextSplit, `linkStamp, `mpindex, `oldest, `stopTrace, entry, fine, splits
      ensures CoherentWith(m) && Forgot(StampIndex(pAddr), StoreMask(pAddr, len))
      ensures forall x :: 0 <= x < ENTRIES ==> entry[x] == old(entry[x]) || !Live(entry[x])
      ensures linkStamp == if !old(Hit(pAddr, len)) then old(linkStamp)
                           else if old(linkStamp) + 1 == LINK_STAMP_LIMIT then 0 else old(linkStamp) + 1
      ensures oldest == if old(Hit(pAddr, len)) && old(linkStamp) + 1 == LINK_STAMP_LIMIT then nextTrace
                        else old(oldest)
      ensures stopTrace == (old(stopTrace) || (old(Hit(pAddr, len)) && fetchPage == pAddr / 4096))
      ensures forall a :: Stamped(a) <==> old(Stamped(a)) && !InStoredLines(pAddr, len, a)
      ensures mpindex <= old(mpindex)
      ensures !old(Hit(pAddr, len)) ==> forall x :: 0 <= x < ENTRIES ==> entry[x] == old(entry[x])
    {
      var index := StampIndex(pAddr);
      var mask := StoreMask(pAddr, len);
      if And(fine[index], mask) != 0 {
        InvalidateLines(pAddr, mask, m);
        ClearStamps(index, mask, m);
        assert NoneIn(index, mask);
      } else {
        forall a | StampIndex(a) == index && Bit(mask, Line(a)) ensures !Stamped(a) {
          if Stamped(a) { AndNonZero(fine[index], mask, Line(a)); }
        }
        forall x | 0 <= x < ENTRIES && Live(entry[x])
          ensures forall a :: a in entry[x].code && StampIndex(a) == index ==> !Bit(mask, Line(a))
        {
          assert EntryOk(x, m);
        }
        forall k | k in next && k.trace >= oldest && Accepts(next[k])
          ensures forall a :: a in codeOf[next[k].target] && StampIndex(a) == index ==> !Bit(mask, Line(a))
        {
          assert LinkOk(k, next[k], m);
        }
      }
    }

    /** The memory may change in the bytes the cache has forgotten. */
    lemma ForgottenMayChange(m: map<nat, Byte>, m': map<nat, Byte>, index: nat, mask: nat)
      requires CoherentWith(m) && Forgot(index, mask)
      requires forall a :: Read(m', a) == Read(m, a) || (StampIndex(a) == index && Bit(mask, Line(a)))
      ensures CoherentWith(m')
    {
      forall x | 0 <= x < ENTRIES ensures EntryOk(x, m') { assert EntryOk(x, m); }
      forall k | k in next ensures LinkOk(k, next[k], m') { assert LinkOk(k, next[k], m); }
    }

    /** A good link leads to bytes that memory still holds, out of stamped lines, so that a store to one of them
        hits. */
    lemma OverwritingHits(k: Place, pAddr: nat, data: seq<Byte>)
      requires Valid() && k in next && k.trace >= oldest && Accepts(next[k])
      requires 1 <= |data| <= 64 && pAddr % 4096 + |data| <= 4096
      ensures next[k].target in codeOf
      ensures forall a :: a in codeOf[next[k].target] ==> Read(mem, a) == codeOf[next[k].target][a]
      ensures Overwrites(next[k].target, pAddr, data) ==> Hit(pAddr, |data|)
    {
      assert LinkOk(k, next[k], mem);
      StampedHits(fine[StampIndex(pAddr)], codeOf[next[k].target], pAddr, |data|);
    }

    /** `decWriteStamp`, then the bytes. Every cached trace still agrees with memory. A link that would have been
        followed, of a trace decoded since the last flush, leads to changed bytes and is still followed exactly if the
        store changes bytes of its target and the link stamp ran out; what runs out then is also the knowledge about the
        running trace. */
    method StoreStamped(pAddr: nat, data: seq<Byte>)
      requires Valid() && 1 <= |data| <= 64 && pAddr % 4096 + |data| <= 4096
      modifies `mem, `nextSplit, `linkStamp, `mpindex, `oldest, `stopTrace, entry, fine, splits
      ensures Valid() && mem == Stored(old(mem), pAddr, data)
      ensures forall k :: k in next && k.trace >= old(oldest) && old(Accepts(next[k])) ==>
                (Accepts(next[k]) && Stale(next[k].target)
                 <==> Overwrites(next[k].target, pAddr, data) && old(linkStamp) + 1 == LINK_STAMP_LIMIT)
      ensures linkStamp == if !old(Hit(pAddr, |data|)) then old(linkStamp)
                           else if old(linkStamp) + 1 == LINK_STAMP_LIMIT then 0 else old(linkStamp) + 1
      ensures old(Current()) ==>
                (Current() <==> !(old(Hit(pAddr, |data|)) && old(linkStamp) + 1 == LINK_STAMP_LIMIT))
      ensures stopTrace == (old(stopTrace) || (old(Hit(pAddr, |data|)) && fetchPage == pAddr / 4096))
      ensures forall a :: Stamped(a) <==> old(Stamped(a)) && !InStoredLines(pAddr, |data|, a)
      ensures !old(Hit(pAddr, |data|)) ==> oldest == old(oldest)
                                           && forall x :: 0 <= x < ENTRIES ==> entry[x] == old(entry[x])
    {
      ghost var index, mask := StampIndex(pAddr), StoreMask(pAddr, |data|);
      forall k | k in next && k.trace >= oldest && Accepts(next[k])
        ensures next[k].target in codeOf && (Overwrites(next[k].target, pAddr, data) ==> Hit(pAddr, |data|))
        ensures forall a :: a in codeOf[next[k].target] ==> Read(mem, a) == codeOf[next[k].target][a]
      {
        OverwritingHits(k, pAddr, data);
      }
      DecWriteStamp(pAddr, |data|, mem);
      forall a | pAddr <= a < pAddr + |data| ensures StampIndex(a) == index && Bit(mask, Line(a)) {
        StoreMaskCovers(pAddr, |data|, a);
      }
      mem := Stored(mem, pAddr, data);
      ForgottenMayChange(old(mem), mem, index, mask);
      forall k | k in next && k.trace >= old(oldest) && old(Accepts(next[k]))
        ensures Accepts(next[k]) && Stale(next[k].target)
                <==> Overwrites(next[k].target, pAddr, data) && old(linkStamp) + 1 == LINK_STAMP_LIMIT
      {
        assert old(Accepts(next[k]));
        ChangedBytes(codeOf[next[k].target], old(mem), pAddr, data);
      }
    }

    /** A store of the guest, at most 64 bytes inside one page, and what it does to the trace being executed. That trace
        ends up disagreeing with memory, and is not about to be stopped, exactly if the store changes bytes of it, no
        stop was pending, and the stamp table did not find the store in the page that instructions are fetched from. A
        guarded trace is found, so that the page alone decides; and it stays guarded, or is stopped, exactly if the
        store is to that page or reaches none of its lines. */
    method Store(pAddr: nat, data: seq<Byte>)
      requires Valid() && 1 <= |data| <= 64 && pAddr % 4096 + |data| <= 4096
      modifies `mem, `nextSplit, `linkStamp, `mpindex, `oldest, `stopTrace, entry, fine, splits
      ensures Valid() && mem == Stored(old(mem), pAddr, data)
      ensures forall k :: k in next && k.trace >= old(oldest) && old(Accepts(next[k])) ==>
                (Accepts(next[k]) && Stale(next[k].target)
                 <==> Overwrites(next[k].target, pAddr, data) && old(linkStamp) + 1 == LINK_STAMP_LIMIT)
      ensures linkStamp == if !old(Hit(pAddr, |data|)) then old(linkStamp)
                           else if old(linkStamp) + 1 == LINK_STAMP_LIMIT then 0 else old(linkStamp) + 1
      ensures old(Current()) ==>
                (Current() <==> !(old(Hit(pAddr, |data|)) && old(linkStamp) + 1 == LINK_STAMP_LIMIT))
      ensures stopTrace == (old(stopTrace) || (old(Hit(pAddr, |data|)) && fetchPage == pAddr / 4096))
      ensures running.Some? && !old(Stale(running.value)) ==>
                (Stale(running.value) && !stopTrace
                 <==> Overwrites(running.value, pAddr, data) && !old(stopTrace)
                      && !(old(Hit(pAddr, |data|)) && fetchPage == pAddr / 4096))
      ensures running.Some? && old(Guarded(running.value)) ==>
                (Stale(running.value) && !stopTrace
                 <==> Overwrites(running.value, pAddr, data) && !old(stopTrace) && fetchPage != pAddr / 4096)
      ensures running.Some? && old(Guarded(running.value)) && Overwrites(running.value, pAddr, data) ==>
                old(Hit(pAddr, |data|))
      ensures running.Some? && old(Guarded(running.value)) && !old(stopTrace) ==>
                (stopTrace || Guarded(running.value)
                 <==> fetchPage == pAddr / 4096 || !Touches(running.value, pAddr, |data|))
      ensures forall a :: Stamped(a) <==> old(Stamped(a)) && !InStoredLines(pAddr, |data|, a)
      ensures !old(Hit(pAddr, |data|)) ==> oldest == old(oldest)
                                           && forall x :: 0 <= x < ENTRIES ==> entry[x] == old(entry[x])
    {
      assert Shape() && (running.Some? ==> running.value in codeOf);
      if running.Some? && Guarded(running.value) {
        StampedHits(fine[StampIndex(pAddr)], codeOf[running.value], pAddr, |data|);
      }
      hide CoherentWith, StampIndex, Bit, Line, StoreMask, InStoredLines;
      StoreStamped(pAddr, data);
      if running.Some? && !old(Stale(running.value)) {
        ChangedBytes(codeOf[running.value], old(mem), pAddr, data);
        assert old(Guarded(running.value)) ==> (Guarded(running.value) <==> !Touches(running.value, pAddr, |data|));
      }
    }
    /** A host write: straight into memory, then the written byte is stamped. The stamp gets the address as the
        caller gave it, memory its low 52 bits. */
    method WriteMem(addr: nat, byte: Byte)
      requires Valid()
      modifies `mem, `nextSplit, `linkStamp, `mpindex, `oldest, `stopTrace, entry, fine, splits
      ensures Valid() && mem == old(mem)[addr % PHY_LIMIT := byte]
      ensures mpindex <= old(mpindex) && (old(NothingLive()) ==> NothingLive())
      ensures forall a :: Stamped(a) ==> old(Stamped(a))
      ensures (forall a :: !old(Stamped(a))) ==> linkStamp == old(linkStamp)
    {
      var a := addr % PHY_LIMIT;
      mem := mem[a := byte];
      InvalidateDecoded(addr, old(mem));
      LowBitsDecide(addr);
      StoreMaskCovers(addr, 1, addr);
      ForgottenMayChange(old(mem), mem, StampIndex(addr), StoreMask(addr, 1));
    }

    method InvalidateDecoded(addr: nat, ghost m: map<nat, Byte>)
      requires CoherentWith(m)
      modifies `nextSplit, `linkStamp, `mpindex, `oldest, `stopTrace, entry, fine, splits
      ensures CoherentWith(m)
      ensures Forgot(StampIndex(addr), StoreMask(addr, 1))
      ensures mpindex <= old(mpindex) && (old(NothingLive()) ==> NothingLive())
      ensures forall a :: Stamped(a) ==> old(Stamped(a))
      ensures (forall a :: !old(Stamped(a))) ==> linkStamp == old(linkStamp)
    {
      HitMeans(addr, 1);
      DecWriteStamp(addr, 1, m);
    }

    method WriteMemSlice(addr: nat, src: seq<Byte>)
      requires Valid()
      modifies `mem, `nextSplit, `linkStamp, `mpindex, `oldest, `stopTrace, entry, fine, splits
      ensures Valid()
      ensures mem == StoredSlice(old(mem), addr, src)
      ensures mpindex <= old(mpindex) && (old(NothingLive()) ==> NothingLive())
      ensures forall a :: Stamped(a) ==> old(Stamped(a))
      ensures (forall a :: !old(Stamped(a))) ==> linkStamp == old(linkStamp)
    {
      for i := 0 to |src|
        invariant Valid()
        invariant mem == StoredSlice(old(mem), addr, src[..i])
        invariant mpindex <= old(mpindex) && (old(NothingLive()) ==> NothingLive())
        invariant forall a :: Stamped(a) ==> old(Stamped(a))
        invariant (forall a :: !old(Stamped(a))) ==> linkStamp == old(linkStamp)
      {
        WriteMem(addr + i, src[i]);
        assert src[..i + 1][..i] == src[..i];
      }
      assert src[..|src|] == src;
    }

    /** A TLB flush breaks every link too. */
    method TlbFlush()
      requires Valid()
      modifies `nextSplit, `linkStamp, `mpindex, `oldest, entry, splits
      ensures Valid()
      ensures linkStamp == if old(linkStamp) + 1 == LINK_STAMP_LIMIT then 0 else old(linkStamp) + 1
      ensures old(linkStamp) + 1 != LINK_STAMP_LIMIT ==> oldest == old(oldest) && mpindex == old(mpindex)
      ensures old(Current()) ==> (Current() <==> old(linkStamp) + 1 != LINK_STAMP_LIMIT)
      ensures old(NothingLive()) ==> NothingLive()
    {
      var _ := BreakLinks();
      forall x | 0 <= x < ENTRIES ensures EntryOk(x, mem) { assert old(EntryOk(x, mem)); }
      forall k | k in next ensures LinkOk(k, next[k], mem) { assert old(LinkOk(k, next[k], mem)); }
    }

    // ----------------------------------------------------------------------- lookups and fills

    /** A hit: the trace at the address was decoded under this very fetch mode, and every byte it was decoded
        from is still what memory holds. */
    function FindEntry(pAddr: nat, fetchModeMask: nat): (r: Option<nat>)
      requires Valid() && pAddr < PHY_LIMIT && fetchModeMask < 0x100
      reads this, entry, fine, splits
      ensures r.Some? ==> r.value < ENTRIES && entry[r.value].pAddr == pAddr && entry[r.value].mode == fetchModeMask
      ensures r == Finds(pAddr, fetchModeMask) && (r.Some? ==> pAddr in entry[r.value].code)
      ensures r.Some? ==> forall a :: a in entry[r.value].code ==> Read(mem, a) == entry[r.value].code[a]
      ensures r.None? ==> forall x :: 0 <= x < ENTRIES && entry[x].pAddr == pAddr ==> entry[x].mode != fetchModeMask
    {
      HashByMode(pAddr, fetchModeMask);
      var x := Hash(pAddr, fetchModeMask);
      assert EntryOk(x, mem);
      if entry[x].pAddr == pAddr then
        HashSeparatesModes(pAddr, fetchModeMask, entry[x].mode);
        Some(x)
      else
        assert forall y :: 0 <= y < ENTRIES && entry[y].pAddr == pAddr ==> EntryOk(y, mem);
        None
    }

    /** Makes room in the pool. Between traces only, so that a flush leaves no reader of an older link. */
    method AllocTrace()
      requires Valid() && running == None
      modifies `nextSplit, `linkStamp, `mpindex, `oldest, entry, splits
      ensures Valid() && mpindex + MAX_TRACE_LENGTH + 1 <= POOL && (old(NothingLive()) ==> NothingLive())
      ensures old(mpindex) + MAX_TRACE_LENGTH + 1 <= POOL ==>
                linkStamp == old(linkStamp) && oldest == old(oldest) && mpindex == old(mpindex) && unchanged(entry)
      ensures old(mpindex) + MAX_TRACE_LENGTH + 1 > POOL ==> NothingLive()
    {
      if mpindex + MAX_TRACE_LENGTH + 1 > POOL {
        FlushICacheEntries();
        assert forall k :: k in next ==> old(LinkOk(k, next[k], mem));
      }
    }

    method MarkICacheMask(pAddr: nat, mask: nat)
      requires Valid()
      modifies fine
      ensures Valid()
      ensures forall a :: old(Stamped(a)) ==> Stamped(a)
      ensures forall a :: StampIndex(a) == StampIndex(pAddr) && Bit(mask, Line(a)) ==> Stamped(a)
      ensures forall a :: StampIndex(a) != StampIndex(pAddr) && Stamped(a) ==> old(Stamped(a))
    {
      var index := StampIndex(pAddr);
      ghost var stamps := fine[index];
      fine[index] := Or(fine[index], mask);
      forall k: nat ensures Bit(fine[index], k) <==> Bit(stamps, k) || Bit(mask, k) {
        OrBit(stamps, mask, k);
      }
      forall x | 0 <= x < ENTRIES ensures EntryOk(x, mem) {
        assert old(EntryOk(x, mem));
        assert SplitTrace(x, entry[x]) == old(SplitTrace(x, entry[x]));
      }
      forall k | k in next ensures LinkOk(k, next[k], mem) { assert old(LinkOk(k, next[k], mem)); }
    }

    /** What a trace under construction has read: the present memory from `pAddr` up to `end` and nothing else, out of
        one page, in lines of its mask. */
    ghost predicate TraceSoFar(pAddr: nat, end: nat, traceMask: nat, code: map<nat, Byte>)
      reads `mem
    {
      && (forall a :: a in code <==> pAddr <= a < end)
      && forall a :: a in code ==> Read(mem, a) == code[a] && a / 4096 == pAddr / 4096 && Bit(traceMask, Line(a))
    }

    /** Decodes one instruction at `p` into the trace. */
    method AddInstruction(pAddr: nat, p: nat, len: nat, traceMask: nat, code: map<nat, Byte>)
      returns (traceMask': nat, code': map<nat, Byte>)
      requires TraceSoFar(pAddr, p, traceMask, code) && 1 <= len <= 15
      requires pAddr <= p && p / 4096 == pAddr / 4096 && p % 4096 + len <= 4096
      ensures TraceSoFar(pAddr, p + len, traceMask', code')
    {
      traceMask' := Or(Or(traceMask, Pow2(Line(p))), Pow2(Line(p + len - 1)));
      code' := code + Snapshot(mem, p, len);
      forall a | a in code' ensures Bit(traceMask', Line(a)) && a / 4096 == pAddr / 4096 {
        OrBit(Or(traceMask, Pow2(Line(p))), Pow2(Line(p + len - 1)), Line(a));
        OrBit(traceMask, Pow2(Line(p)), Line(a));
        if p <= a < p + len {
          StoreMaskCovers(p, len, a);
          OrBit(Pow2(Line(p)), Pow2(Line(p + len - 1)), Line(a));
          InPage(p, a);
        }
      }
    }

    /** Links by the place of their instruction in a new trace. */
    ghost predicate Copied(links: map<nat, Link>)
      requires fine.Length == STAMPS
      reads `mem, `oldest, `nextTrace, `codeOf, `linkStamp, fine
    {
      forall b :: b in links ==> LinkGood(links[b], mem)
    }

    /** The instruction at `b`, counted from `first` on, of trace `t` holds a link. */
    predicate Links(t: nat, first: nat, b: nat)
      reads `next
    {
      first <= b && Place(t, b - first) in next
    }

    /** The links of `len` instructions of trace `t`, by their places behind `first` others. */
    function TakenOver(t: nat, first: nat, len: nat): map<nat, Link>
      reads `next
    {
      map b | first <= b < first + len && Links(t, first, b) :: next[Place(t, b - first)]
    }

    lemma NoLinksCopied()
      requires fine.Length == STAMPS
      ensures Copied(map[])
    {
    }

    /** `find_entry` */
    function Finds(p: nat, fetchModeMask: nat): (r: Option<nat>)
      reads entry
      ensures r.Some? ==> r.value < entry.Length
    {
      var x := Hash(p, fetchModeMask);
      if x < entry.Length && entry[x].pAddr == p then Some(x) else None
    }

    /** A cached trace can be taken over at `p`, `room` bytes before the page end, behind `n` instructions. */
    predicate Mergeable(p: nat, fetchModeMask: nat, room: int, n: nat)
      reads entry
    {
      room >= 15 && Finds(p, fetchModeMask).Some?
      && entry[Finds(p, fetchModeMask).value].tlen + n <= MAX_TRACE_LENGTH
    }

    /** The instructions of a new trace, `n` of which are decoded: the first that ends the trace is the last; otherwise
        behind each one the trace continues as a cached one where that is possible. */
    function Plan(pAddr: nat, fetchModeMask: nat, lens: seq<nat>, stop: bool, n: nat): seq<nat>
      requires n <= |lens|
      reads entry
      decreases |lens| - n
    {
      if n == |lens| then lens
      else
        var m, p := n + 1, pAddr + Sum(lens[..n + 1]);
        var room := 4096 - pAddr % 4096 - Sum(lens[..m]);
        if (m == |lens| && stop) || room == 0 then lens[..m]
        else if Mergeable(p, fetchModeMask, room, m) then lens[..m] + entry[Finds(p, fetchModeMask).value].lens
        else Plan(pAddr, fetchModeMask, lens, stop, m)
    }

    /** A cached trace of the same mode at the end of the first `m` instructions, not too long for the new one. */
    ghost predicate Waits(pAddr: nat, fetchModeMask: nat, lens: seq<nat>, m: nat, y: nat)
      requires m <= |lens| && entry.Length == ENTRIES
      reads entry
    {
      && y < ENTRIES && entry[y].pAddr == pAddr + Sum(lens[..m]) && entry[y].mode == fetchModeMask
      && entry[y].tlen + m <= MAX_TRACE_LENGTH
    }

    /** The first cached trace that waits at the end of an instruction, at least 15 bytes from the page end, is taken
        over whole, unless that instruction ends the trace; and nothing else is. */
    lemma {:induction false} PlanTakesFirst(pAddr: nat, fetchModeMask: nat, lens: seq<nat>, stop: bool, n: nat, m: nat,
                                            y: nat)
      requires Valid() && pAddr < PHY_LIMIT && pAddr % 4096 + Sum(lens) <= 4096 && fetchModeMask < 0x100
      requires forall k :: 0 <= k < |lens| ==> lens[k] >= 1
      requires n < m <= |lens| && !(m == |lens| && stop)
      requires 4096 - pAddr % 4096 - Sum(lens[..m]) >= 15 && Waits(pAddr, fetchModeMask, lens, m, y)
      requires forall k, z :: n < k < m ==> !Waits(pAddr, fetchModeMask, lens, k, z)
      ensures Plan(pAddr, fetchModeMask, lens, stop, n) == lens[..m] + entry[y].lens
      decreases m - n
    {
      SumPrefix(lens, n);
      SumMonotone(lens, n + 1, m);
      var p := pAddr + Sum(lens[..n + 1]);
      SamePagePhy(pAddr, p);
      var found := FindEntry(p, fetchModeMask);
      PlanStep(pAddr, fetchModeMask, lens, stop, n);
      hide Plan, Sum;
      if n + 1 == m {
        assert EntryOk(y, mem);
      } else {
        assert found.Some? ==> !Waits(pAddr, fetchModeMask, lens, n + 1, found.value);
        PlanTakesFirst(pAddr, fetchModeMask, lens, stop, n + 1, m, y);
      }
    }

    lemma {:induction false} PlanAlone(pAddr: nat, fetchModeMask: nat, lens: seq<nat>, stop: bool, n: nat)
      requires NothingLive() && n <= |lens| && (forall k :: 0 <= k < |lens| ==> lens[k] >= 1)
      requires pAddr < PHY_LIMIT && pAddr % 4096 + Sum(lens) <= 4096
      ensures Plan(pAddr, fetchModeMask, lens, stop, n) == lens
      decreases |lens| - n
    {
      if n < |lens| {
        SumPrefix(lens, n);
        PlanAlone(pAddr, fetchModeMask, lens, stop, n + 1);
        var p, room := pAddr + Sum(lens[..n + 1]), 4096 - pAddr % 4096 - Sum(lens[..n + 1]);
        if n + 1 < |lens| { SumPrefix(lens, n + 1); }
        if room > 0 { SamePagePhy(pAddr, p); }
      }
    }

    /** A cached trace behind the instructions read so far. */
    lemma Joined(pAddr: nat, p: nat, lens: seq<nat>, traceMask: nat, code: map<nat, Byte>, e: Entry)
      requires TraceSoFar(pAddr, p, traceMask, code) && p == pAddr + Sum(lens) && p / 4096 == pAddr / 4096
      requires e.pAddr == p && InOnePage(e) && forall a :: a in e.code ==> Read(mem, a) == e.code[a]
      ensures TraceSoFar(pAddr, pAddr + Sum(lens + e.lens), Or(traceMask, e.traceMask), code + e.code)
    {
      SumBoth(lens, e.lens);
      forall a | a in code + e.code ensures Bit(Or(traceMask, e.traceMask), Line(a)) {
        OrBit(traceMask, e.traceMask, Line(a));
      }
    }

    lemma TakenLinksGood(x: nat, first: nat)
      requires Valid() && x < ENTRIES && Live(entry[x])
      ensures Copied(TakenOver(entry[x].trace, first, entry[x].tlen))
      ensures next == map[] ==> TakenOver(entry[x].trace, first, entry[x].tlen) == map[]
    {
      var e := entry[x];
      assert EntryOk(x, mem);
      forall b | b in TakenOver(e.trace, first, e.tlen)
        ensures LinkGood(TakenOver(e.trace, first, e.tlen)[b], mem)
      {
        assert LinkOk(Place(e.trace, b - first), next[Place(e.trace, b - first)], mem);
      }
    }

    /** Takes over the cached trace that starts at `p`, if there is one and the result is not too long. Such a
        trace starts at least 15 bytes before the page end, so it is none of those that cross it. Its instructions
        are copied with the links they hold, and its end-of-trace opcode. */
    method MergeTraces(pAddr: nat, p: nat, fetchModeMask: nat, tlen: nat, lens: seq<nat>, traceMask: nat,
                       code: map<nat, Byte>)
      returns (merged: bool, tlen': nat, lens': seq<nat>, traceMask': nat, code': map<nat, Byte>,
               links: map<nat, Link>)
      requires Valid() && fetchModeMask < 0x100 && TraceSoFar(pAddr, p, traceMask, code)
      requires p == pAddr + Sum(lens) && tlen == |lens|
      requires pAddr <= p < PHY_LIMIT && p / 4096 == pAddr / 4096 && 4096 - p % 4096 >= 15
      ensures TraceSoFar(pAddr, pAddr + Sum(lens'), traceMask', code') && Copied(links)
      ensures merged <==> Mergeable(p, fetchModeMask, 4096 - p % 4096, tlen)
      ensures merged ==> lens' == lens + entry[Finds(p, fetchModeMask).value].lens
      ensures merged ==> tlen' == |lens'| + 1 <= MAX_TRACE_LENGTH && forall n :: |lens| <= n < |lens'| ==> lens'[n] >= 1
      ensures merged ==> links == TakenOver(entry[Finds(p, fetchModeMask).value].trace, tlen, tlen' - tlen)
      ensures next == map[] ==> links == map[]
      ensures !merged ==> tlen' == tlen && lens' == lens && traceMask' == traceMask && code' == code && links == map[]
    {
      var hit := FindEntry(p, fetchModeMask);
      if hit.None? || entry[hit.value].tlen + tlen > MAX_TRACE_LENGTH {
        return false, tlen, lens, traceMask, code, map[];
      }
      var e := entry[hit.value];
      assert EntryOk(hit.value, mem) && InOnePage(e);
      merged, tlen', lens', traceMask', code' :=
        true, tlen + e.tlen, lens + e.lens, Or(traceMask, e.traceMask), code + e.code;
      links := TakenOver(e.trace, tlen, e.tlen);
      TakenLinksGood(hit.value, tlen);
      hide CoherentWith, EntryOk, Fresh, Hash, TakenOver, Copied, Stamped, TraceSoFar, InOnePage, Read, Or;
      Joined(pAddr, p, lens, traceMask, code, e);
    }

    /** The same unless so near the page end that a cached trace might cross it. */
    method TryMerge(pAddr: nat, p: nat, remainingInPage: nat, fetchModeMask: nat, tlen: nat, lens: seq<nat>,
                    traceMask: nat, code: map<nat, Byte>)
      returns (merged: bool, tlen': nat, lens': seq<nat>, traceMask': nat, code': map<nat, Byte>,
               links: map<nat, Link>)
      requires Valid() && fetchModeMask < 0x100 && TraceSoFar(pAddr, p, traceMask, code)
      requires p == pAddr + Sum(lens) && tlen == |lens|
      requires pAddr < PHY_LIMIT && Decoding(pAddr, p, remainingInPage)
      ensures TraceSoFar(pAddr, pAddr + Sum(lens'), traceMask', code') && Copied(links)
      ensures merged <==> Mergeable(p, fetchModeMask, remainingInPage, tlen)
      ensures merged ==> lens' == lens + entry[Finds(p, fetchModeMask).value].lens
      ensures merged ==> tlen' == |lens'| + 1 <= MAX_TRACE_LENGTH && forall n :: |lens| <= n < |lens'| ==> lens'[n] >= 1
      ensures next == map[] ==> links == map[]
      ensures !merged ==> tlen' == tlen && lens' == lens && traceMask' == traceMask && code' == code && links == map[]
    {
      NoLinksCopied();
      PhyPage(pAddr, p);
      if remainingInPage < 15 { return false, tlen, lens, traceMask, code, map[]; }
      merged, tlen', lens', traceMask', code', links :=
        MergeTraces(pAddr, p, fetchModeMask, tlen, lens, traceMask, code);
    }

    /** Reads the trace at `pAddr` out of instructions whose lengths the decoder reports in `lens`; `stop` says
        that the last of them ends the trace. A trace that reaches the start of a cached one takes that one over. `ins`
        are the lengths of the instructions that the trace ends up with; `p` is where decoding ended, a place in the
        same page. */
    method BuildTrace(pAddr: nat, fetchModeMask: nat, lens: seq<nat>, stop: bool)
      returns (p: nat, traceMask: nat, tlen: nat, ins: seq<nat>, code: map<nat, Byte>, links: map<nat, Link>)
      requires Valid() && pAddr < PHY_LIMIT && fetchModeMask < 0x100
      requires 1 <= |lens| <= MAX_TRACE_LENGTH && forall n :: 0 <= n < |lens| ==> 1 <= lens[n] <= 15
      requires pAddr % 4096 + Sum(lens) <= 4096
      ensures TraceSoFar(pAddr, pAddr + Sum(ins), traceMask, code)
      ensures ins == Plan(pAddr, fetchModeMask, lens, stop, 0) != []
      ensures tlen == |ins| + 1 <= MAX_TRACE_LENGTH + 1 && forall n :: 0 <= n < |ins| ==> ins[n] >= 1
      ensures (exists room :: Decoding(pAddr, p, room)) && Copied(links)
      ensures next == map[] ==> links == map[]
    {
      assert fine.Length == STAMPS;
      BuildStarts(pAddr, fetchModeMask, lens, stop);
      hide CoherentWith, TraceSoFar, Read, NothingLive, Copied, Decoding, Plan, Mergeable, Finds, Sum, Building;
      p, traceMask, tlen, ins, code, links := pAddr, 0, 0, [], map[], map[];
      var remainingInPage: nat := 4096 - pAddr % 4096;
      while tlen < |lens|
        invariant 0 <= tlen <= |lens| && ins == lens[..tlen] && links == map[]
        invariant Building(pAddr, fetchModeMask, lens, stop, tlen, p, remainingInPage, traceMask, code)
      {
        var last;
        last, p, remainingInPage, traceMask, tlen, ins, code, links :=
          ExtendTrace(pAddr, fetchModeMask, lens, stop, tlen, p, remainingInPage, traceMask, code);
        if last { return; }
      }
      BuildEnds(pAddr, fetchModeMask, lens, stop, tlen, p, remainingInPage, traceMask, code);
      tlen := tlen + 1;
    }

    /** One more instruction and, if it does not end the trace, what can be taken over behind it; `last` says that the
        trace is complete, with its end-of-trace opcode. */
    method ExtendTrace(pAddr: nat, fetchModeMask: nat, lens: seq<nat>, stop: bool, n: nat, p: nat,
                       remainingInPage: nat, traceMask: nat, code: map<nat, Byte>)
      returns (last: bool, p': nat, remainingInPage': nat, traceMask': nat, tlen: nat, ins: seq<nat>,
               code': map<nat, Byte>, links: map<nat, Link>)
      requires Valid() && pAddr < PHY_LIMIT && fetchModeMask < 0x100
      requires Building(pAddr, fetchModeMask, lens, stop, n, p, remainingInPage, traceMask, code)
      requires n < |lens| <= MAX_TRACE_LENGTH && pAddr % 4096 + Sum(lens) <= 4096
      requires forall n :: 0 <= n < |lens| ==> 1 <= lens[n] <= 15
      ensures last ==> ins == Plan(pAddr, fetchModeMask, lens, stop, 0) != []
                       && TraceSoFar(pAddr, pAddr + Sum(ins), traceMask', code')
                       && tlen == |ins| + 1 <= MAX_TRACE_LENGTH + 1 && forall n :: 0 <= n < |ins| ==> ins[n] >= 1
      ensures Decoding(pAddr, p', remainingInPage') && Copied(links) && (next == map[] ==> links == map[])
      ensures !last ==> tlen == n + 1 && ins == lens[..n + 1] && links == map[]
                        && Building(pAddr, fetchModeMask, lens, stop, n + 1, p', remainingInPage', traceMask', code')
    {
      NoLinksCopied();
      hide CoherentWith, TraceSoFar, Read, NothingLive, Copied, Decoding, Plan, Mergeable, Finds, Sum, Building;
      last, p', remainingInPage', traceMask', code' :=
        DecodeNext(pAddr, fetchModeMask, lens, stop, n, p, remainingInPage, traceMask, code);
      tlen, ins, links := n + 1, lens[..n + 1], map[];
      if last {
        tlen := tlen + 1;
        return;
      }
      last, tlen, ins, traceMask', code', links :=
        TryMerge(pAddr, p', remainingInPage', fetchModeMask, tlen, ins, traceMask', code');
    }

    /** `n` instructions are decoded, up to `p`, and the trace goes on as planned. */
    ghost predicate Building(pAddr: nat, fetchModeMask: nat, lens: seq<nat>, stop: bool, n: nat, p: nat, room: nat,
                             traceMask: nat, code: map<nat, Byte>)
      reads `mem, entry
    {
      && n <= |lens| && p == pAddr + Sum(lens[..n]) && room == 4096 - pAddr % 4096 - Sum(lens[..n])
      && Decoding(pAddr, p, room) && TraceSoFar(pAddr, p, traceMask, code)
      && Plan(pAddr, fetchModeMask, lens, stop, n) == Plan(pAddr, fetchModeMask, lens, stop, 0)
    }

    lemma BuildStarts(pAddr: nat, fetchModeMask: nat, lens: seq<nat>, stop: bool)
      requires fine.Length == STAMPS
      ensures Building(pAddr, fetchModeMask, lens, stop, 0, pAddr, 4096 - pAddr % 4096, 0, map[]) && Copied(map[])
    {
    }

    lemma BuildEnds(pAddr: nat, fetchModeMask: nat, lens: seq<nat>, stop: bool, n: nat, p: nat, room: nat,
                    traceMask: nat, code: map<nat, Byte>)
      requires Building(pAddr, fetchModeMask, lens, stop, n, p, room, traceMask, code) && n == |lens|
      ensures Plan(pAddr, fetchModeMask, lens, stop, 0) == lens[..n]
      ensures TraceSoFar(pAddr, pAddr + Sum(lens[..n]), traceMask, code)
      ensures Decoding(pAddr, p, room)
    {
    }

    /** Decodes the next instruction, and says whether it is the last. */
    method DecodeNext(pAddr: nat, fetchModeMask: nat, lens: seq<nat>, stop: bool, n: nat, p: nat, remainingInPage: nat,
                      traceMask: nat, code: map<nat, Byte>)
      returns (done: bool, p': nat, remainingInPage': nat, traceMask': nat, code': map<nat, Byte>)
      requires Building(pAddr, fetchModeMask, lens, stop, n, p, remainingInPage, traceMask, code)
      requires n < |lens| && 1 <= lens[n] <= 15 && pAddr % 4096 + Sum(lens) <= 4096
      ensures TraceSoFar(pAddr, pAddr + Sum(lens[..n + 1]), traceMask', code') && Decoding(pAddr, p', remainingInPage')
      ensures done ==> Plan(pAddr, fetchModeMask, lens, stop, 0) == lens[..n + 1]
      ensures !done ==> p' == pAddr + Sum(lens[..n + 1])
      ensures !done && Mergeable(p', fetchModeMask, remainingInPage', n + 1) ==>
                Plan(pAddr, fetchModeMask, lens, stop, 0) == lens[..n + 1] + entry[Finds(p', fetchModeMask).value].lens
      ensures !done && !Mergeable(p', fetchModeMask, remainingInPage', n + 1) ==>
                Building(pAddr, fetchModeMask, lens, stop, n + 1, p', remainingInPage', traceMask', code')
    {
      var len := lens[n];
      SumPrefix(lens, n);
      PlanStep(pAddr, fetchModeMask, lens, stop, n);
      RoomToDecode(pAddr, p, remainingInPage, len);
      hide TraceSoFar, Plan, Mergeable, Finds, Sum, Decoding;
      traceMask', code' := AddInstruction(pAddr, p, len, traceMask, code);
      done := (n + 1 == |lens| && stop) || remainingInPage == len;
      if done { return done, p, remainingInPage, traceMask', code'; }
      p', remainingInPage' := p + len, remainingInPage - len;
    }

    /** What a cached trace runs: every byte of each of its instructions is in its code, with its line in the mask. */
    lemma RunsItsCode(x: nat, n: nat, a: nat)
      requires Valid() && x < ENTRIES && Live(entry[x]) && InOnePage(entry[x]) && n < |entry[x].lens|
      requires var at := entry[x].pAddr + Sum(entry[x].lens[..n]); at <= a < at + entry[x].lens[n]
      ensures a in entry[x].code && Read(mem, a) == entry[x].code[a] && Bit(entry[x].traceMask, Line(a)) && Stamped(a)
      ensures entry[x].tlen == |entry[x].lens| + 1
    {
      SumPrefix(entry[x].lens, n);
      assert EntryOk(x, mem);
    }

    /** One step of the plan. */
    lemma PlanStep(pAddr: nat, fetchModeMask: nat, lens: seq<nat>, stop: bool, n: nat)
      requires n < |lens|
      ensures var p, room := pAddr + Sum(lens[..n + 1]), 4096 - pAddr % 4096 - Sum(lens[..n + 1]);
              Plan(pAddr, fetchModeMask, lens, stop, n)
              == if (n + 1 == |lens| && stop) || room == 0 then lens[..n + 1]
                 else if Mergeable(p, fetchModeMask, room, n + 1)
                 then lens[..n + 1] + entry[Finds(p, fetchModeMask).value].lens
                 else Plan(pAddr, fetchModeMask, lens, stop, n + 1)
    {
    }

    /** Fills the entry of `pAddr` on a miss. */
    method ServeICacheMiss(pAddr: nat, fetchModeMask: nat, lens: seq<nat>, stop: bool) returns (x: nat)
      requires Valid() && running == None && pAddr < PHY_LIMIT && fetchModeMask < 0x100
      requires 1 <= |lens| <= MAX_TRACE_LENGTH && forall n :: 0 <= n < |lens| ==> 1 <= lens[n] <= 15
      requires pAddr % 4096 + Sum(lens) <= 4096
      modifies `nextSplit, `linkStamp, `mpindex, `nextTrace, `next, `oldest, `codeOf, entry, fine, splits
      ensures Valid()
      ensures x == Hash(pAddr, fetchModeMask) && FindEntry(pAddr, fetchModeMask) == Some(x)
      ensures entry[x].trace == old(nextTrace) && codeOf == old(codeOf)[old(nextTrace) := entry[x].code]
      ensures Counted(entry[x]) && InOnePage(entry[x])
      ensures entry[x].lens == if old(mpindex) + MAX_TRACE_LENGTH + 1 <= POOL
                               then old(Plan(pAddr, fetchModeMask, lens, stop, 0)) else lens
      ensures old(NothingLive()) ==> entry[x].lens == lens
      ensures forall a :: StampIndex(a) != StampIndex(pAddr) && Stamped(a) ==> old(Stamped(a))
      ensures nextTrace == old(nextTrace) + 1 && (old(next) == map[] ==> next == map[])
      ensures mpindex <= old(mpindex) + MAX_TRACE_LENGTH + 1 || old(mpindex) + MAX_TRACE_LENGTH + 1 > POOL
      ensures old(mpindex) + MAX_TRACE_LENGTH + 1 <= POOL ==>
                linkStamp == old(linkStamp) && oldest == old(oldest)
                && forall y :: 0 <= y < ENTRIES && y != x ==> entry[y] == old(entry[y])
    {
      AllocTrace();
      hide CoherentWith, Plan, InOnePage, Counted, NothingLive;
      if NothingLive() { PlanAlone(pAddr, fetchModeMask, lens, stop, 0); }
      x := FillMiss(pAddr, fetchModeMask, lens, stop);
    }

    /** The same with room in the pool. */
    method FillMiss(pAddr: nat, fetchModeMask: nat, lens: seq<nat>, stop: bool) returns (x: nat)
      requires Valid() && pAddr < PHY_LIMIT && fetchModeMask < 0x100 && mpindex + MAX_TRACE_LENGTH + 1 <= POOL
      requires 1 <= |lens| <= MAX_TRACE_LENGTH && forall n :: 0 <= n < |lens| ==> 1 <= lens[n] <= 15
      requires pAddr % 4096 + Sum(lens) <= 4096
      modifies `mpindex, `nextTrace, `next, `codeOf, entry, fine
      ensures Valid()
      ensures x == Hash(pAddr, fetchModeMask) && FindEntry(pAddr, fetchModeMask) == Some(x)
      ensures entry[x].trace == old(nextTrace) && codeOf == old(codeOf)[old(nextTrace) := entry[x].code]
      ensures Counted(entry[x]) && InOnePage(entry[x])
      ensures entry[x].lens == old(Plan(pAddr, fetchModeMask, lens, stop, 0))
      ensures forall a :: StampIndex(a) != StampIndex(pAddr) && Stamped(a) ==> old(Stamped(a))
      ensures nextTrace == old(nextTrace) + 1 && (old(next) == map[] ==> next == map[])
      ensures mpindex <= old(mpindex) + MAX_TRACE_LENGTH + 1
      ensures forall y :: 0 <= y < ENTRIES && y != x ==> entry[y] == old(entry[y])
    {
      x := Hash(pAddr, fetchModeMask);
      HashByMode(pAddr, fetchModeMask);
      hide EntryOk, Hash, Bit, Copied;
      var p, traceMask, tlen, ins, code, links := BuildTrace(pAddr, fetchModeMask, lens, stop);
      assert p / 4096 == pAddr / 4096;
      SamePageSameStamp(p, pAddr);
      CommitTrace(x, p, Entry(pAddr, traceMask, tlen, fetchModeMask, nextTrace, ins, code), links);
    }

    /** Stamps the lines of a trace that was decoded up to `p` and fills entry `x` with it. */
    method CommitTrace(x: nat, p: nat, e: Entry, links: map<nat, Link>)
      requires Valid() && Live(e) && e.mode < 0x100 && x == Hash(e.pAddr, e.mode) && x < ENTRIES
      requires TraceSoFar(e.pAddr, e.pAddr + Sum(e.lens), e.traceMask, e.code) && Counted(e)
      requires p / 4096 == e.pAddr / 4096
      requires e.trace == nextTrace && Copied(links) && mpindex + e.tlen <= POOL
      modifies `mpindex, `nextTrace, `next, `codeOf, entry, fine
      ensures Valid() && entry[x] == e && InOnePage(e) && mpindex == old(mpindex) + e.tlen
      ensures nextTrace == old(nextTrace) + 1
      ensures codeOf == old(codeOf)[e.trace := e.code]
      ensures next == WithLinks(old(next), e.trace, links) && (links == map[] ==> next == old(next))
      ensures forall y :: 0 <= y < ENTRIES && y != x ==> entry[y] == old(entry[y])
      ensures forall a :: StampIndex(a) != StampIndex(p) && Stamped(a) ==> old(Stamped(a))
    {
      MarkTrace(p, e, links);
      hide CoherentWith, TraceSoFar, InOnePage, Counted, Fresh, Copied, WithLinks, StampIndex, Stamped;
      FillEntry(x, e, links);
    }

    /** Stamps the lines of a trace. */
    method MarkTrace(p: nat, e: Entry, links: map<nat, Link>)
      requires Valid() && TraceSoFar(e.pAddr, e.pAddr + Sum(e.lens), e.traceMask, e.code) && Counted(e)
      requires p / 4096 == e.pAddr / 4096 && Copied(links)
      modifies fine
      ensures Valid() && e.pAddr in e.code && Fresh(e.code, mem) && InOnePage(e) && Copied(links)
      ensures forall a :: StampIndex(a) != StampIndex(p) && Stamped(a) ==> old(Stamped(a))
    {
      forall a | a in e.code ensures StampIndex(a) == StampIndex(p) {
        SamePageSameStamp(a, p);
      }
      hide Hash, Bit, StampIndex, Line;
      MarkICacheMask(p, e.traceMask);
      forall b | b in links ensures LinkGood(links[b], mem) { assert old(LinkGood(links[b], mem)); }
    }

    /** Replaces the trace in entry `x` by a new one-page trace of stamped lines. */
    method FillEntry(x: nat, e: Entry, links: map<nat, Link>)
      requires Valid() && Live(e) && e.mode < 0x100 && x == Hash(e.pAddr, e.mode) && x < ENTRIES
      requires Counted(e) && e.pAddr in e.code && Fresh(e.code, mem) && InOnePage(e) && e.trace == nextTrace
      requires Copied(links) && mpindex + e.tlen <= POOL
      modifies `mpindex, `nextTrace, `next, `codeOf, entry
      ensures Valid() && entry[x] == e && nextTrace == old(nextTrace) + 1 && mpindex == old(mpindex) + e.tlen
      ensures codeOf == old(codeOf)[e.trace := e.code]
      ensures next == WithLinks(old(next), e.trace, links) && (links == map[] ==> next == old(next))
      ensures forall y :: 0 <= y < ENTRIES && y != x ==> entry[y] == old(entry[y])
    {
      hide WithLinks, Counted, InOnePage, Fresh, Hash, LinkOk, LinkGood, Copied, Crosses, Stamped;
      entry[x] := e;
      AddTrace(e.code, links);
      mpindex := mpindex + e.tlen;
      forall y | 0 <= y < ENTRIES ensures EntryOk(y, mem) {
        assert y != x ==> old(EntryOk(y, mem));
        assert y != x ==> SplitTrace(y, entry[y]) == old(SplitTrace(y, entry[y]));
      }
    }

    /** Numbers a new trace, whose instructions hold the links that were copied with them and no others. */
    method AddTrace(code: map<nat, Byte>, links: map<nat, Link>)
      requires Shape() && oldest <= nextTrace && forall t :: t in codeOf ==> t < nextTrace
      requires fine.Length == STAMPS && Copied(links) && forall k :: k in next ==> LinkOk(k, next[k], mem)
      requires running.Some? ==> running.value in codeOf
      modifies `nextTrace, `next, `codeOf
      ensures nextTrace == old(nextTrace) + 1 && codeOf == old(codeOf)[old(nextTrace) := code]
      ensures forall k :: k in next ==> LinkOk(k, next[k], mem)
      ensures next == WithLinks(old(next), old(nextTrace), links)
      ensures links == map[] ==> next == old(next)
    {
      hide Fresh, Placed, Shape, Stamped;
      ghost var t := nextTrace;
      next := WithLinks(next, nextTrace, links);
      assert links == map[] ==> next == old(next);
      codeOf := codeOf[nextTrace := code];
      nextTrace := nextTrace + 1;
      forall k | k in next ensures LinkOk(k, next[k], mem) {
        if k.trace == t { assert old(LinkGood(links[k.branch], mem)); } else { assert old(LinkOk(k, next[k], mem)); }
      }
    }

    /** A miss on an instruction of `len` bytes that continues in the physical page `ppf`. Fetching that page may
        fault, which leaves the entry with the complemented address. */
    method ServeBoundaryMiss(pAddr: nat, fetchModeMask: nat, len: nat, ppf: nat, faults: bool) returns (x: nat)
      requires Valid() && running == None && pAddr < PHY_LIMIT && fetchModeMask < 0x100
      requires 4096 - pAddr % 4096 < len <= 15 && ppf % 4096 == 0 && ppf < PHY_LIMIT
      modifies `nextSplit, `linkStamp, `mpindex, `nextTrace, `next, `oldest, `codeOf, `fetchPage, entry, fine, splits
      ensures Valid() && fetchPage == if faults then old(fetchPage) else ppf / 4096
      ensures faults ==> FindEntry(pAddr, fetchModeMask) == None
      ensures !faults ==> x < ENTRIES && entry[x].code == Crossing(mem, pAddr, len, ppf) && entry[x].lens == [len]
                          && entry[x].tlen == 2
      ensures !faults ==> FindEntry(pAddr, fetchModeMask) == Some(x) || entry[x].pAddr == DEAD
      ensures !faults ==> CrossesInto(x, fetchPage)
    {
      CrossingIs(pAddr, fetchModeMask, nextTrace, len, ppf, mem);
      AllocTrace();
      x := Hash(pAddr, fetchModeMask);
      HashByMode(pAddr, fetchModeMask);
      hide Counted, Crosses, Crossing, EntryOk, LinkOk, Stamped, Fresh, Hash;
      if faults {
        FailFetch(x, pAddr);
        return;
      }
      fetchPage := ppf / 4096;
      var code := Crossing(mem, pAddr, len, ppf);
      MarkCrossing(pAddr, len, ppf);
      CommitPageSplitTrace(x, Entry(pAddr, 0x8000_0000, 2, fetchModeMask, nextTrace, [len], code), ppf);
    }

    /** Stamps the two lines an instruction that crosses the page end lies in. */
    method MarkCrossing(pAddr: nat, len: nat, ppf: nat)
      requires Valid() && 4096 - pAddr % 4096 < len <= 15 && ppf % 4096 == 0
      modifies fine
      ensures Valid()
      ensures pAddr in Crossing(mem, pAddr, len, ppf) && Fresh(Crossing(mem, pAddr, len, ppf), mem)
    {
      CrossingLines(pAddr, len, ppf);
      MarkICacheMask(pAddr, 0x8000_0000);
      MarkICacheMask(ppf, 1);
    }

    /** The page fault of a boundary fetch: the entry keeps the complemented address, which no lookup matches. */
    method FailFetch(x: nat, pAddr: nat)
      requires Valid() && pAddr < PHY_LIMIT && x < ENTRIES
      modifies entry
      ensures Valid() && !Live(entry[x])
    {
      entry[x] := entry[x].(pAddr := DEAD - pAddr, traceMask := 0, tlen := 1);
      forall y | 0 <= y < ENTRIES ensures EntryOk(y, mem) {
        assert old(EntryOk(y, mem));
      }
    }

    /** Fills entry `x` with a page-split trace and registers it, which evicts the trace that held the slot. */
    method CommitPageSplitTrace(x: nat, e: Entry, ppf: nat)
      requires Valid() && Live(e) && e.mode < 0x100 && x == Hash(e.pAddr, e.mode) && x < ENTRIES
      requires e.pAddr in e.code && Fresh(e.code, mem) && 4096 - e.pAddr % 4096 < 15 && e.trace == nextTrace
      requires ppf < PHY_LIMIT && ppf % 4096 == 0 && mpindex + e.tlen <= POOL && Counted(e) && Crosses(e, ppf)
      modifies `nextSplit, `mpindex, `nextTrace, `next, `codeOf, entry, splits
      ensures Valid()
      ensures (entry[x] == e || entry[x] == e.(pAddr := DEAD)) && CrossesInto(x, ppf / 4096)
    {
      hide Fresh, Hash, LinkOk, LinkGood, Copied, InOnePage, Stamped, Crosses, Counted, WithLinks;
      NoLinksCopied();
      ghost var slot := nextSplit;
      AddTrace(e.code, map[]);
      mpindex := mpindex + e.tlen;
      entry[x] := e;
      RegisterSplit(x, ppf);
      assert splits[slot] == Split(ppf, x);
      forall y | 0 <= y < ENTRIES ensures EntryOk(y, mem) {
        if y == x {
          assert splits[slot].e == x && old(Fresh(e.code, mem));
        } else {
          assert old(EntryOk(y, mem));
          if Live(entry[y]) && old(SplitTrace(y, entry[y])) {
            var k :| 0 <= k < SPLITS && old(splits[k]).ppf != DEAD && old(splits[k]).e == y
                     && Crosses(entry[y], old(splits[k]).ppf);
            assert k != slot && splits[k] == old(splits[k]);
          }
        }
      }
    }

    /** Puts entry `x` into the next slot; the trace that held it dies. */
    method RegisterSplit(x: nat, ppf: nat)
      requires Shape() && x < ENTRIES
      modifies `nextSplit, entry, splits
      ensures Shape()
      ensures forall k :: 0 <= k < SPLITS ==> splits[k] == if k == old(nextSplit) then Split(ppf, x) else old(splits[k])
      ensures forall y :: 0 <= y < ENTRIES ==>
                entry[y] == if old(splits[nextSplit].ppf != DEAD && splits[nextSplit].e == y)
                            then old(entry[y]).(pAddr := DEAD) else old(entry[y])
    {
      var slot := nextSplit;
      if splits[slot].ppf != DEAD {
        FlushSMC(splits[slot].e);
      }
      splits[slot] := Split(ppf, x);
      nextSplit := (slot + 1) % SPLITS;
    }

    /** Flushes every trace and every stamp (`flushICaches`, the CPU reset), after which the memory may be replaced
        as a whole: a new oracle starts from a cleared address space. */
    method Reset(newMem: map<nat, Byte>)
      requires Valid()
      modifies `mem, `nextSplit, `linkStamp, `mpindex, `oldest, `stopTrace, entry, fine, splits
      ensures Valid() && mem == newMem && stopTrace && NothingLive()
    {
      FlushICacheEntries();
      stopTrace := true;
      for i := 0 to STAMPS
        modifies fine
      {
        fine[i] := 0;
      }
      mem := newMem;
      assert forall k :: k in next ==> old(LinkOk(k, next[k], mem));
    }

    // ----------------------------------------------------------------------- running traces

    /** `prefetch`: instructions are fetched from the page of `pAddr` from then on. */
    method Prefetch(pAddr: nat)
      requires Valid()
      modifies `fetchPage
      ensures Valid() && fetchPage == pAddr / 4096
    {
      fetchPage := pAddr / 4096;
    }

    /** Execution of a cached trace begins: the page fetched from is that of the trace or, right after a boundary fetch,
        the one it ends in. */
    method Enter(x: nat)
      requires Valid() && running == None && x < ENTRIES && Live(entry[x])
      requires fetchPage == entry[x].pAddr / 4096 || CrossesInto(x, fetchPage)
      modifies `running
      ensures Valid() && running == Some(entry[x].trace) && Current() && Guarded(entry[x].trace)
      ensures codeOf[entry[x].trace] == entry[x].code
    {
      assert EntryOk(x, mem);
      running := Some(entry[x].trace);
    }

    /** The stores of a running trace. */
    predicate Legal(w: GuestStore) { 1 <= |w.data| <= 64 && w.pAddr % 4096 + |w.data| <= 4096 }

    /** A store that, if it matters to the running trace, is to the page that instructions are fetched from. */
    ghost predicate Heard(w: GuestStore)
      requires Legal(w) && running.Some?
      reads `running, `codeOf, `fetchPage
    {
      fetchPage == w.pAddr / 4096 || !Touches(running.value, w.pAddr, |w.data|)
    }

    /** A store that is not to another page sharing the stamp of the page fetched from. */
    predicate Unaliased(w: GuestStore)
      reads `fetchPage
    {
      StampIndex(w.pAddr) == StampIndex(fetchPage * 4096) ==> fetchPage == w.pAddr / 4096
    }

    /** The running trace lies in the page fetched from. */
    ghost predicate InFetchPage()
      reads `running, `codeOf, `fetchPage
    {
      running.Some? && running.value in codeOf && forall a :: a in codeOf[running.value] ==> a / 4096 == fetchPage
    }

    /** For a trace that lies in the page fetched from, as every trace does that was entered from the cache and fits its
        page, only such stores are not heard. */
    lemma UnaliasedHeard(w: GuestStore)
      requires Legal(w) && InFetchPage() && Unaliased(w)
      ensures Heard(w)
    {
      if a :| a in codeOf[running.value] && InStoredLines(w.pAddr, |w.data|, a) {
        SamePageSameStamp(a, fetchPage * 4096);
      }
    }

    /** Any run of stores by a running trace: as long as all are heard, it is stopped or agrees with memory. If it lies
        in the page fetched from, stores to pages that share its stamp are the only ones that may not be heard. */
    method RunStores(stores: seq<GuestStore>)
      requires Valid() && running.Some? && (stopTrace || Guarded(running.value))
      requires forall w :: w in stores ==> Legal(w)
      modifies `mem, `nextSplit, `linkStamp, `mpindex, `oldest, `stopTrace, entry, fine, splits
      ensures Valid() && (old(stopTrace) ==> stopTrace)
      ensures (forall w :: w in stores ==> Heard(w)) ==> stopTrace || (Guarded(running.value) && !Stale(running.value))
      ensures InFetchPage() && (forall w :: w in stores ==> Unaliased(w)) ==> stopTrace || !Stale(running.value)
    {
      forall w | w in stores && Unaliased(w) && InFetchPage()
        ensures Heard(w)
      {
        UnaliasedHeard(w);
      }
      assert fine.Length == STAMPS;
      hide CoherentWith, Touches, Stale, Overwrites, Guarded, Unaliased, InFetchPage;
      for i := 0 to |stores|
        invariant Valid() && (old(stopTrace) ==> stopTrace)
        invariant (forall w :: w in stores[..i] ==> Heard(w)) ==> stopTrace || Guarded(running.value)
      {
        assert stores[i] in stores && Legal(stores[i]);
        assert stores[..i + 1] == stores[..i] + [stores[i]];
        assert stores[i] in stores[..i + 1] && forall w :: w in stores[..i] ==> w in stores[..i + 1];
        Store(stores[i].pAddr, stores[i].data);
      }
      assert stores[..|stores|] == stores;
      if Guarded(running.value) { GuardedAgrees(running.value); }
    }

    lemma GuardedAgrees(t: nat)
      requires fine.Length == STAMPS && Guarded(t)
      ensures !Stale(t)
    {
    }

    /** Back to the main loop, which clears the event. */
    method Leave()
      requires Valid()
      modifies `running, `stopTrace
      ensures Valid() && running == None && !stopTrace
    {
      running := None;
      stopTrace := false;
    }

    /** `linkTrace`, after the branch at place `branch` of the running trace was taken to `pAddr`: an accepted link is
        followed without a look at the cache; a refused one is forgotten, and a hit in the cache is linked and run.
        What is run then agrees with memory, provided that the running trace was decoded since the last flush. */
    method LinkTrace(branch: nat, pAddr: nat, fetchModeMask: nat) returns (runs: bool)
      requires Valid() && running.Some? && pAddr < PHY_LIMIT && fetchModeMask < 0x100
      modifies `next, `running, `fetchPage
      ensures Valid() && running.Some?
      ensures stopTrace ==> !runs
      ensures !runs ==> running == old(running)
      ensures runs && old(Current()) ==> Current() && Guarded(running.value) && !Stale(running.value)
      ensures var k := Place(old(running).value, branch);
              !stopTrace && k in old(next) && old(Accepts(next[Place(running.value, branch)])) ==>
                runs && running == Some(old(next)[k].target) && next == old(next) && fetchPage == old(fetchPage)
      ensures var k := Place(old(running).value, branch);
              !stopTrace && !(k in old(next) && old(Accepts(next[Place(running.value, branch)]))) ==>
                && fetchPage == pAddr / 4096 && (runs <==> old(FindEntry(pAddr, fetchModeMask)).Some?)
                && (runs ==> var e := entry[old(FindEntry(pAddr, fetchModeMask)).value];
                             running == Some(e.trace) && next == old(next)[k := Link(e.trace, linkStamp)])
    {
      hide CoherentWith, Hash;
      if stopTrace { return false; }
      var k := Place(running.value, branch);
      var linked := GetNextTrace(k);
      if linked.Some? {
        Run(linked.value);
        return true;
      }
      fetchPage := pAddr / 4096;
      runs := LinkHit(k, pAddr, fetchModeMask);
    }

    /** The link an instruction holds; one of an older stamp is forgotten. A link of a trace decoded since the last
        flush that is not forgotten leads to another such trace, one that memory still agrees with. */
    method GetNextTrace(k: Place) returns (target: Option<nat>)
      requires Valid()
      modifies `next
      ensures Valid()
      ensures if k in old(next) && old(Accepts(next[k])) then target == Some(old(next)[k].target) && next == old(next)
              else target == None && next == old(next) - {k}
      ensures target.Some? ==> target.value in codeOf
      ensures target.Some? && k.trace >= oldest ==>
                target.value >= oldest && Guarded(target.value) && !Stale(target.value)
    {
      if k !in next { return None; }
      assert LinkOk(k, next[k], mem);
      if linkStamp > next[k].stamp {
        next := next - {k};
        return None;
      }
      target := Some(next[k].target);
    }

    /** The places `path` lead from trace `t` on by links that would be followed. */
    ghost predicate Chain(t: nat, path: seq<nat>)
      reads `next, `linkStamp
      decreases path
    {
      path != [] ==>
        var k := Place(t, path[0]);
        k in next && Accepts(next[k]) && Chain(next[k].target, path[1..])
    }

    ghost function End(t: nat, path: seq<nat>): nat
      requires Chain(t, path)
      reads `next, `linkStamp
      decreases path
    {
      if path == [] then t else End(next[Place(t, path[0])].target, path[1..])
    }

    /** However many links are followed from a cached trace, memory agrees with where they lead. */
    lemma LinkedFromCacheIsFresh(x: nat, path: seq<nat>)
      requires Valid() && x < ENTRIES && Live(entry[x]) && Chain(entry[x].trace, path)
      ensures !Stale(End(entry[x].trace, path))
    {
      assert EntryOk(x, mem);
      ChainStaysCurrent(entry[x].trace, path);
    }

    lemma {:induction false} ChainStaysCurrent(t: nat, path: seq<nat>)
      requires Valid() && t >= oldest && !Stale(t) && Chain(t, path)
      ensures End(t, path) >= oldest && !Stale(End(t, path))
      decreases path
    {
      if path != [] {
        var k := Place(t, path[0]);
        assert LinkOk(k, next[k], mem);
        ChainStaysCurrent(next[k].target, path[1..]);
      }
    }

    method Run(t: nat)
      requires Valid() && t in codeOf
      modifies `running
      ensures Valid() && running == Some(t)
    {
      running := Some(t);
    }

    /** The look into the cache. */
    method LinkHit(k: Place, pAddr: nat, fetchModeMask: nat) returns (runs: bool)
      requires Valid() && running == Some(k.trace) && k !in next && pAddr < PHY_LIMIT && fetchModeMask < 0x100
      modifies `next, `running
      ensures Valid() && running.Some? && (runs <==> old(FindEntry(pAddr, fetchModeMask)).Some?)
      ensures !runs ==> running == old(running) && next == old(next)
      ensures runs ==> var e := entry[old(FindEntry(pAddr, fetchModeMask)).value];
                       running == Some(e.trace) && next == old(next)[k := Link(e.trace, linkStamp)]
      ensures runs ==> Current() && Guarded(running.value) && !Stale(running.value)
    {
      var hit := FindEntry(pAddr, fetchModeMask);
      if hit.None? { return false; }
      var e := entry[hit.value];
      assert EntryOk(hit.value, mem);
      next := next[k := Link(e.trace, linkStamp)];
      running := Some(e.trace);
      runs := true;
    }
  }

  // ------------------------------------------------------------------------- runs that go wrong

  /** `call 1000h` at address 0. */
  const CALLER: seq<Byte> := [0xE8, 0xFB, 0x0F, 0x00, 0x00]

  /** `mov [rax], cl; mov [rbx], cl; nop; ret` at address 1000h. */
  const CALLEE: seq<Byte> := [0x88, 0x08, 0x88, 0x0B, 0x90, 0xC3]

  const CALLEE_AT: nat := 0x1000
  const NOP_AT: nat := 0x1004
  const HLT: seq<Byte> := [0xF4]

  /** What the call pushes. */
  const RETURN: seq<Byte> := [5, 0, 0, 0, 0, 0, 0, 0]

  lemma {:induction false} SliceReads(mem: map<nat, Byte>, addr: nat, src: seq<Byte>, a: nat)
    requires addr + |src| <= PHY_LIMIT
    ensures Read(StoredSlice(mem, addr, src), a) == if addr <= a < addr + |src| then src[a - addr] else Read(mem, a)
  {
    if src != [] {
      var last := |src| - 1;
      SliceReads(mem, addr, src[..last], a);
      assert (addr + last) % PHY_LIMIT == addr + last;
    }
  }

  /** The program is in memory and nothing is cached. */
  ghost predicate Loaded(c: Cache)
    reads c, c.entry, c.fine, c.splits
  {
    && c.Valid() && c.fine.Length == STAMPS && c.NothingLive() && (forall a :: !c.Stamped(a))
    && (forall i :: 0 <= i < 5 ==> Read(c.mem, i) == CALLER[i])
    && (forall i :: 0 <= i < 6 ==> Read(c.mem, CALLEE_AT + i) == CALLEE[i])
    && c.next == map[] && c.codeOf == map[] && c.running == None && !c.stopTrace
    && c.nextTrace == c.oldest == c.mpindex == 0
  }

  method Load() returns (c: Cache)
    ensures fresh(c) && fresh(c.entry) && fresh(c.fine) && fresh(c.splits)
    ensures Loaded(c) && c.linkStamp == 0
  {
    hide Cache.EntryOk, Cache.LinkOk, StampIndex, Bit, Line, StoredSlice, Read;
    c := new Cache();
    c.WriteMemSlice(0, CALLER);
    ghost var m := c.mem;
    c.WriteMemSlice(CALLEE_AT, CALLEE);
    forall i | 0 <= i < 5 ensures Read(c.mem, i) == CALLER[i] {
      SliceReads(map[], 0, CALLER, i);
      SliceReads(m, CALLEE_AT, CALLEE, i);
    }
    forall i | 0 <= i < 6 ensures Read(c.mem, CALLEE_AT + i) == CALLEE[i] {
      SliceReads(m, CALLEE_AT, CALLEE, CALLEE_AT + i);
    }
    c.Leave();
  }

  /** No link is needed. The callee is entered from the cache and fits its page. Its first store, with
      RAX = 1_0000_1000h, is to the page 4 GiB above, which shares the stamp: the trace's lines lose their stamps, but
      the page fetched from is another. Its second store, with RBX = 1004h, is to the trace and finds no stamp. */
  method UnheardStore(mode: nat) returns (c: Cache)
    requires mode < 0x100
    ensures fresh(c) && c.Valid() && c.running.Some? && c.Stale(c.running.value) && !c.stopTrace && c.next == map[]
    ensures c.InFetchPage()
  {
    c := EnteredCallee(mode);
    hide Cache.CoherentWith, Bit, StampIndex, InStoredLines;
    AliasedStore(c);
    OwnStore(c);
  }

  /** The second, which is not heard. */
  method OwnStore(c: Cache)
    requires c.Valid() && c.fine.Length == STAMPS && c.running == Some(0) && !c.Stale(0) && !c.stopTrace
    requires 0 in c.codeOf && CalleeCode(c.codeOf[0]) && forall a :: InStoredLines(NOP_AT, 1, a) ==> !c.Stamped(a)
    modifies c`mem, c`nextSplit, c`linkStamp, c`mpindex, c`oldest, c`stopTrace, c.entry, c.fine, c.splits
    ensures c.Valid() && !c.stopTrace && c.Stale(0)
  {
    hide Cache.CoherentWith, Bit, StampIndex, InStoredLines;
    c.HitMeans(NOP_AT, 1);
    c.Store(NOP_AT, HLT);
  }

  method EnteredCallee(mode: nat) returns (c: Cache)
    requires mode < 0x100
    ensures fresh(c) && fresh(c.entry) && fresh(c.fine) && fresh(c.splits) && c.fine.Length == STAMPS
    ensures c.Valid() && c.running == Some(0) && c.Guarded(0) && CalleeCode(c.codeOf[0])
    ensures !c.stopTrace && c.fetchPage == 1 && c.next == map[]
  {
    hide Cache.CoherentWith, Hash, Bit, StampIndex, InStoredLines;
    c := Load();
    var x := Callee(c, mode);
    c.Prefetch(CALLEE_AT);
    c.Enter(x);
  }

  /** The first of the two stores. */
  method AliasedStore(c: Cache)
    requires c.Valid() && c.running == Some(0) && c.Guarded(0) && CalleeCode(c.codeOf[0])
    requires !c.stopTrace && c.fetchPage == 1
    modifies c`mem, c`nextSplit, c`linkStamp, c`mpindex, c`oldest, c`stopTrace, c.entry, c.fine, c.splits
    ensures c.Valid() && !c.stopTrace && !c.Stale(0)
    ensures forall a :: InStoredLines(NOP_AT, 1, a) ==> !c.Stamped(a)
  {
    assert forall a :: InStoredLines(NOP_AT, 1, a) ==> InStoredLines(0x1_0000_1000, 1, a);
    hide Cache.CoherentWith, Bit, StampIndex, InStoredLines;
    c.Store(0x1_0000_1000, HLT);
  }

  /** Decodes the callee, which becomes trace 0. */
  method Callee(c: Cache, mode: nat) returns (x: nat)
    requires Loaded(c) && mode < 0x100
    modifies c`nextSplit, c`linkStamp, c`mpindex, c`nextTrace, c`next, c`oldest, c`codeOf, c.entry, c.fine, c.splits
    ensures c.Valid() && c.linkStamp == old(c.linkStamp) && c.next == map[] && c.nextTrace == 1 && c.oldest == 0
    ensures c.mpindex <= 40 && x < ENTRIES && x == Hash(CALLEE_AT, mode)
    ensures c.entry[x].trace == 0 && c.entry[x].pAddr == CALLEE_AT && c.entry[x].mode == mode
    ensures c.codeOf == map[0 := c.entry[x].code]
    ensures CalleeCode(c.entry[x].code)
    ensures forall a :: c.Stamped(a) ==> StampIndex(a) == 1
  {
    hide Cache.CoherentWith, Hash, Bit;
    assert Sum([2, 2, 1, 1]) == 6;
    x := c.ServeICacheMiss(CALLEE_AT, mode, [2, 2, 1, 1], true);
    assert Read(c.mem, CALLEE_AT + 0) == CALLEE[0] && Read(c.mem, CALLEE_AT + 4) == CALLEE[4];
  }

  /** What the witnesses need of the callee's bytes. */
  ghost predicate CalleeCode(code: map<nat, Byte>) {
    && CALLEE_AT in code && code[CALLEE_AT] == 0x88 && NOP_AT in code && code[NOP_AT] == 0x90
    && forall a :: a in code ==> a / 4096 == 1
  }

  /** Caller and callee are cached as traces 1 and 0, in pages of their own. */
  ghost predicate BothCached(c: Cache, mode: nat)
    requires mode < 0x100
    reads c, c.entry, c.fine, c.splits
  {
    && c.Valid() && c.fine.Length == STAMPS && c.oldest == 0
    && 0 in c.codeOf && 1 in c.codeOf && CalleeCode(c.codeOf[0]) && (forall a :: a in c.codeOf[1] ==> a / 4096 == 0)
    && (forall a :: c.Stamped(a) ==> StampIndex(a) < 2)
    && var caller, callee := c.FindEntry(0, mode), c.FindEntry(CALLEE_AT, mode);
       && caller.Some? && c.entry[caller.value].trace == 1 && callee.Some? && c.entry[callee.value].trace == 0
  }

  /** Between traces, with no event pending. */
  ghost predicate Between(c: Cache)
    reads c
  {
    c.running == None && !c.stopTrace
  }

  method CacheBoth(c: Cache, mode: nat)
    requires Loaded(c) && mode < 0x100
    modifies c`nextSplit, c`linkStamp, c`mpindex, c`nextTrace, c`next, c`oldest, c`codeOf, c.entry, c.fine, c.splits
    ensures BothCached(c, mode) && Between(c) && c.next == map[] && c.linkStamp == old(c.linkStamp)
  {
    HashByMode(0, mode);
    HashByMode(CALLEE_AT, mode);
    hide Cache.CoherentWith, Hash, Bit;
    var y := Callee(c, mode);
    var x := c.ServeICacheMiss(0, mode, [5], true);
  }

  /** The caller is entered from the cache. */
  method EnterCaller(c: Cache, mode: nat)
    requires mode < 0x100 && BothCached(c, mode) && Between(c)
    modifies c`running, c`fetchPage
    ensures BothCached(c, mode) && c.running == Some(1) && c.Guarded(1) && !c.Stale(1) && c.fetchPage == 0
  {
    hide Cache.CoherentWith, Hash, Bit, CalleeCode;
    c.Prefetch(0);
    c.Enter(c.FindEntry(0, mode).value);
    c.GuardedAgrees(1);
  }

  /** A store that reaches no stamped line changes nothing but memory. */
  method StoreUnstamped(c: Cache, pAddr: nat, data: seq<Byte>)
    requires c.Valid() && c.fine.Length == STAMPS && 1 <= |data| <= 64 && pAddr % 4096 + |data| <= 4096
    requires forall a :: c.Stamped(a) ==> !InStoredLines(pAddr, |data|, a)
    modifies c`mem, c`nextSplit, c`linkStamp, c`mpindex, c`oldest, c`stopTrace, c.entry, c.fine, c.splits
    ensures c.Valid() && c.linkStamp == old(c.linkStamp) && c.oldest == old(c.oldest) && c.stopTrace == old(c.stopTrace)
    ensures forall x :: 0 <= x < c.entry.Length ==> c.entry[x] == old(c.entry[x])
    ensures forall a :: c.Stamped(a) ==> old(c.Stamped(a))
  {
    c.HitMeans(pAddr, |data|);
    assert c.entry.Length == ENTRIES;
    hide Cache.CoherentWith, Cache.Stamped, InStoredLines, Cache.Hit, Stored;
    c.StoreStamped(pAddr, data);
  }

  /** Its call pushes the return address into a page without traces. */
  method Push(c: Cache, mode: nat)
    requires mode < 0x100 && BothCached(c, mode) && c.running == Some(1) && !c.stopTrace && c.fetchPage == 0
    modifies c`mem, c`nextSplit, c`linkStamp, c`mpindex, c`oldest, c`stopTrace, c.entry, c.fine, c.splits
    ensures BothCached(c, mode) && !c.stopTrace && c.linkStamp == old(c.linkStamp)
  {
    assert forall a :: InStoredLines(0x2FF8, 8, a) ==> StampIndex(a) == 2;
    hide Cache.CoherentWith, Hash, Bit, InStoredLines, CalleeCode, Cache.Stamped, Stored;
    StoreUnstamped(c, 0x2FF8, RETURN);
  }

  /** The call, the first time through a hit in the cache, then by the link. */
  method Call(c: Cache, mode: nat)
    requires mode < 0x100 && BothCached(c, mode) && Between(c)
    requires c.next == map[] || c.next == map[Place(1, 0) := Link(0, c.linkStamp)]
    modifies c`mem, c`nextSplit, c`linkStamp, c`mpindex, c`next, c`oldest, c`stopTrace, c`running, c`fetchPage
    modifies c.entry, c.fine, c.splits
    ensures BothCached(c, mode) && c.running == Some(0) && !c.stopTrace && c.Guarded(0) && !c.Stale(0)
    ensures c.next == map[Place(1, 0) := Link(0, c.linkStamp)] && c.linkStamp == old(c.linkStamp)
    ensures old(c.next) != map[] ==> c.fetchPage == 0
  {
    hide BothCached, Cache.CoherentWith;
    EnterCaller(c, mode);
    Push(c, mode);
    TakeCall(c, mode);
  }

  method TakeCall(c: Cache, mode: nat)
    requires mode < 0x100 && BothCached(c, mode) && c.running == Some(1) && !c.stopTrace && c.fetchPage == 0
    requires c.next == map[] || c.next == map[Place(1, 0) := Link(0, c.linkStamp)]
    modifies c`next, c`running, c`fetchPage
    ensures BothCached(c, mode) && c.running == Some(0) && c.Guarded(0) && !c.Stale(0)
    ensures c.next == map[Place(1, 0) := Link(0, c.linkStamp)]
    ensures old(c.next) != map[] ==> c.fetchPage == 0
  {
    hide Cache.CoherentWith, Hash, Bit, StampIndex, CalleeCode;
    var runs := c.LinkTrace(0, CALLEE_AT, mode);
  }

  /** TLB flushes take the link stamp to its last value. */
  method Age(c: Cache)
    requires Loaded(c)
    modifies c`nextSplit, c`linkStamp, c`mpindex, c`oldest, c.entry, c.splits
    ensures Loaded(c) && c.linkStamp + 1 == LINK_STAMP_LIMIT
  {
    hide Cache.EntryOk, Cache.LinkOk, Read, StampIndex, Bit;
    while c.linkStamp + 1 != LINK_STAMP_LIMIT
      invariant Loaded(c) && c.linkStamp < LINK_STAMP_LIMIT
      decreases LINK_STAMP_LIMIT - c.linkStamp
    {
      c.TlbFlush();
    }
  }

  method LeaveBoth(c: Cache, mode: nat)
    requires mode < 0x100 && BothCached(c, mode)
    modifies c`running, c`stopTrace
    ensures BothCached(c, mode) && Between(c)
  {
    hide Cache.CoherentWith, Hash, Bit, StampIndex, CalleeCode;
    c.Leave();
  }

  /** After the first call, with the link stamp at its first or at its last value. */
  method CalledOnce(mode: nat, aged: bool) returns (c: Cache)
    requires mode < 0x100
    ensures fresh(c) && fresh(c.entry) && fresh(c.fine) && fresh(c.splits)
    ensures BothCached(c, mode) && Between(c) && c.next == map[Place(1, 0) := Link(0, c.linkStamp)]
    ensures c.linkStamp == if aged then LINK_STAMP_LIMIT - 1 else 0
  {
    hide Cache.CoherentWith, Loaded, BothCached;
    c := Load();
    if aged { Age(c); }
    CacheBoth(c, mode);
    Call(c, mode);
    LeaveBoth(c, mode);
  }

  /** A link into another page is enough, with the stamp far from running out. The callee is reached by the link, which
      leaves the page fetched from at the caller's; its store to 1004h, into itself, hits and does not stop it. */
  method StorePastLink(mode: nat) returns (c: Cache, k: Place)
    requires mode < 0x100
    ensures fresh(c) && c.Valid() && !c.stopTrace && k in c.next && c.running == Some(c.next[k].target)
    ensures c.next[k].stamp < c.linkStamp && c.Stale(c.next[k].target)
    ensures c.next[k].target in c.codeOf && forall a :: a in c.codeOf[c.next[k].target] ==> a / 4096 != c.fetchPage
  {
    hide Cache.CoherentWith, Hash, Bit, StampIndex, InStoredLines;
    c := CalledOnce(mode, false);
    assert Place(1, 0) in c.next;
    Call(c, mode);
    k := Place(1, 0);
    CalleeOverwrites(c, mode);
  }

  method CalleeOverwrites(c: Cache, mode: nat)
    requires mode < 0x100 && BothCached(c, mode) && c.running == Some(0) && c.Guarded(0) && c.fetchPage == 0
    requires !c.stopTrace && c.linkStamp == 0
    modifies c`mem, c`nextSplit, c`linkStamp, c`mpindex, c`oldest, c`stopTrace, c.entry, c.fine, c.splits
    ensures c.Valid() && !c.stopTrace && c.Stale(0) && c.linkStamp == 1
  {
    c.GuardedAgrees(0);
    hide Cache.CoherentWith, Hash, Bit, StampIndex, InStoredLines;
    c.Store(NOP_AT, HLT);
  }

  /** The link stamp runs out under the caller: with RSP = 1008h its call overwrites the callee, and the flush of the
      whole cache starts the stamp over, so that the old link looks newer than the cache. The caller, which memory still
      agrees with, is about to follow an accepted link to a trace which memory no longer agrees with. */
  method StaleLinkAhead(mode: nat) returns (c: Cache, k: Place)
    requires mode < 0x100
    ensures fresh(c) && fresh(c.entry) && fresh(c.fine) && fresh(c.splits) && c.Valid() && !c.stopTrace
    ensures k == Place(1, 0) && k in c.next && c.running == Some(k.trace) && !c.Stale(k.trace)
    ensures c.Accepts(c.next[k]) && c.linkStamp < c.next[k].stamp && c.Stale(c.next[k].target)
  {
    hide Cache.CoherentWith, Hash, Bit, StampIndex, InStoredLines;
    c := CalledOnce(mode, true);
    EnterCaller(c, mode);
    k := Place(1, 0);
    CallerOverwrites(c, mode, k);
  }

  method CallerOverwrites(c: Cache, mode: nat, k: Place)
    requires mode < 0x100 && BothCached(c, mode) && c.running == Some(1) && c.Guarded(1) && !c.Stale(1)
    requires !c.stopTrace && c.fetchPage == 0 && k == Place(1, 0)
    requires c.next == map[k := Link(0, c.linkStamp)] && c.linkStamp + 1 == LINK_STAMP_LIMIT
    modifies c`mem, c`nextSplit, c`linkStamp, c`mpindex, c`oldest, c`stopTrace, c.entry, c.fine, c.splits
    ensures c.Valid() && !c.stopTrace && !c.Stale(1) && c.Stale(0) && c.linkStamp == 0
  {
    c.OverwritingHits(k, CALLEE_AT, RETURN);
    hide Cache.CoherentWith, Hash, Bit, StampIndex, InStoredLines;
    c.Store(CALLEE_AT, RETURN);
  }

  /** And it is followed. */
  method StaleLinkReached(mode: nat) returns (c: Cache, k: Place)
    requires mode < 0x100
    ensures fresh(c) && c.Valid() && !c.stopTrace && k in c.next && c.running == Some(c.next[k].target)
    ensures c.Accepts(c.next[k]) && c.linkStamp < c.next[k].stamp && c.Stale(c.next[k].target)
  {
    hide Cache.CoherentWith, Hash;
    c, k := StaleLinkAhead(mode);
    var runs := c.LinkTrace(k.branch, CALLEE_AT, mode);
  }
}
