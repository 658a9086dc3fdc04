/**
 The tile state of AMX: its configuration image, written by STTILECFG and XSAVE and read by LDTILECFG and XRSTOR, and
 the 8 KiB of tile data.
 */
module AmxState {
  import opened Arith
  import opened Bits
  import opened Bytes
  import opened Wrappers

  const TILES: nat := 8
  const ROWS: nat := 16
  const ROW_BYTES: nat := 64
  /** Where the standard format has the two components. */
  const XTILECFG_OFFSET: nat := 2752
  const XTILEDATA_OFFSET: nat := 2816

  type Row = r: seq<Byte> | |r| == ROW_BYTES witness seq<Byte>(ROW_BYTES, _ => 0)

  // ------------------------------------------------------------------------- the configuration image

  /** The palette, the row to restart at, and each tile's rows and bytes per row. */
  datatype Config = Config(palette: nat, startRow: nat, rows: seq<nat>, colsb: seq<nat>)

  const NO_CONFIG := Config(0, 0, [0, 0, 0, 0, 0, 0, 0, 0], [0, 0, 0, 0, 0, 0, 0, 0])

  /** What a processor can hold: nothing, or palette 1 with tiles in range, each empty in both fields or in neither. */
  predicate ValidConfig(c: Config) {
    c == NO_CONFIG ||
    (c.palette == 1 && c.startRow < 256 && |c.rows| == TILES && |c.colsb| == TILES
     && forall n :: 0 <= n < TILES ==> c.rows[n] <= 16 && c.colsb[n] <= 64 && (c.rows[n] == 0 <==> c.colsb[n] == 0))
  }

  /** Byte `k` of the image: palette, start row, a 16-bit bytes-per-row per tile at 16, a byte of rows per tile
      at 48. */
  function CfgByte(c: Config, k: nat): Byte
    requires ValidConfig(c)
  {
    if c.palette == 0 then 0
    else if k == 0 then c.palette
    else if k == 1 then c.startRow
    else if 16 <= k < 32 then if k % 2 == 0 then c.colsb[(k - 16) / 2] % 256 else c.colsb[(k - 16) / 2] / 256 % 256
    else if 48 <= k < 56 then c.rows[k - 48]
    else 0
  }

  function CfgImage(c: Config): (image: seq<Byte>)
    requires ValidConfig(c)
    ensures |image| == ROW_BYTES
  {
    seq<Byte>(ROW_BYTES, k requires 0 <= k < ROW_BYTES => CfgByte(c, k))
  }

  /** Bytes 2 to 15, 32 to 47 and 56 to 63 are reserved. */
  predicate ReservedClear(image: Row) {
    forall k :: 0 <= k < ROW_BYTES && (2 <= k < 16 || 32 <= k < 48 || 56 <= k) ==> image[k] == 0
  }

  function Colsb(image: Row, n: nat): nat
    requires n < TILES
  {
    image[16 + 2 * n] as int + 256 * image[17 + 2 * n] as int
  }

  function RowsOf(image: Row): (r: seq<nat>)
    ensures |r| == TILES && forall n :: 0 <= n < TILES ==> r[n] == image[48 + n]
  {
    seq<nat>(TILES, n requires 0 <= n < TILES => image[48 + n])
  }

  function ColsbOf(image: Row): (r: seq<nat>)
    ensures |r| == TILES && forall n :: 0 <= n < TILES ==> r[n] == Colsb(image, n)
  {
    seq<nat>(TILES, n requires 0 <= n < TILES => Colsb(image, n))
  }

  predicate TileOk(image: Row, n: nat)
    requires n < TILES
  {
    Colsb(image, n) <= 64 && image[48 + n] <= 16 && (image[48 + n] == 0 <==> Colsb(image, n) == 0)
  }

  lemma LoadedValid(image: Row)
    requires forall n :: 0 <= n < TILES ==> TileOk(image, n)
    ensures ValidConfig(Config(1, image[1], RowsOf(image), ColsbOf(image)))
  {
    var c := Config(1, image[1], RowsOf(image), ColsbOf(image));
    forall n: nat | n < TILES ensures c.rows[n] <= 16 && c.colsb[n] <= 64 && (c.rows[n] == 0 <==> c.colsb[n] == 0) {
      assert TileOk(image, n);
    }
  }

  /** What loading an image gives, or nothing if it is refused. */
  function Configured(image: Row): (c: Option<Config>)
    ensures c.Some? ==> ValidConfig(c.value)
  {
    if image[0] == 0 then Some(NO_CONFIG)
    else if image[0] == 1 && ReservedClear(image) && forall n :: 0 <= n < TILES ==> TileOk(image, n) then
      LoadedValid(image);
      Some(Config(1, image[1], RowsOf(image), ColsbOf(image)))
    else None
  }

  lemma TileStored(c: Config, n: nat)
    requires ValidConfig(c) && c.palette != 0 && n < TILES
    ensures Colsb(CfgImage(c), n) == c.colsb[n] && CfgImage(c)[48 + n] == c.rows[n] && TileOk(CfgImage(c), n)
  {
    hide CfgByte;
    assert CfgImage(c)[16 + 2 * n] == CfgByte(c, 16 + 2 * n) == c.colsb[n] % 256 by { TileBytes(c, n); }
    assert CfgImage(c)[17 + 2 * n] == CfgByte(c, 17 + 2 * n) == c.colsb[n] / 256 % 256 by { TileBytes(c, n); }
    assert CfgImage(c)[48 + n] == CfgByte(c, 48 + n) == c.rows[n] by { TileBytes(c, n); }
  }

  lemma TileBytes(c: Config, n: nat)
    requires ValidConfig(c) && c.palette != 0 && n < TILES
    ensures CfgByte(c, 16 + 2 * n) == c.colsb[n] % 256 && CfgByte(c, 17 + 2 * n) == c.colsb[n] / 256 % 256
    ensures CfgByte(c, 48 + n) == c.rows[n]
  {
  }

  /** Accepted are the images of palette 0, whatever else they hold, and exactly the images that a configuration of
      palette 1 is stored as. */
  lemma AcceptedIff(image: Row)
    ensures Configured(image).Some?
            <==> image[0] == 0 || exists c :: ValidConfig(c) && c.palette == 1 && image == CfgImage(c)
  {
    if Configured(image).Some? && image[0] != 0 {
      LoadThenStore(image);
      var c := Configured(image).value;
      assert ValidConfig(c) && c.palette == 1 && image == CfgImage(c);
    }
    if c :| ValidConfig(c) && c.palette == 1 && image == CfgImage(c) { StoreThenLoad(c); }
  }

  /** Storing a configuration and loading it back. */
  lemma StoreThenLoad(c: Config)
    requires ValidConfig(c)
    ensures Configured(CfgImage(c)) == Some(c)
  {
    var image := CfgImage(c);
    if c.palette != 0 {
      assert image[0] == 1 && image[1] == c.startRow && ReservedClear(image);
      forall n: nat | n < TILES
        ensures Colsb(image, n) == c.colsb[n] && image[48 + n] == c.rows[n] && TileOk(image, n)
      {
        TileStored(c, n);
      }
      hide CfgImage, ReservedClear, TileOk, Colsb;
      assert RowsOf(image) == c.rows && ColsbOf(image) == c.colsb;
    }
  }

  /** Loading an image and storing it back: the same image, unless it has palette 0 and anything else set. */
  lemma LoadThenStore(image: Row)
    requires Configured(image).Some?
    ensures CfgImage(Configured(image).value) == image
            <==> image[0] != 0 || forall k :: 0 <= k < ROW_BYTES ==> image[k] == 0
  {
    var c := Configured(image).value;
    if image[0] == 0 {
      assert forall k :: 0 <= k < ROW_BYTES ==> CfgImage(c)[k] == 0;
    } else {
      forall k | 0 <= k < ROW_BYTES ensures CfgImage(c)[k] == image[k] {
        if 16 <= k < 32 { LowHigh(image, (k - 16) / 2); }
      }
    }
  }

  lemma LowHigh(image: Row, n: nat)
    requires n < TILES
    ensures Colsb(image, n) % 256 == image[16 + 2 * n] && Colsb(image, n) / 256 % 256 == image[17 + 2 * n]
  {
  }

  // ------------------------------------------------------------------------- tile data in memory

  /** How an instruction reaches memory: effective addresses of `space` bytes, as its address size says, from the
      segment base `base` on, in a linear address space of `linear` bytes. */
  datatype Window = Window(space: nat, base: nat, linear: nat)

  predicate Legal(w: Window) {
    && (w.space == 0x1_0000 || w.space == 0x1_0000_0000 || w.space == 0x1_0000_0000_0000_0000)
    && (w.linear == 0x1_0000_0000 || w.linear == 0x1_0000_0000_0000_0000) && w.space <= w.linear
  }

  /** The linear address is 64-byte aligned, which is what the instructions ask for. The effective one need not be. */
  predicate Aligned(w: Window, offset: nat) { Legal(w) && (w.base + offset) % ROW_BYTES == 0 }

  /** The linear address of `(offset + k * 64) & mask`. */
  function SlotAt(w: Window, offset: nat, k: nat): nat
    requires Legal(w)
  {
    (w.base + (offset + k * ROW_BYTES) % w.space) % w.linear
  }

  /** Where row `row` of tile `tile` is. */
  function RowAt(w: Window, offset: nat, tile: nat, row: nat): nat
    requires Legal(w)
  {
    SlotAt(w, offset, tile * ROWS + row)
  }

  lemma SlotAligned(w: Window, offset: nat, k: nat)
    requires Aligned(w, offset)
    ensures SlotAt(w, offset, k) % ROW_BYTES == 0 && SlotAt(w, offset, k) + ROW_BYTES <= w.linear
  {
    var x := (offset + k * ROW_BYTES) % w.space;
    Sizes(w);
    AddRows(w.base + offset, k);
    AlignedRemainder(w.base, offset + k * ROW_BYTES, w.space);
    AlignedRemainder(0, w.base + x, w.linear);
    BlocksApart(SlotAt(w, offset, k), w.linear);
  }

  lemma Sizes(w: Window)
    requires Legal(w)
    ensures w.space % 64 == 0 && w.linear % 64 == 0
  {
  }

  lemma AddRows(x: nat, k: nat)
    ensures (x + k * 64) % 64 == x % 64
  {
    RemainderUnique(x + k * 64, 64, x / 64 + k, x % 64);
  }

  /** A remainder by a multiple of 64 keeps the low six bits. */
  lemma AlignedRemainder(b: nat, x: nat, n: nat)
    requires n == 0x1_0000 || n == 0x1_0000_0000 || n == 0x1_0000_0000_0000_0000
    ensures (b + x % n) % 64 == (b + x) % 64
  {
    if n == 0x1_0000 {
      DropBlocks(b, x, 0x400, x / 0x1_0000, x % 0x1_0000);
    } else if n == 0x1_0000_0000 {
      DropBlocks(b, x, 0x400_0000, x / 0x1_0000_0000, x % 0x1_0000_0000);
    } else {
      DropBlocks(b, x, 0x400_0000_0000_0000, x / 0x1_0000_0000_0000_0000, x % 0x1_0000_0000_0000_0000);
    }
  }

  lemma DropBlocks(b: nat, x: nat, m: nat, q: nat, r: nat)
    requires x == q * (64 * m) + r
    ensures (b + r) % 64 == (b + x) % 64
  {
    Associate(q, 64, m);
    AddRows(b + r, q * m);
  }

  lemma SlotsApart(w: Window, offset: nat, k: nat, k': nat)
    requires Aligned(w, offset) && k < 1024 && k' < 1024 && k != k'
    ensures var a, b := SlotAt(w, offset, k), SlotAt(w, offset, k'); a + ROW_BYTES <= b || b + ROW_BYTES <= a
  {
    SlotAligned(w, offset, k);
    SlotAligned(w, offset, k');
    var x, y := (offset + k * ROW_BYTES) % w.space, (offset + k' * ROW_BYTES) % w.space;
    if x == y { RemainderInjective(offset, k * ROW_BYTES, k' * ROW_BYTES, w.space); }
    if (w.base + x) % w.linear == (w.base + y) % w.linear { RemainderInjective(w.base, x, y, w.linear); }
    BlocksApart(SlotAt(w, offset, k), SlotAt(w, offset, k'));
  }

  lemma RemainderInjective(b: nat, x: nat, y: nat, n: nat)
    requires n > 0 && x - y < n && y - x < n && (b + x) % n == (b + y) % n
    ensures x == y
  {
    Euclid(b + x, n);
    Euclid(b + y, n);
    var q := (b + x) / n - (b + y) / n;
    Distribute((b + x) / n, (b + y) / n, n);
    SmallMultipleIsZero(q, n, x - y);
  }

  lemma BlocksApart(a: nat, b: nat)
    requires a % 64 == 0 && b % 64 == 0 && a != b
    ensures a + 64 <= b || b + 64 <= a
  {
  }

  /** The rows lie inside the memory and apart from each other, also where the component wraps round. */
  lemma RowsApart(w: Window, offset: nat, t: nat, r: nat, t': nat, r': nat)
    requires Aligned(w, offset) && t < TILES && r < ROWS && t' < TILES && r' < ROWS
    ensures RowAt(w, offset, t, r) + ROW_BYTES <= w.linear
    ensures (t, r) != (t', r') ==>
              var a, b := RowAt(w, offset, t, r), RowAt(w, offset, t', r'); a + ROW_BYTES <= b || b + ROW_BYTES <= a
  {
    hide SlotAt;
    SlotAligned(w, offset, t * ROWS + r);
    if (t, r) != (t', r') { SlotsApart(w, offset, t * ROWS + r, t' * ROWS + r'); }
  }

  /** Where byte `o` of the component is. */
  function ComponentByte(w: Window, offset: nat, o: nat): nat
    requires Legal(w)
  {
    RowAt(w, offset, o / ROW_BYTES / ROWS, o / ROW_BYTES % ROWS) + o % ROW_BYTES
  }

  /** The 128 rows are the 8 KiB of the component, each byte exactly once; in one piece unless an address wraps. */
  lemma RowsCover(w: Window, offset: nat, o: nat)
    requires Aligned(w, offset) && o < TILES * ROWS * ROW_BYTES
    ensures var t, r := o / ROW_BYTES / ROWS, o / ROW_BYTES % ROWS;
            t < TILES && forall t': nat, r': nat :: t' < TILES && r' < ROWS ==>
              (InRow(w, offset, t', r', ComponentByte(w, offset, o)) <==> t' == t && r' == r)
    ensures forall o': nat :: o' < TILES * ROWS * ROW_BYTES && o' != o ==>
              ComponentByte(w, offset, o') != ComponentByte(w, offset, o)
    ensures offset + TILES * ROWS * ROW_BYTES <= w.space && w.base + w.space <= w.linear ==>
              ComponentByte(w, offset, o) == w.base + offset + o
  {
    hide RowAt;
    var t, r := o / ROW_BYTES / ROWS, o / ROW_BYTES % ROWS;
    forall t': nat, r': nat | t' < TILES && r' < ROWS
      ensures InRow(w, offset, t', r', ComponentByte(w, offset, o)) <==> t' == t && r' == r
    {
      RowsApart(w, offset, t, r, t', r');
    }
    forall o': nat | o' < TILES * ROWS * ROW_BYTES && o' != o
      ensures ComponentByte(w, offset, o') != ComponentByte(w, offset, o)
    {
      RowsApart(w, offset, t, r, o' / ROW_BYTES / ROWS, o' / ROW_BYTES % ROWS);
      SplitIndex(o, o');
    }
    if offset + TILES * ROWS * ROW_BYTES <= w.space && w.base + w.space <= w.linear { InOnePiece(w, offset, o); }
  }

  lemma SplitIndex(o: nat, o': nat)
    ensures o / 64 / 16 == o' / 64 / 16 && o / 64 % 16 == o' / 64 % 16 && o % 64 == o' % 64 ==> o == o'
  {
  }

  lemma InOnePiece(w: Window, offset: nat, o: nat)
    requires Aligned(w, offset) && o < TILES * ROWS * ROW_BYTES
    requires offset + TILES * ROWS * ROW_BYTES <= w.space && w.base + w.space <= w.linear
    ensures ComponentByte(w, offset, o) == w.base + offset + o
  {
    var k := o / ROW_BYTES;
    assert o / ROW_BYTES / ROWS * ROWS + o / ROW_BYTES % ROWS == k;
    assert k * ROW_BYTES + o % ROW_BYTES == o;
    RemainderUnique(offset + k * ROW_BYTES, w.space, 0, offset + k * ROW_BYTES);
    RemainderUnique(w.base + offset + k * ROW_BYTES, w.linear, 0, w.base + offset + k * ROW_BYTES);
  }

  class Amx {
    var config: Config
    const tile: array2<Row>
    var useTracker: nat

    predicate Valid()
      reads `config
    {
      tile.Length0 == TILES && tile.Length1 == ROWS && ValidConfig(config)
    }

    /** `xsave_tilecfg_state` */
    method SaveTileCfg() returns (image: array<Byte>)
      requires Valid()
      ensures fresh(image) && image[..] == CfgImage(config)
    {
      image := new Byte[ROW_BYTES](_ => 0);
      if config.palette != 0 {
        image[0], image[1] := config.palette, config.startRow;
        for n := 0 to TILES
          invariant image[0] == config.palette && image[1] == config.startRow
          invariant forall k :: 2 <= k < ROW_BYTES ==>
                      image[k] == if 16 <= k < 16 + 2 * n || 48 <= k < 48 + n then CfgByte(config, k) else 0
        {
          image[16 + 2 * n], image[17 + 2 * n] := config.colsb[n] % 256, config.colsb[n] / 256 % 256;
          image[48 + n] := config.rows[n];
        }
      }
      assert forall k :: 0 <= k < ROW_BYTES ==> image[k] == CfgByte(config, k);
    }

    /** `amx->clear()` */
    method Clear()
      requires tile.Length0 == TILES && tile.Length1 == ROWS
      modifies `config, `useTracker, tile
      ensures Valid() && config == NO_CONFIG && useTracker == 0
      ensures forall t, r :: 0 <= t < TILES && 0 <= r < ROWS ==> tile[t, r] == Zeros()
    {
      config, useTracker := NO_CONFIG, 0;
      forall t, r | 0 <= t < TILES && 0 <= r < ROWS { tile[t, r] := Zeros(); }
    }

    /** `configure_tiles`: an image that is refused changes nothing; one that is accepted also clears every tile. */
    method ConfigureTiles(image: Row) returns (ok: bool)
      requires Valid()
      modifies `config, `useTracker, tile
      ensures Valid() && ok == Configured(image).Some?
      ensures ok ==> config == Configured(image).value && useTracker == 0
                     && forall t, r :: 0 <= t < TILES && 0 <= r < ROWS ==> tile[t, r] == Zeros()
      ensures !ok ==> config == old(config) && useTracker == old(useTracker)
                      && forall t, r :: 0 <= t < TILES && 0 <= r < ROWS ==> tile[t, r] == old(tile[t, r])
    {
      if image[0] == 0 {
        Clear();
        return true;
      }
      if image[0] != 1 || !ReservedClear(image) { return false; }
      var rows, colsb: seq<nat> := [], [];
      for n := 0 to TILES
        modifies {}
        invariant |rows| == |colsb| == n
        invariant forall k: nat :: k < n ==> TileOk(image, k) && rows[k] == image[48 + k] && colsb[k] == Colsb(image, k)
      {
        if Colsb(image, n) > 64 { assert !TileOk(image, n); return false; }
        if image[48 + n] > 16 { assert !TileOk(image, n); return false; }
        if (image[48 + n] == 0) != (Colsb(image, n) == 0) { assert !TileOk(image, n); return false; }
        rows, colsb := rows + [image[48 + n]], colsb + [Colsb(image, n)];
      }
      Clear();
      config := Config(1, image[1], rows, colsb);
      assert config == Configured(image).value;
      ok := true;
    }

    /** `xrstor_tilecfg_state`: an image that is refused leaves nothing configured. */
    method RestoreTileCfg(image: Row)
      requires Valid()
      modifies `config, `useTracker, tile
      ensures Valid() && useTracker == 0
      ensures config == (match Configured(image) case Some(c) => c case None => NO_CONFIG)
      ensures forall t, r :: 0 <= t < TILES && 0 <= r < ROWS ==> tile[t, r] == Zeros()
    {
      var ok := ConfigureTiles(image);
      if !ok { Clear(); }
    }

    /** The first `k` rows, in order of tile and row, are in memory, and nothing else has changed. */
    ghost predicate Saved(start: seq<Byte>, m: seq<Byte>, w: Window, offset: nat, k: nat)
      requires Valid() && Aligned(w, offset) && |m| == |start| == w.linear
      reads `config, tile
    {
      && (forall t: nat, r: nat :: t < TILES && r < ROWS && t * ROWS + r < k ==>
            Holds(m, RowAt(w, offset, t, r), tile[t, r]))
      && (forall a :: 0 <= a < |m| && !InRows(w, offset, k, a) ==> m[a] == start[a])
    }

    lemma SavedOne(start: seq<Byte>, m: seq<Byte>, m': seq<Byte>, w: Window, offset: nat, t: nat, r: nat)
      requires Valid() && Aligned(w, offset) && |m| == |start| == |m'| == w.linear
      requires t < TILES && r < ROWS && Saved(start, m, w, offset, t * ROWS + r)
      requires RowAt(w, offset, t, r) + ROW_BYTES <= |m|
      requires m' == Splice(m, RowAt(w, offset, t, r), tile[t, r])
      ensures Saved(start, m', w, offset, t * ROWS + r + 1)
    {
      var k := t * ROWS + r;
      forall t': nat, r': nat | t' < TILES && r' < ROWS && t' * ROWS + r' < k + 1
        ensures Holds(m', RowAt(w, offset, t', r'), tile[t', r'])
      {
        hide RowAt, Holds, Splice;
        RowsApart(w, offset, t', r', t, r);
        if (t', r') != (t, r) { assert Holds(m, RowAt(w, offset, t', r'), tile[t', r']); }
        RowStored(m, RowAt(w, offset, t, r), tile[t, r], RowAt(w, offset, t', r'), tile[t', r']);
      }
      forall a | 0 <= a < |m| && !InRows(w, offset, k + 1, a) ensures m'[a] == start[a] {
        hide RowAt;
        OutsideRows(w, offset, t, r, a);
      }
    }

    /** `xsave_tiledata_state`: every row at its place, every other byte as it was. */
    method SaveTileData(mem: array<Byte>, w: Window, offset: nat)
      requires Valid() && Aligned(w, offset) && mem.Length == w.linear
      modifies mem
      ensures Saved(old(mem[..]), mem[..], w, offset, TILES * ROWS)
    {
      ghost var start := mem[..];
      assert Saved(start, mem[..], w, offset, 0);
      for t := 0 to TILES
        invariant Saved(start, mem[..], w, offset, t * ROWS)
      {
        for r := 0 to ROWS
          invariant Saved(start, mem[..], w, offset, t * ROWS + r)
        {
          hide Saved, RowAt;
          ghost var before := mem[..];
          RowsApart(w, offset, t, r, t, r);
          CopyBytes(mem, RowAt(w, offset, t, r), tile[t, r]);
          SavedOne(start, before, mem[..], w, offset, t, r);
        }
      }
    }

    /** `xrstor_tiledata_state`: every row from its place, and every tile marked used. */
    method RestoreTileData(mem: array<Byte>, w: Window, offset: nat)
      requires Valid() && Aligned(w, offset) && mem.Length == w.linear
      modifies `useTracker, tile
      ensures forall t: nat, r: nat :: t < TILES && r < ROWS ==> Holds(mem[..], RowAt(w, offset, t, r), tile[t, r])
      ensures forall k: nat :: Bit(useTracker, k) <==> Bit(old(useTracker), k) || k < TILES
    {
      hide RowAt, Bits.Bit, Bits.Or, Bits.Pow2;
      for t := 0 to TILES
        invariant forall t': nat, r: nat :: t' < t && r < ROWS ==> Holds(mem[..], RowAt(w, offset, t', r), tile[t', r])
        invariant forall k: nat :: Bit(useTracker, k) <==> Bit(old(useTracker), k) || k < t
      {
        for r := 0 to ROWS
          modifies tile
          invariant forall t': nat, r': nat :: t' < TILES && r' < ROWS && t' * ROWS + r' < t * ROWS + r ==>
                      Holds(mem[..], RowAt(w, offset, t', r'), tile[t', r'])
        {
          RowsApart(w, offset, t, r, t, r);
          var at := RowAt(w, offset, t, r);
          tile[t, r] := mem[at..at + ROW_BYTES];
        }
        forall k: nat ensures Bit(Or(useTracker, Pow2(t)), k) <==> Bit(useTracker, k) || k == t {
          OrBit(useTracker, Pow2(t), k);
          Pow2Bit(t, k);
        }
        useTracker := Or(useTracker, Pow2(t));
      }
    }

    /** `xsave_tiledata_state_xinuse` */
    predicate InUse()
      reads `useTracker
    {
      useTracker != 0
    }
  }

  function Zeros(): Row { seq<Byte>(ROW_BYTES, _ => 0) }

  predicate Holds(m: seq<Byte>, at: nat, row: Row) {
    at + ROW_BYTES <= |m| && m[at..at + ROW_BYTES] == row
  }

  /** A stored row is there, and a row apart from it stays. */
  lemma RowStored(m: seq<Byte>, at: nat, row: Row, at': nat, row': Row)
    requires at + ROW_BYTES <= |m|
    ensures at' == at && row' == row ==> Holds(Splice(m, at, row), at', row')
    ensures Holds(m, at', row') && (at' + ROW_BYTES <= at || at + ROW_BYTES <= at') ==>
              Holds(Splice(m, at, row), at', row')
  {
  }

  predicate InRow(w: Window, offset: nat, t: nat, r: nat, a: int)
    requires Legal(w)
  {
    RowAt(w, offset, t, r) <= a < RowAt(w, offset, t, r) + ROW_BYTES
  }

  ghost predicate InRows(w: Window, offset: nat, k: nat, a: int)
    requires Legal(w)
  {
    exists t: nat, r: nat :: t < TILES && r < ROWS && t * ROWS + r < k && InRow(w, offset, t, r, a)
  }

  lemma OutsideRows(w: Window, offset: nat, t: nat, r: nat, a: int)
    requires Legal(w) && t < TILES && r < ROWS && !InRows(w, offset, t * ROWS + r + 1, a)
    ensures !InRows(w, offset, t * ROWS + r, a) && !InRow(w, offset, t, r, a)
  {
    hide RowAt;
  }

  // ------------------------------------------------------------------------- both components

  function ConfigAt(w: Window, eaddr: nat): nat
    requires Legal(w)
  {
    (eaddr + XTILECFG_OFFSET) % w.space
  }

  function DataAt(w: Window, eaddr: nat): nat
    requires Legal(w)
  {
    (eaddr + XTILEDATA_OFFSET) % w.space
  }

  predicate InConfig(w: Window, eaddr: nat, a: int)
    requires Legal(w)
  {
    SlotAt(w, ConfigAt(w, eaddr), 0) <= a < SlotAt(w, ConfigAt(w, eaddr), 0) + ROW_BYTES
  }

  /** In the standard format the configuration is the slot before the first row. */
  lemma ConfigSlot(w: Window, eaddr: nat)
    requires Aligned(w, eaddr)
    ensures Aligned(w, ConfigAt(w, eaddr)) && Aligned(w, DataAt(w, eaddr))
    ensures SlotAt(w, ConfigAt(w, eaddr), 0) + ROW_BYTES <= w.linear
    ensures forall a :: InConfig(w, eaddr, a) ==> !InRows(w, DataAt(w, eaddr), TILES * ROWS, a)
  {
    ComponentsAligned(w, eaddr);
    hide ConfigAt, DataAt, SlotAt;
    SlotAligned(w, ConfigAt(w, eaddr), 0);
    forall t: nat, r: nat, a | t < TILES && r < ROWS && InConfig(w, eaddr, a)
      ensures !InRow(w, DataAt(w, eaddr), t, r, a)
    {
      SameSlots(w, eaddr, t * ROWS + r);
      SlotsApart(w, eaddr + XTILECFG_OFFSET, 0, t * ROWS + r + 1);
    }
  }

  lemma ComponentsAligned(w: Window, eaddr: nat)
    requires Aligned(w, eaddr)
    ensures Aligned(w, ConfigAt(w, eaddr)) && Aligned(w, DataAt(w, eaddr))
  {
    Sizes(w);
    AlignedRemainder(w.base, eaddr + XTILECFG_OFFSET, w.space);
    AlignedRemainder(w.base, eaddr + XTILEDATA_OFFSET, w.space);
    AddRows(w.base + eaddr, 43);
    AddRows(w.base + eaddr, 44);
  }

  lemma SameSlots(w: Window, eaddr: nat, k: nat)
    requires Aligned(w, eaddr)
    ensures Aligned(w, eaddr + XTILECFG_OFFSET)
    ensures SlotAt(w, ConfigAt(w, eaddr), 0) == SlotAt(w, eaddr + XTILECFG_OFFSET, 0)
    ensures SlotAt(w, DataAt(w, eaddr), k) == SlotAt(w, eaddr + XTILECFG_OFFSET, k + 1)
  {
    MaskTwice(eaddr + XTILECFG_OFFSET, 0, w.space);
    MaskTwice(eaddr + XTILEDATA_OFFSET, k * ROW_BYTES, w.space);
    assert eaddr + XTILEDATA_OFFSET + k * ROW_BYTES == eaddr + XTILECFG_OFFSET + (k + 1) * ROW_BYTES;
  }

  lemma MaskTwice(x: nat, y: nat, n: nat)
    requires n > 0
    ensures (x % n + y) % n == (x + y) % n
  {
    var z := x % n + y;
    Euclid(x, n);
    Euclid(z, n);
    assert (x / n + z / n) * n == x / n * n + z / n * n by { Distribute(x / n + z / n, z / n, n); }
    RemainderUnique(x + y, n, x / n + z / n, z % n);
  }

  /** XSAVE of both components at `eaddr` and XRSTOR of them into any other tile state: the configuration and every row
      of every tile come back, all tiles count as used, and no byte outside the two components has changed. */
  method SaveAndRestore(from: Amx, to: Amx, mem: array<Byte>, w: Window, eaddr: nat)
    requires from != to && from.tile != to.tile && from.Valid() && to.Valid()
    requires Aligned(w, eaddr) && mem.Length == w.linear
    modifies mem, to, to.tile
    ensures to.Valid() && to.config == from.config && to.InUse()
    ensures forall t: nat, r: nat :: t < TILES && r < ROWS ==> to.tile[t, r] == from.tile[t, r]
    ensures forall k: nat :: Bit(to.useTracker, k) <==> k < TILES
    ensures forall a :: 0 <= a < mem.Length && !InConfig(w, eaddr, a) && !InRows(w, DataAt(w, eaddr), TILES * ROWS, a)
              ==> mem[a] == old(mem[a])
  {
    hide SlotAt, Bits.Bit, CfgImage, ValidConfig, Configured, ConfigAt, DataAt;
    ConfigSlot(w, eaddr);
    var at, data := SlotAt(w, ConfigAt(w, eaddr), 0), DataAt(w, eaddr);
    var image := from.SaveTileCfg();
    CopyBytes(mem, at, image[..]);
    ghost var saved := mem[..];
    from.SaveTileData(mem, w, data);
    assert mem[at..at + ROW_BYTES] == CfgImage(from.config) by {
      forall a | at <= a < at + ROW_BYTES ensures mem[a] == saved[a] { assert InConfig(w, eaddr, a); }
      assert saved[at..at + ROW_BYTES] == image[..];
    }
    StoreThenLoad(from.config);
    to.RestoreTileCfg(mem[at..at + ROW_BYTES]);
    to.RestoreTileData(mem, w, data);
    forall k: nat ensures !Bit(0, k) { ZeroHasNoBits(k); }
    assert Bit(to.useTracker, 0);
    forall t: nat, r: nat | t < TILES && r < ROWS ensures to.tile[t, r] == from.tile[t, r] {
      assert Holds(mem[..], RowAt(w, data, t, r), from.tile[t, r]);
    }
  }
}
