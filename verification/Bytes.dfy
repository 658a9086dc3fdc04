/**
 Bytes and little-endian words, as every structure of the source lays them out.
 */
module Bytes {
  import opened Bits

  type Byte = b: int | 0 <= b < 256

  /** The `n` bytes of a word, least significant first (`to_le_bytes`). */
  function Le(value: nat, n: nat): (bytes: seq<Byte>)
    ensures |bytes| == n
  {
    if n == 0 then [] else [value % 256] + Le(value / 256, n - 1)
  }

  /** The word that a run of bytes spells, least significant first (`from_le_bytes`). */
  function Word(bytes: seq<Byte>): nat {
    if bytes == [] then 0 else bytes[0] + 256 * Word(bytes[1..])
  }

  lemma {:induction false} WordOfLe(value: nat, n: nat)
    requires value < Pow2(8 * n)
    ensures Word(Le(value, n)) == value
  {
    if n > 0 {
      Pow2Adds(8, 8 * (n - 1));
      assert Pow2(8) == 256;
      QuotientBound(value, Pow2(8 * (n - 1)));
      WordOfLe(value / 256, n - 1);
      assert Le(value, n)[1..] == Le(value / 256, n - 1);
    }
  }

  lemma QuotientBound(value: nat, p: nat)
    requires value < 256 * p
    ensures value / 256 < p
  {
  }

  lemma {:induction false} WordBound(bytes: seq<Byte>)
    ensures Word(bytes) < Pow2(8 * |bytes|)
  {
    if bytes != [] {
      WordBound(bytes[1..]);
      Pow2Adds(8, 8 * (|bytes| - 1));
      assert Pow2(8) == 256;
    }
  }

  lemma {:induction false} LeOfWord(bytes: seq<Byte>)
    ensures Le(Word(bytes), |bytes|) == bytes
  {
    if bytes != [] {
      LeOfWord(bytes[1..]);
      assert Word(bytes) / 256 == Word(bytes[1..]);
      assert bytes == [bytes[0]] + bytes[1..];
    }
  }

  /** `mem` with `data` stored at `at`. */
  function Splice(mem: seq<Byte>, at: nat, data: seq<Byte>): (r: seq<Byte>)
    requires at + |data| <= |mem|
    ensures |r| == |mem|
  {
    mem[..at] + data + mem[at + |data|..]
  }

  /** The same in place. */
  method CopyBytes(mem: array<Byte>, at: nat, data: seq<Byte>)
    requires at + |data| <= mem.Length
    modifies mem
    ensures mem[..] == Splice(old(mem[..]), at, data)
  {
    for i := 0 to |data|
      invariant forall j :: 0 <= j < i ==> mem[at + j] == data[j]
      invariant forall a :: 0 <= a < mem.Length && !(at <= a < at + i) ==> mem[a] == old(mem[a])
    {
      mem[at + i] := data[i];
    }
    assert mem[..] == Splice(old(mem[..]), at, data);
  }

  /** The 64-bit little-endian word at `at`. */
  function Word64At(mem: seq<Byte>, at: nat): (w: nat)
    requires at + 8 <= |mem|
    ensures w < 0x1_0000_0000_0000_0000
  {
    WordBound(mem[at..at + 8]);
    WordSizes();
    Word(mem[at..at + 8])
  }

  /** Storing a word and reading it back. */
  lemma SpliceReadsBack(mem: seq<Byte>, at: nat, value: nat)
    requires at + 8 <= |mem| && value < 0x1_0000_0000_0000_0000
    ensures Word64At(Splice(mem, at, Le(value, 8)), at) == value
  {
    assert Splice(mem, at, Le(value, 8))[at..at + 8] == Le(value, 8);
    WordSizes();
    WordOfLe(value, 8);
  }

  /** A store leaves every word it does not overlap. */
  lemma SpliceFrame(mem: seq<Byte>, at: nat, data: seq<Byte>, other: nat)
    requires at + |data| <= |mem| && other + 8 <= |mem|
    requires other + 8 <= at || at + |data| <= other
    ensures Word64At(Splice(mem, at, data), other) == Word64At(mem, other)
  {
    assert Splice(mem, at, data)[other..other + 8] == mem[other..other + 8];
  }

  /** A word depends on its own eight bytes only. */
  lemma WordLocal(m: seq<Byte>, m': seq<Byte>, lo: nat, hi: nat)
    requires hi <= |m| == |m'| && forall a :: lo <= a < hi ==> m[a] == m'[a]
    ensures forall a: nat :: lo <= a && a + 8 <= hi ==> Word64At(m', a) == Word64At(m, a)
  {
    forall a: nat | lo <= a && a + 8 <= hi ensures Word64At(m', a) == Word64At(m, a) {
      assert m[a..a + 8] == m'[a..a + 8];
    }
  }

  lemma ZeroWord(m: seq<Byte>, at: nat)
    requires at + 8 <= |m| && forall a :: at <= a < at + 8 ==> m[a] == 0
    ensures Word64At(m, at) == 0
  {
    WordOfLe(0, 8);
    assert m[at..at + 8] == Le(0, 8) by { ZeroBytes(8); }
  }

  lemma {:induction false} ZeroBytes(n: nat)
    ensures forall i :: 0 <= i < n ==> Le(0, n)[i] == 0
  {
    if n > 0 { ZeroBytes(n - 1); }
  }
}
