/**
 The host mapping behind guest memory: a fixed buffer in which accesses that reach past the end are refused whole,
 a read giving zeros and a write being dropped.
 */
module GuestRam {
  import opened Bytes

  const ADDRESS_LIMIT: nat := 0x1_0000_0000_0000_0000

  /** Whether an access fails: the end address does not fit 64 bits, or lies outside the mapping. */
  predicate Outside(size: nat, addr: nat, n: nat) { addr + n >= ADDRESS_LIMIT || addr + n > size }

  function Zeros(n: nat): (z: seq<Byte>)
    ensures |z| == n
  {
    seq(n, _ => 0)
  }

  function Peek(m: seq<Byte>, addr: nat, n: nat): (r: seq<Byte>)
    ensures |r| == n
  {
    if Outside(|m|, addr, n) then Zeros(n) else m[addr..addr + n]
  }

  function Poke(m: seq<Byte>, addr: nat, data: seq<Byte>): (r: seq<Byte>)
    ensures |r| == |m|
  {
    if Outside(|m|, addr, |data|) then m else Splice(m, addr, data)
  }

  function Peek64(m: seq<Byte>, addr: nat): nat { Word(Peek(m, addr, 8)) }

  class Ram {
    const bytes: array<Byte>

    constructor (size: nat)
      requires size < ADDRESS_LIMIT
      ensures fresh(bytes) && bytes.Length == size && forall a :: 0 <= a < size ==> bytes[a] == 0
    {
      bytes := new Byte[size](_ => 0);
    }

    method Read(addr: nat, buf: array<Byte>)
      requires buf != bytes && addr < ADDRESS_LIMIT
      modifies buf
      ensures buf[..] == Peek(bytes[..], addr, buf.Length)
      ensures forall i :: 0 <= i < buf.Length ==>
                buf[i] == if addr + buf.Length <= bytes.Length && addr + buf.Length < ADDRESS_LIMIT then bytes[addr + i]
                          else 0
    {
      var n := buf.Length;
      if addr + n >= ADDRESS_LIMIT || addr + n > bytes.Length {
        for i := 0 to n
          invariant forall k :: 0 <= k < i ==> buf[k] == 0
        {
          buf[i] := 0;
        }
      } else {
        for i := 0 to n
          invariant forall k :: 0 <= k < i ==> buf[k] == bytes[addr + k]
        {
          buf[i] := bytes[addr + i];
        }
      }
    }

    method Write(addr: nat, data: seq<Byte>)
      requires addr < ADDRESS_LIMIT
      modifies bytes
      ensures bytes[..] == Poke(old(bytes[..]), addr, data)
      ensures forall a :: 0 <= a < bytes.Length ==>
                bytes[a] == if addr <= a < addr + |data| <= bytes.Length && addr + |data| < ADDRESS_LIMIT
                            then data[a - addr] else old(bytes[a])
    {
      if addr + |data| >= ADDRESS_LIMIT || addr + |data| > bytes.Length { return; }
      CopyBytes(bytes, addr, data);
    }

    method WriteU64(addr: nat, value: nat)
      requires addr < ADDRESS_LIMIT && value < ADDRESS_LIMIT
      modifies bytes
      ensures bytes[..] == Poke(old(bytes[..]), addr, Le(value, 8))
    {
      Write(addr, Le(value, 8));
    }
  }

  /** A write inside the mapping is read back, and leaves every other word and byte. */
  lemma PokeWord(m: seq<Byte>, addr: nat, value: nat)
    requires addr + 8 <= |m| < ADDRESS_LIMIT && value < ADDRESS_LIMIT
    ensures var m' := Poke(m, addr, Le(value, 8));
            && Word64At(m', addr) == value
            && (forall a: nat :: a + 8 <= |m| && (a + 8 <= addr || addr + 8 <= a) ==> Word64At(m', a) == Word64At(m, a))
            && (forall a :: 0 <= a < |m| && !(addr <= a < addr + 8) ==> m'[a] == m[a])
  {
    SpliceReadsBack(m, addr, value);
    forall a: nat | a + 8 <= |m| && (a + 8 <= addr || addr + 8 <= a)
      ensures Word64At(Poke(m, addr, Le(value, 8)), a) == Word64At(m, a)
    {
      SpliceFrame(m, addr, Le(value, 8), a);
    }
  }
}
