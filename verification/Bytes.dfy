/** Octets, fixed-width unsigned integers, the big-endian field helpers every header
    codec shares (include/rcp/avtp.hpp, namespace detail), and octets as bits. */
module Bytes {
  const TWO16: nat := 0x1_0000
  const TWO32: nat := 0x1_0000_0000
  const TWO64: nat := 0x1_0000_0000_0000_0000

  type byte = x: nat | x < 0x100
  type u16 = x: nat | x < 0x1_0000
  type u32 = x: nat | x < 0x1_0000_0000
  type u64 = x: nat | x < 0x1_0000_0000_0000_0000

  // ---- Big-endian fields.

  function PutBE(v: nat, n: nat): (b: seq<byte>)
    ensures |b| == n
    decreases n, v
  {
    if n == 0 then [] else PutBE(v / 0x100, n - 1) + [v % 0x100]
  }

  function GetBE(b: seq<byte>): nat
    decreases |b|
  {
    if b == [] then 0 else GetBE(b[..|b| - 1]) * 0x100 + b[|b| - 1]
  }

  function Pow256(n: nat): (p: nat)
    ensures p > 0
  {
    if n == 0 then 1 else 0x100 * Pow256(n - 1)
  }

  lemma Pow256Values()
    ensures Pow256(2) == TWO16 && Pow256(4) == TWO32 && Pow256(6) == 0x1_0000_0000_0000 && Pow256(8) == TWO64
  {
    assert Pow256(3) == 0x100_0000;
    assert Pow256(5) == 0x100_0000_0000;
    assert Pow256(7) == 0x100_0000_0000_0000;
  }

  lemma {:induction false} PutGetBE(v: nat, n: nat)
    requires v < Pow256(n)
    ensures GetBE(PutBE(v, n)) == v
    decreases n
  {
    if n > 0 {
      PutGetBE(v / 0x100, n - 1);
      assert PutBE(v, n)[..n - 1] == PutBE(v / 0x100, n - 1);
    }
  }

  lemma {:induction false} GetPutBE(b: seq<byte>)
    ensures GetBE(b) < Pow256(|b|) && PutBE(GetBE(b), |b|) == b
    decreases |b|
  {
    if b != [] {
      GetPutBE(b[..|b| - 1]);
      assert b == b[..|b| - 1] + [b[|b| - 1]];
    }
  }

  function PutU16(v: u16): (b: seq<byte>) ensures |b| == 2 { PutBE(v, 2) }
  function PutU32(v: u32): (b: seq<byte>) ensures |b| == 4 { PutBE(v, 4) }
  function PutU64(v: u64): (b: seq<byte>) ensures |b| == 8 { PutBE(v, 8) }

  function GetU16(b: seq<byte>): u16
    requires |b| == 2
  {
    GetPutBE(b); Pow256Values();
    GetBE(b)
  }

  function GetU32(b: seq<byte>): u32
    requires |b| == 4
  {
    GetPutBE(b); Pow256Values();
    GetBE(b)
  }

  function GetU64(b: seq<byte>): u64
    requires |b| == 8
  {
    GetPutBE(b); Pow256Values();
    GetBE(b)
  }

  lemma PutGetU16(v: u16)
    ensures GetU16(PutU16(v)) == v
  {
    Pow256Values();
    PutGetBE(v, 2);
  }

  lemma PutGetU32(v: u32)
    ensures GetU32(PutU32(v)) == v
  {
    Pow256Values();
    PutGetBE(v, 4);
  }

  lemma PutGetU64(v: u64)
    ensures GetU64(PutU64(v)) == v
  {
    Pow256Values();
    PutGetBE(v, 8);
  }

  lemma GetPutU16(b: seq<byte>)
    requires |b| == 2
    ensures PutU16(GetU16(b)) == b
  {
    GetPutBE(b);
  }

  lemma GetPutU32(b: seq<byte>)
    requires |b| == 4
    ensures PutU32(GetU32(b)) == b
  {
    GetPutBE(b);
  }

  lemma GetPutU64(b: seq<byte>)
    requires |b| == 8
    ensures PutU64(GetU64(b)) == b
  {
    GetPutBE(b);
  }

  lemma TwoOctets(b: seq<byte>)
    requires |b| == 2
    ensures GetU16(b) == b[0] as int * 0x100 + b[1] as int
  {
    assert GetBE(b) == GetBE(b[..1]) * 0x100 + b[1] && GetBE(b[..1]) == GetBE(b[..1][..0]) * 0x100 + b[0];
  }

  lemma FourOctets(b: seq<byte>)
    requires |b| == 4
    ensures GetU32(b)
        == b[0] as int * 0x100_0000 + b[1] as int * 0x1_0000 + b[2] as int * 0x100 + b[3] as int
  {
    assert GetBE(b) == GetBE(b[..3]) * 0x100 + b[3] && GetBE(b[..3]) == GetBE(b[..3][..2]) * 0x100 + b[2];
    assert b[..3][..2] == b[..2] && GetBE(b[..2]) == GetBE(b[..2][..1]) * 0x100 + b[1];
    assert b[..2][..1] == b[..1] && GetBE(b[..1]) == GetBE(b[..1][..0]) * 0x100 + b[0];
  }

  // ---- Numbers as bits, least significant first.

  function Bit(b: bool): nat { if b then 1 else 0 }

  /** The low `n` bits of `v`. */
  function BitsOf(v: nat, n: nat): (b: seq<bool>)
    ensures |b| == n
    decreases n, v
  {
    if n == 0 then [] else [v % 2 == 1] + BitsOf(v / 2, n - 1)
  }

  function ValueOf(b: seq<bool>): nat
    decreases |b|
  {
    if b == [] then 0 else Bit(b[0]) + 2 * ValueOf(b[1..])
  }

  function Pow2(n: nat): (p: nat)
    ensures p > 0
  {
    if n == 0 then 1 else 2 * Pow2(n - 1)
  }

  lemma {:induction false} ValueBound(b: seq<bool>)
    ensures ValueOf(b) < Pow2(|b|)
    decreases |b|
  {
    if b != [] {
      ValueBound(b[1..]);
    }
  }

  lemma {:induction false} ValueOfBits(v: nat, n: nat)
    requires v < Pow2(n)
    ensures ValueOf(BitsOf(v, n)) == v
    decreases n
  {
    if n > 0 {
      ValueOfBits(v / 2, n - 1);
      assert BitsOf(v, n)[1..] == BitsOf(v / 2, n - 1);
    }
  }

  lemma {:induction false} BitsOfValue(b: seq<bool>)
    ensures BitsOf(ValueOf(b), |b|) == b
    decreases |b|
  {
    if b != [] {
      BitsOfValue(b[1..]);
      assert b == [b[0]] + b[1..];
    }
  }

  lemma Pow2Values()
    ensures Pow2(8) == 0x100 && Pow2(32) == TWO32
  {
    assert Pow2(4) == 16 && Pow2(12) == 0x1000 && Pow2(20) == 0x10_0000 && Pow2(28) == 0x1000_0000;
  }

  /** The octet whose bits, least significant first, are `b`. */
  function ByteOf(b: seq<bool>): byte
    requires |b| == 8
  {
    ValueBound(b);
    Pow2Values();
    ValueOf(b)
  }

  lemma ByteOfBits(b: byte)
    ensures ByteOf(BitsOf(b, 8)) == b
  {
    Pow2Values();
    ValueOfBits(b, 8);
  }

  lemma BitsOfByte(b: seq<bool>)
    requires |b| == 8
    ensures BitsOf(ByteOf(b), 8) == b
  {
    BitsOfValue(b);
  }
}
