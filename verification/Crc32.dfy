/** The end-to-end CRC-32 of include/rcp/e2e.hpp: polynomial 0xF4ACFB13, input and
    output reflected, initial value and final XOR 0xFFFFFFFF. A register is its 32
    bits, least significant first. */
module Crc32 {
  import opened Bytes
  import opened ShiftRegister

  type Register = r: seq<bool> | |r| == 32 witness seq(32, _ => false)

  const POLY_NORMAL: u32 := 0xF4AC_FB13

  /** The working polynomial: POLY_NORMAL bit-reflected. */
  function Poly(): Register {
    Reversed(BitsOf(POLY_NORMAL, 32))
  }

  lemma PolyKeepsIncomingEnd()
    ensures IsPoly(Poly())
  {
    hide BitsOf;
    FirstBit(POLY_NORMAL, 32);
  }

  lemma FirstBit(v: nat, n: nat)
    requires n > 0
    ensures BitsOf(v, n)[0] == (v % 2 == 1)
  {
  }

  lemma {:induction false} BitsOfSplit(v: nat, n: nat)
    ensures BitsOf(v, n + 1) == BitsOf(v, n) + [v / Pow2(n) % 2 == 1]
    decreases n
  {
    if n > 0 {
      BitsOfSplit(v / 2, n - 1);
      assert v / 2 / Pow2(n - 1) == v / Pow2(n) by { DivTwice(v, Pow2(n - 1)); }
    }
  }

  lemma DivTwice(v: nat, p: nat)
    requires p > 0
    ensures v / 2 / p == v / (2 * p)
  {
    var q, r := v / (2 * p), v % (2 * p);
    assert v == 2 * (q * p) + r;
    assert v / 2 == q * p + r / 2 && 0 <= r / 2 < p;
    assert (q * p + r / 2) / p == q by { DivUnique(q * p + r / 2, p, q, r / 2); }
  }

  lemma DivUnique(x: nat, p: nat, q: nat, r: nat)
    requires p > 0 && r < p && x == q * p + r
    ensures x / p == q
  {
    var y, t := x / p, x % p;
    assert y * p + t == q * p + r;
    assert (y - q) * p == r - t;
    MultipleBound(y - q, p);
  }

  lemma MultipleBound(d: int, p: nat)
    ensures d > 0 ==> d * p >= p
    ensures d < 0 ==> d * p <= -(p as int)
  {
  }

  /** The source's bit-reversal loop. */
  method Reflect32(v: u32) returns (r: u32)
    ensures BitsOf(r, 32) == Reversed(BitsOf(v, 32))
  {
    r := 0;
    var w: nat := v;
    for i := 0 to 32
      invariant r < Pow2(i) && w == v / Pow2(i)
      invariant BitsOf(r, i) == Reversed(BitsOf(v, i))
    {
      BitsOfSplit(v, i);
      DivByDouble(v, Pow2(i));
      Pow2Grows(i + 1);
      var s: nat := 2 * r + w % 2;
      assert s / 2 == r && s % 2 == w % 2;
      assert BitsOf(s, i + 1) == [w % 2 == 1] + BitsOf(r, i);
      assert BitsOf(s, i + 1) == Reversed(BitsOf(v, i + 1));
      r := s;
      w := w / 2;
    }
  }

  lemma DivByDouble(v: nat, p: nat)
    requires p > 0
    ensures v / p / 2 == v / (2 * p)
  {
    var q, r := v / p, v % p;
    assert v == q * p + r;
    var h, b := q / 2, q % 2;
    assert q * p == (2 * p) * h + b * p by { assert q == 2 * h + b; }
    assert v == h * (2 * p) + (b * p + r);
    assert b * p + r < 2 * p by { assert b == 0 || b == 1; }
    DivUnique(v, 2 * p, h, b * p + r);
  }

  lemma {:induction false} Pow2Grows(n: nat)
    requires n <= 32
    ensures Pow2(n) <= TWO32
    decreases 32 - n
  {
    if n == 32 {
      Pow2Values();
    } else {
      Pow2Grows(n + 1);
    }
  }

  function Ones(): Register { seq(32, _ => true) }

  function Crc(data: seq<byte>): u32 {
    FinalXor(Fold(Poly(), LsbFirst, Ones(), data))
  }

  function FinalXor(c: Register): u32 {
    ValueBound(Xor(c, Ones()));
    Pow2Values();
    ValueOf(Xor(c, Ones()))
  }

  method ComputeCrc(data: seq<byte>) returns (r: u32)
    ensures r == Crc(data)
  {
    hide Poly, FinalXor;
    var crc := Remainder(Poly(), LsbFirst, Ones(), data);
    r := FinalXor(crc);
  }

  /** Two different, equally long strings that agree outside some four consecutive
      octets never have the same CRC. */
  lemma DetectsFourOctets(a: seq<byte>, b: seq<byte>, lo: nat)
    requires DifferOnlyWithin(a, b, lo, 4) && a != b
    ensures Crc(a) != Crc(b)
  {
    hide Poly, FinalXor, Fold;
    PolyKeepsIncomingEnd();
    OctetBurstDetected(Poly(), LsbFirst, Ones(), a, b, lo, 4);
    FinalXorInjective(Fold(Poly(), LsbFirst, Ones(), a), Fold(Poly(), LsbFirst, Ones(), b));
  }

  lemma FinalXorInjective(c: Register, d: Register)
    requires c != d
    ensures FinalXor(c) != FinalXor(d)
  {
    var x, y := Xor(c, Ones()), Xor(d, Ones());
    BitsOfValue(x);
    BitsOfValue(y);
    if x == y {
      forall i | 0 <= i < 32
        ensures c[i] == d[i]
      {
        assert x[i] == y[i];
      }
    }
  }
}
