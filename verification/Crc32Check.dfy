/** The published check value of the CRC (tests/test_e2e.cpp): the CRC of the nine digits 1 to 9.
    Registers are followed as 32-bit machine words, which is also how the source holds them. */
module Crc32Check {
  import opened Bytes
  import opened ShiftRegister
  import Crc32

  type word = bv32

  function Low(x: word): bool { x & 1 == 1 }
  function Half(x: word): word { x >> 1 }
  function By8(x: word): word { x >> 8 }
  function Mix(a: word, b: word): word { a ^ b }

  function Bits(x: word, n: nat): (b: seq<bool>)
    ensures |b| == n
    decreases n, x
  {
    if n == 0 then [] else [Low(x)] + Bits(Half(x), n - 1)
  }

  lemma MixHalves(a: word, b: word)
    ensures Half(Mix(a, b)) == Mix(Half(a), Half(b)) && Low(Mix(a, b)) == (Low(a) != Low(b))
  {
  }

  lemma XorCons(x: bool, a: seq<bool>, y: bool, b: seq<bool>)
    requires |a| == |b|
    ensures Xor([x] + a, [y] + b) == [x != y] + Xor(a, b)
  {
  }

  lemma {:induction false} MixBits(a: word, b: word, n: nat)
    ensures Xor(Bits(a, n), Bits(b, n)) == Bits(Mix(a, b), n)
    decreases n
  {
    hide Low, Half, Mix;
    if n > 0 {
      hide Xor;
      MixHalves(a, b);
      MixBits(Half(a), Half(b), n - 1);
      XorCons(Low(a), Bits(Half(a), n - 1), Low(b), Bits(Half(b), n - 1));
    }
  }

  function Drop(x: word, n: nat): word
    decreases n, x
  {
    if n == 0 then x else Drop(Half(x), n - 1)
  }

  lemma {:induction false} SplitBits(x: word, m: nat, n: nat)
    ensures Bits(x, m + n) == Bits(x, m) + Bits(Drop(x, m), n)
    decreases m
  {
    hide Low, Half, Mix;
    if m > 0 {
      SplitBits(Half(x), m - 1, n);
    }
  }

  lemma {:induction false} DropTwice(x: word, m: nat, n: nat)
    ensures Drop(x, m + n) == Drop(Drop(x, m), n)
    decreases m
  {
    hide Low, Half, Mix;
    if m > 0 {
      DropTwice(Half(x), m - 1, n);
    }
  }

  lemma DropEight(x: word)
    ensures Drop(x, 8) == By8(x)
  {
    hide Half, By8;
    assert Drop(x, 8) == Drop(Half(x), 7);
    assert Drop(Half(x), 7) == Drop(Half(Half(x)), 6);
    var y := Half(Half(x));
    assert Drop(y, 6) == Drop(Half(y), 5);
    assert Drop(Half(y), 5) == Drop(Half(Half(y)), 4);
    var z := Half(Half(y));
    assert Drop(z, 4) == Drop(Half(z), 3);
    assert Drop(Half(z), 3) == Drop(Half(Half(z)), 2);
    var w := Half(Half(z));
    assert Drop(w, 2) == Drop(Half(w), 1);
    assert Drop(Half(w), 1) == Drop(Half(Half(w)), 0);
    HalfEight(x);
  }

  lemma HalfEight(x: word)
    ensures Half(Half(Half(Half(Half(Half(Half(Half(x)))))))) == By8(x)
  {
  }

  function Next(poly: word, c: word): word { if Low(c) then Mix(Half(c), poly) else Half(c) }

  function Shifts(poly: word, c: word, n: nat): word
    decreases n, c
  {
    if n == 0 then c else Shifts(poly, Next(poly, c), n - 1)
  }

  lemma TopClear(c: word)
    ensures Bits(Half(c), 32) == Bits(c, 32)[1..] + [false]
  {
    hide Low, Half, Mix, Bits;
    var y := Half(c);
    SplitBits(y, 31, 1);
    DropTop(c);
    ZeroBits(1);
    UnrollBits(c, 31);
  }

  lemma UnrollBits(c: word, n: nat)
    ensures Bits(c, n + 1)[1..] == Bits(Half(c), n)
  {
    hide Low, Half;
  }

  lemma DropTop(c: word)
    ensures Drop(Half(c), 31) == 0
  {
    hide Half, By8;
    assert Drop(c, 32) == Drop(Half(c), 31);
    DropTwice(c, 8, 24);
    DropEight(c);
    DropTwice(By8(c), 8, 16);
    DropEight(By8(c));
    DropTwice(By8(By8(c)), 8, 8);
    DropEight(By8(By8(c)));
    DropEight(By8(By8(By8(c))));
    GoneAfter32(c);
  }

  lemma GoneAfter32(c: word)
    ensures By8(By8(By8(By8(c)))) == 0
  {
  }

  lemma NextIsShift(poly: word, c: word)
    ensures Shift(Bits(poly, 32), Bits(c, 32)) == Bits(Next(poly, c), 32)
  {
    hide Low, Half, Mix;
    TopClear(c);
    MixBits(Half(c), poly, 32);
    assert Bits(c, 32)[0] == Low(c);
  }

  lemma {:induction false} ShiftsAreShiftBy(poly: word, c: word, n: nat)
    ensures ShiftBy(Bits(poly, 32), Bits(c, 32), n) == Bits(Shifts(poly, c, n), 32)
    decreases n
  {
    hide Low, Half, Mix, Next, Shift, Bits;
    if n > 0 {
      NextIsShift(poly, c);
      ShiftsAreShiftBy(poly, Next(poly, c), n - 1);
    }
  }

  lemma {:induction false} ZeroBits(n: nat)
    ensures Bits(0, n) == seq(n, _ => false)
    decreases n
  {
    if n > 0 {
      ZeroBits(n - 1);
    }
  }

  /** `w` is the octet `b`. */
  predicate IsOctet(w: word, b: byte) { Bits(w, 8) == BitsOf(b, 8) && By8(w) == 0 }

  lemma LoadIsMix(c: word, w: word, b: byte)
    requires IsOctet(w, b)
    ensures Load(Bits(c, 32), OctetBits(LsbFirst, b)) == Bits(Mix(c, w), 32)
  {
    hide Low, Half, Mix, By8, Load, Xor, Bits;
    MixBits(c, w, 32);
    SplitBits(w, 8, 24);
    DropEight(w);
    ZeroBits(24);
    LoadIsXor(Bits(c, 32), BitsOf(b, 8), 24);
  }

  lemma LoadIsXor(c: seq<bool>, bits: seq<bool>, n: nat)
    requires |c| == |bits| + n
    ensures Load(c, bits) == Xor(c, bits + seq(n, _ => false))
  {
  }

  lemma UpdateIsShifts(poly: word, c: word, w: word, b: byte)
    requires IsOctet(w, b)
    ensures Update(Bits(poly, 32), LsbFirst, Bits(c, 32), b) == Bits(Shifts(poly, Mix(c, w), 8), 32)
  {
    hide Low, Half, Mix, By8, Next, Load, Bits, Shifts;
    LoadIsMix(c, w, b);
    ShiftsAreShiftBy(poly, Mix(c, w), 8);
  }

  const POLY: word := 0xC8DF_352F

  lemma EightShifts(c: word)
    ensures var d := Next(POLY, Next(POLY, Next(POLY, Next(POLY, c))));
            Shifts(POLY, c, 8) == Next(POLY, Next(POLY, Next(POLY, Next(POLY, d))))
  {
    hide Next;
    var c1 := Next(POLY, c);
    var c2 := Next(POLY, c1);
    var c3 := Next(POLY, c2);
    var c4 := Next(POLY, c3);
    var c5 := Next(POLY, c4);
    var c6 := Next(POLY, c5);
    var c7 := Next(POLY, c6);
    assert Shifts(POLY, c, 8) == Shifts(POLY, c1, 7);
    assert Shifts(POLY, c1, 7) == Shifts(POLY, c2, 6);
    assert Shifts(POLY, c2, 6) == Shifts(POLY, c3, 5);
    assert Shifts(POLY, c3, 5) == Shifts(POLY, c4, 4);
    assert Shifts(POLY, c4, 4) == Shifts(POLY, c5, 3);
    assert Shifts(POLY, c5, 3) == Shifts(POLY, c6, 2);
    assert Shifts(POLY, c6, 2) == Shifts(POLY, c7, 1);
  }

  /** The low eight bits of a number, given its halves. */
  lemma EightBits(v: nat, v1: nat, v2: nat, v3: nat, v4: nat, v5: nat, v6: nat, v7: nat)
    requires v / 2 == v1 && v1 / 2 == v2 && v2 / 2 == v3 && v3 / 2 == v4 && v4 / 2 == v5 && v5 / 2 == v6 && v6 / 2 == v7
    ensures BitsOf(v, 8)
        == [v % 2 == 1, v1 % 2 == 1, v2 % 2 == 1, v3 % 2 == 1, v4 % 2 == 1, v5 % 2 == 1, v6 % 2 == 1, v7 % 2 == 1]
  {
    hide BitsOf;
    FourBits(v, v1, v2, v3, 4);
    FourBits(v4, v5, v6, v7, 0);
    NoBits(v7 / 2);
  }

  lemma FourBits(v: nat, v1: nat, v2: nat, v3: nat, n: nat)
    requires v / 2 == v1 && v1 / 2 == v2 && v2 / 2 == v3
    ensures BitsOf(v, n + 4) == [v % 2 == 1, v1 % 2 == 1, v2 % 2 == 1, v3 % 2 == 1] + BitsOf(v3 / 2, n)
  {
    hide BitsOf;
    OneBit(v, n + 3);
    OneBit(v1, n + 2);
    OneBit(v2, n + 1);
    OneBit(v3, n);
  }

  lemma OneBit(v: nat, n: nat)
    ensures BitsOf(v, n + 1) == [v % 2 == 1] + BitsOf(v / 2, n)
  {
  }

  lemma NoBits(v: nat)
    ensures BitsOf(v, 0) == []
  {
  }

  // ---- The nine digits, each with the register before and after it.

  lemma Digit1()
    ensures IsOctet(0x31, 0x31) && Shifts(POLY, Mix(0xFFFFFFFF, 0x31), 8) == 0xD21850A1
  {
    hide Bits, IsOctet;
    Octet1();
    EightShifts(Mix(0xFFFFFFFF, 0x31));
  }

  lemma Octet1()
    ensures IsOctet(0x31, 0x31)
  {
    hide Bits, BitsOf;
    Octet1Word();
    EightBits(0x31, 0x18, 0xc, 6, 3, 1, 0, 0);
  }

  lemma Octet1Word()
    ensures Bits(0x31, 8) == [true, false, false, false, true, true, false, false] && By8(0x31) == 0
  {
  }

  lemma Digit2()
    ensures IsOctet(0x32, 0x32) && Shifts(POLY, Mix(0xD21850A1, 0x32), 8) == 0xB2AE168E
  {
    hide Bits, IsOctet;
    Octet2();
    EightShifts(Mix(0xD21850A1, 0x32));
  }

  lemma Octet2()
    ensures IsOctet(0x32, 0x32)
  {
    hide Bits, BitsOf;
    Octet2Word();
    EightBits(0x32, 0x19, 0xc, 6, 3, 1, 0, 0);
  }

  lemma Octet2Word()
    ensures Bits(0x32, 8) == [false, true, false, false, true, true, false, false] && By8(0x32) == 0
  {
  }

  lemma Digit3()
    ensures IsOctet(0x33, 0x33) && Shifts(POLY, Mix(0xB2AE168E, 0x33), 8) == 0x521EC2DD
  {
    hide Bits, IsOctet;
    Octet3();
    EightShifts(Mix(0xB2AE168E, 0x33));
  }

  lemma Octet3()
    ensures IsOctet(0x33, 0x33)
  {
    hide Bits, BitsOf;
    Octet3Word();
    EightBits(0x33, 0x19, 0xc, 6, 3, 1, 0, 0);
  }

  lemma Octet3Word()
    ensures Bits(0x33, 8) == [true, true, false, false, true, true, false, false] && By8(0x33) == 0
  {
  }

  lemma Digit4()
    ensures IsOctet(0x34, 0x34) && Shifts(POLY, Mix(0x521EC2DD, 0x34), 8) == 0x1776C98B
  {
    hide Bits, IsOctet;
    Octet4();
    EightShifts(Mix(0x521EC2DD, 0x34));
  }

  lemma Octet4()
    ensures IsOctet(0x34, 0x34)
  {
    hide Bits, BitsOf;
    Octet4Word();
    EightBits(0x34, 0x1a, 0xd, 6, 3, 1, 0, 0);
  }

  lemma Octet4Word()
    ensures Bits(0x34, 8) == [false, false, true, false, true, true, false, false] && By8(0x34) == 0
  {
  }

  lemma Digit5()
    ensures IsOctet(0x35, 0x35) && Shifts(POLY, Mix(0x1776C98B, 0x35), 8) == 0x03340A1D
  {
    hide Bits, IsOctet;
    Octet5();
    EightShifts(Mix(0x1776C98B, 0x35));
  }

  lemma Octet5()
    ensures IsOctet(0x35, 0x35)
  {
    hide Bits, BitsOf;
    Octet5Word();
    EightBits(0x35, 0x1a, 0xd, 6, 3, 1, 0, 0);
  }

  lemma Octet5Word()
    ensures Bits(0x35, 8) == [true, false, true, false, true, true, false, false] && By8(0x35) == 0
  {
  }

  lemma Digit6()
    ensures IsOctet(0x36, 0x36) && Shifts(POLY, Mix(0x03340A1D, 0x36), 8) == 0x1242663E
  {
    hide Bits, IsOctet;
    Octet6();
    EightShifts(Mix(0x03340A1D, 0x36));
  }

  lemma Octet6()
    ensures IsOctet(0x36, 0x36)
  {
    hide Bits, BitsOf;
    Octet6Word();
    EightBits(0x36, 0x1b, 0xd, 6, 3, 1, 0, 0);
  }

  lemma Octet6Word()
    ensures Bits(0x36, 8) == [false, true, true, false, true, true, false, false] && By8(0x36) == 0
  {
  }

  lemma Digit7()
    ensures IsOctet(0x37, 0x37) && Shifts(POLY, Mix(0x1242663E, 0x37), 8) == 0x25015864
  {
    hide Bits, IsOctet;
    Octet7();
    EightShifts(Mix(0x1242663E, 0x37));
  }

  lemma Octet7()
    ensures IsOctet(0x37, 0x37)
  {
    hide Bits, BitsOf;
    Octet7Word();
    EightBits(0x37, 0x1b, 0xd, 6, 3, 1, 0, 0);
  }

  lemma Octet7Word()
    ensures Bits(0x37, 8) == [true, true, true, false, true, true, false, false] && By8(0x37) == 0
  {
  }

  lemma Digit8()
    ensures IsOctet(0x38, 0x38) && Shifts(POLY, Mix(0x25015864, 0x38), 8) == 0x503BAF2D
  {
    hide Bits, IsOctet;
    Octet8();
    EightShifts(Mix(0x25015864, 0x38));
  }

  lemma Octet8()
    ensures IsOctet(0x38, 0x38)
  {
    hide Bits, BitsOf;
    Octet8Word();
    EightBits(0x38, 0x1c, 0xe, 7, 3, 1, 0, 0);
  }

  lemma Octet8Word()
    ensures Bits(0x38, 8) == [false, false, false, true, true, true, false, false] && By8(0x38) == 0
  {
  }

  lemma Digit9()
    ensures IsOctet(0x39, 0x39) && Shifts(POLY, Mix(0x503BAF2D, 0x39), 8) == 0xE9682F95
  {
    hide Bits, IsOctet;
    Octet9();
    EightShifts(Mix(0x503BAF2D, 0x39));
  }

  lemma Octet9()
    ensures IsOctet(0x39, 0x39)
  {
    hide Bits, BitsOf;
    Octet9Word();
    EightBits(0x39, 0x1c, 0xe, 7, 3, 1, 0, 0);
  }

  lemma Octet9Word()
    ensures Bits(0x39, 8) == [true, false, false, true, true, true, false, false] && By8(0x39) == 0
  {
  }

  // ---- Words written as numbers.

  lemma {:induction false} BitsOfFrom(v: nat, m: nat, n: nat, q: nat)
    requires q == v / Pow2(m)
    ensures BitsOf(v, m + n) == BitsOf(v, m) + BitsOf(q, n)
    decreases m
  {
    if m > 0 {
      Crc32.DivTwice(v, Pow2(m - 1));
      BitsOfFrom(v / 2, m - 1, n, q);
    }
  }

  lemma NumberOctets(v: nat)
    ensures BitsOf(v, 32)
        == BitsOf(v, 8) + (BitsOf(v / 0x100, 8) + (BitsOf(v / 0x1_0000, 8) + BitsOf(v / 0x100_0000, 8)))
  {
    hide BitsOf;
    Pow2Values();
    assert v / 0x100 / 0x100 == v / 0x1_0000 && v / 0x1_0000 / 0x100 == v / 0x100_0000;
    BitsOfFrom(v, 8, 24, v / 0x100);
    BitsOfFrom(v / 0x100, 8, 16, v / 0x1_0000);
    BitsOfFrom(v / 0x1_0000, 8, 8, v / 0x100_0000);
  }

  lemma WordOctets(x: word)
    ensures Bits(x, 32) == Bits(x, 8) + (Bits(By8(x), 8) + (Bits(By8(By8(x)), 8) + Bits(By8(By8(By8(x))), 8)))
  {
    hide Bits, By8, Half;
    SplitBits(x, 8, 24);
    DropEight(x);
    SplitBits(By8(x), 8, 16);
    DropEight(By8(x));
    SplitBits(By8(By8(x)), 8, 8);
    DropEight(By8(By8(x)));
  }

  lemma ReversedConcat(a: seq<bool>, b: seq<bool>)
    ensures Reversed(a + b) == Reversed(b) + Reversed(a)
  {
  }

  lemma ReversedFour(a: seq<bool>, b: seq<bool>, c: seq<bool>, d: seq<bool>)
    ensures Reversed(a + (b + (c + d))) == Reversed(d) + (Reversed(c) + (Reversed(b) + Reversed(a)))
  {
    hide Reversed;
    ReversedConcat(a, b + (c + d));
    ReversedConcat(b, c + d);
    ReversedConcat(c, d);
    assert Reversed(d) + Reversed(c) + Reversed(b) + Reversed(a)
        == Reversed(d) + (Reversed(c) + (Reversed(b) + Reversed(a)));
  }

  lemma PolyNumber0()
    ensures BitsOf(0xf4acfb13, 8) == [true, true, false, false, true, false, false, false]
  {
    hide BitsOf;
    EightBits(0xf4acfb13, 0x7a567d89, 0x3d2b3ec4, 0x1e959f62, 0xf4acfb1, 0x7a567d8, 0x3d2b3ec, 0x1e959f6);
  }

  lemma PolyNumber1()
    ensures BitsOf(0xf4acfb, 8) == [true, true, false, true, true, true, true, true]
  {
    hide BitsOf;
    EightBits(0xf4acfb, 0x7a567d, 0x3d2b3e, 0x1e959f, 0xf4acf, 0x7a567, 0x3d2b3, 0x1e959);
  }

  lemma PolyNumber2()
    ensures BitsOf(0xf4ac, 8) == [false, false, true, true, false, true, false, true]
  {
    hide BitsOf;
    EightBits(0xf4ac, 0x7a56, 0x3d2b, 0x1e95, 0xf4a, 0x7a5, 0x3d2, 0x1e9);
  }

  lemma PolyNumber3()
    ensures BitsOf(0xf4, 8) == [false, false, true, false, true, true, true, true]
  {
    hide BitsOf;
    EightBits(0xf4, 0x7a, 0x3d, 0x1e, 0xf, 7, 3, 1);
  }

  lemma PolyShifts()
    ensures By8(0xc8df352f) == 0xc8df35
    ensures By8(0xc8df35) == 0xc8df
    ensures By8(0xc8df) == 0xc8
  {
  }

  lemma PolyWord0()
    ensures Bits(0xc8df352f, 8) == [true, true, true, true, false, true, false, false]
  {
  }

  lemma PolyWord1()
    ensures Bits(0xc8df35, 8) == [true, false, true, false, true, true, false, false]
  {
  }

  lemma PolyWord2()
    ensures Bits(0xc8df, 8) == [true, true, true, true, true, false, true, true]
  {
  }

  lemma PolyWord3()
    ensures Bits(0xc8, 8) == [false, false, false, true, false, false, true, true]
  {
  }

  lemma PolyOctets()
    ensures Reversed(BitsOf(0xF4AC_FB13, 8)) == Bits(By8(By8(By8(POLY))), 8)
    ensures Reversed(BitsOf(0xF4_ACFB, 8)) == Bits(By8(By8(POLY)), 8)
    ensures Reversed(BitsOf(0xF4AC, 8)) == Bits(By8(POLY), 8)
    ensures Reversed(BitsOf(0xF4, 8)) == Bits(POLY, 8)
  {
    hide Bits, BitsOf, By8;
    PolyShifts();
    PolyNumber0();
    PolyNumber1();
    PolyNumber2();
    PolyNumber3();
    PolyWord0();
    PolyWord1();
    PolyWord2();
    PolyWord3();
  }

  lemma PolyIsWord()
    ensures Crc32.Poly() == Bits(POLY, 32)
  {
    hide Bits, BitsOf, By8, Reversed;
    NumberOctets(0xF4AC_FB13);
    WordOctets(POLY);
    ReversedFour(BitsOf(0xF4AC_FB13, 8), BitsOf(0xF4_ACFB, 8), BitsOf(0xF4AC, 8), BitsOf(0xF4, 8));
    PolyOctets();
  }

  lemma ResultNumber0()
    ensures BitsOf(0x1697d06a, 8) == [false, true, false, true, false, true, true, false]
  {
    hide BitsOf;
    EightBits(0x1697d06a, 0xb4be835, 0x5a5f41a, 0x2d2fa0d, 0x1697d06, 0xb4be83, 0x5a5f41, 0x2d2fa0);
  }

  lemma ResultNumber1()
    ensures BitsOf(0x1697d0, 8) == [false, false, false, false, true, false, true, true]
  {
    hide BitsOf;
    EightBits(0x1697d0, 0xb4be8, 0x5a5f4, 0x2d2fa, 0x1697d, 0xb4be, 0x5a5f, 0x2d2f);
  }

  lemma ResultNumber2()
    ensures BitsOf(0x1697, 8) == [true, true, true, false, true, false, false, true]
  {
    hide BitsOf;
    EightBits(0x1697, 0xb4b, 0x5a5, 0x2d2, 0x169, 0xb4, 0x5a, 0x2d);
  }

  lemma ResultNumber3()
    ensures BitsOf(0x16, 8) == [false, true, true, false, true, false, false, false]
  {
    hide BitsOf;
    EightBits(0x16, 0xb, 5, 2, 1, 0, 0, 0);
  }

  lemma ResultShifts()
    ensures By8(0x1697d06a) == 0x1697d0
    ensures By8(0x1697d0) == 0x1697
    ensures By8(0x1697) == 0x16
  {
  }

  lemma ResultWord0()
    ensures Bits(0x1697d06a, 8) == [false, true, false, true, false, true, true, false]
  {
  }

  lemma ResultWord1()
    ensures Bits(0x1697d0, 8) == [false, false, false, false, true, false, true, true]
  {
  }

  lemma ResultWord2()
    ensures Bits(0x1697, 8) == [true, true, true, false, true, false, false, true]
  {
  }

  lemma ResultWord3()
    ensures Bits(0x16, 8) == [false, true, true, false, true, false, false, false]
  {
  }

  lemma ResultOctets()
    ensures BitsOf(0x1697_D06A, 8) == Bits(0x1697_D06A, 8)
    ensures BitsOf(0x16_97D0, 8) == Bits(By8(0x1697_D06A), 8)
    ensures BitsOf(0x1697, 8) == Bits(By8(By8(0x1697_D06A)), 8)
    ensures BitsOf(0x16, 8) == Bits(By8(By8(By8(0x1697_D06A))), 8)
  {
    hide Bits, BitsOf, By8;
    ResultShifts();
    ResultNumber0();
    ResultNumber1();
    ResultNumber2();
    ResultNumber3();
    ResultWord0();
    ResultWord1();
    ResultWord2();
    ResultWord3();
  }

  lemma ResultIsWord()
    ensures ValueOf(Bits(0x1697_D06A, 32)) == 0x1697_D06A
  {
    hide Bits, BitsOf, By8, ValueOf;
    NumberOctets(0x1697_D06A);
    WordOctets(0x1697_D06A);
    ResultOctets();
    Pow2Values();
    ValueOfBits(0x1697_D06A, 32);
  }

  lemma OnesOctets()
    ensures Bits(0xFFFF_FFFF, 8) == Bits(By8(0xFFFF_FFFF), 8) == Bits(By8(By8(0xFFFF_FFFF)), 8)
         == Bits(By8(By8(By8(0xFFFF_FFFF))), 8) == seq(8, _ => true)
  {
  }

  lemma OnesIsWord()
    ensures Crc32.Ones() == Bits(0xFFFF_FFFF, 32)
  {
    hide Bits, By8;
    WordOctets(0xFFFF_FFFF);
    OnesOctets();
  }

  lemma FoldCons(poly: seq<bool>, c: seq<bool>, b: byte, rest: seq<byte>)
    requires |poly| == |c| >= 8
    ensures Fold(poly, LsbFirst, c, [b] + rest) == Fold(poly, LsbFirst, Update(poly, LsbFirst, c, b), rest)
  {
    assert ([b] + rest)[1..] == rest;
  }

  lemma Step(c: word, w: word, b: byte, rest: seq<byte>)
    requires IsOctet(w, b)
    ensures Fold(Bits(POLY, 32), LsbFirst, Bits(c, 32), [b] + rest)
         == Fold(Bits(POLY, 32), LsbFirst, Bits(Shifts(POLY, Mix(c, w), 8), 32), rest)
  {
    hide Bits, Shifts, Mix, Fold, Update, IsOctet;
    UpdateIsShifts(POLY, c, w, b);
    FoldCons(Bits(POLY, 32), Bits(c, 32), b, rest);
  }

  const DIGITS: seq<byte> := [0x31, 0x32, 0x33, 0x34, 0x35, 0x36, 0x37, 0x38, 0x39]

  lemma FoldDigits()
    ensures Fold(Bits(POLY, 32), LsbFirst, Bits(0xFFFF_FFFF, 32), DIGITS) == Bits(0xE968_2F95, 32)
  {
    hide Bits, Shifts, Mix, Fold, IsOctet;
    Digit1();
    Step(0xFFFFFFFF, 0x31, 0x31, [0x32, 0x33, 0x34, 0x35, 0x36, 0x37, 0x38, 0x39]);
    assert [0x31] + [0x32, 0x33, 0x34, 0x35, 0x36, 0x37, 0x38, 0x39] == DIGITS;
    Digit2();
    Step(0xD21850A1, 0x32, 0x32, [0x33, 0x34, 0x35, 0x36, 0x37, 0x38, 0x39]);
    assert [0x32] + [0x33, 0x34, 0x35, 0x36, 0x37, 0x38, 0x39] == [0x32, 0x33, 0x34, 0x35, 0x36, 0x37, 0x38, 0x39];
    Digit3();
    Step(0xB2AE168E, 0x33, 0x33, [0x34, 0x35, 0x36, 0x37, 0x38, 0x39]);
    assert [0x33] + [0x34, 0x35, 0x36, 0x37, 0x38, 0x39] == [0x33, 0x34, 0x35, 0x36, 0x37, 0x38, 0x39];
    Digit4();
    Step(0x521EC2DD, 0x34, 0x34, [0x35, 0x36, 0x37, 0x38, 0x39]);
    assert [0x34] + [0x35, 0x36, 0x37, 0x38, 0x39] == [0x34, 0x35, 0x36, 0x37, 0x38, 0x39];
    Digit5();
    Step(0x1776C98B, 0x35, 0x35, [0x36, 0x37, 0x38, 0x39]);
    assert [0x35] + [0x36, 0x37, 0x38, 0x39] == [0x35, 0x36, 0x37, 0x38, 0x39];
    Digit6();
    Step(0x03340A1D, 0x36, 0x36, [0x37, 0x38, 0x39]);
    assert [0x36] + [0x37, 0x38, 0x39] == [0x36, 0x37, 0x38, 0x39];
    Digit7();
    Step(0x1242663E, 0x37, 0x37, [0x38, 0x39]);
    assert [0x37] + [0x38, 0x39] == [0x37, 0x38, 0x39];
    Digit8();
    Step(0x25015864, 0x38, 0x38, [0x39]);
    assert [0x38] + [0x39] == [0x38, 0x39];
    Digit9();
    Step(0x503BAF2D, 0x39, 0x39, []);
    assert [0x39] + [] == [0x39];
    FoldNothing(Bits(0xE968_2F95, 32));
  }

  lemma FoldNothing(c: seq<bool>)
    requires |c| == 32
    ensures Fold(Bits(POLY, 32), LsbFirst, c, []) == c
  {
  }

  lemma FinalMix()
    ensures Mix(0xE968_2F95, 0xFFFF_FFFF) == 0x1697_D06A
  {
  }

  /** The CRC of "123456789" is 0x1697D06A. */
  lemma CheckValue()
    ensures Crc32.Crc(DIGITS) == 0x1697_D06A
  {
    hide Bits, Mix, Fold, Crc32.Poly, Crc32.Ones;
    PolyIsWord();
    OnesIsWord();
    FoldDigits();
    MixBits(0xE968_2F95, 0xFFFF_FFFF, 32);
    FinalMix();
    ResultIsWord();
  }
}
