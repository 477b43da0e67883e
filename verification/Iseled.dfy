/** The ISELED 4-to-5-bit symbol framing with its CRC-8 (include/rcp/iseled.hpp). */
module Iseled {
  import opened Bytes
  import opened Wrappers
  import opened ShiftRegister

  // ---- Symbols: four data bits below their even parity.

  function Popcount(n: nat): nat {
    if n == 0 then 0 else n % 2 + Popcount(n / 2)
  }

  method Popcount4(n: byte) returns (c: nat)
    ensures c == Popcount(n % 16)
  {
    c := 0;
    var v: nat := n % 16;
    while v != 0
      invariant c + Popcount(v) == Popcount(n % 16)
    {
      c := c + v % 2;
      v := v / 2;
    }
  }

  function SymbolEncode(nibble: byte): (s: byte)
    ensures s < 32
  {
    Popcount(nibble % 16) % 2 * 16 + nibble % 16
  }

  function SymbolDecode(symbol: byte): Option<byte> {
    var n := symbol % 16;
    if symbol / 16 % 2 == Popcount(n) % 2 then Some(n) else None
  }

  /** A symbol is accepted exactly when its low five bits are the encoding of some nibble,
      and then of the nibble it decodes to. */
  lemma SymbolBijection(symbol: byte, n: byte)
    requires n < 16
    ensures SymbolDecode(symbol) == Some(n) <==> symbol % 32 == SymbolEncode(n)
  {
    hide Popcount;
    assert symbol % 32 == symbol / 16 % 2 * 16 + symbol % 16;
  }

  /** The count is of ones: of a number with these four binary digits it is their sum. */
  lemma CountsOnes(a: nat, b: nat, c: nat, d: nat)
    requires a < 2 && b < 2 && c < 2 && d < 2
    ensures Popcount(8 * d + 4 * c + 2 * b + a) == a + b + c + d
  {
    hide Popcount;
    CountUnrolls(d);
    OneMore(c, d);
    OneMore(b, 2 * d + c);
    OneMore(a, 4 * d + 2 * c + b);
  }

  lemma OneMore(bit: nat, n: nat)
    requires bit < 2
    ensures Popcount(2 * n + bit) == bit + Popcount(n)
  {
  }

  /** The ones among the five bits of a symbol. */
  function OnesInFive(symbol: byte): nat {
    symbol % 2 + symbol / 2 % 2 + symbol / 4 % 2 + symbol / 8 % 2 + symbol / 16 % 2
  }

  lemma HalfOf(x: nat)
    ensures x % 16 / 2 == x / 2 % 8 && x % 16 % 2 == x % 2
    ensures x % 8 / 2 == x / 2 % 4 && x % 8 % 2 == x % 2
    ensures x % 4 / 2 == x / 2 % 2 && x % 4 % 2 == x % 2
  {
    HalfOfRest(x, x / 16, x % 16, 8);
    HalfOfRest(x, x / 8, x % 8, 4);
    HalfOfRest(x, x / 4, x % 4, 2);
  }

  lemma HalfOfRest(x: nat, q: nat, r: nat, m: nat)
    requires m in {2, 4, 8} && r < 2 * m && x == (2 * m) * q + r
    ensures x / 2 % m == r / 2 && x % 2 == r % 2
  {
    match m {
      case 2 =>
        HalfOfSum(x, 2 * q, r);
        RestOfSum(q, r / 2, 2);
      case 4 =>
        HalfOfSum(x, 4 * q, r);
        RestOfSum(q, r / 2, 4);
      case 8 =>
        HalfOfSum(x, 8 * q, r);
        RestOfSum(q, r / 2, 8);
    }
  }

  lemma RestOfSum(q: nat, t: nat, m: nat)
    requires m in {2, 4, 8} && t < m
    ensures (m * q + t) % m == t
  {
  }

  lemma HalfOfSum(x: nat, n: nat, r: nat)
    requires x == 2 * n + r
    ensures x / 2 == n + r / 2 && x % 2 == r % 2
  {
  }

  lemma QuarterOf(x: nat)
    ensures x / 2 / 2 == x / 4 && x / 4 / 2 == x / 8 && x / 8 / 2 == x / 16
  {
  }

  lemma CountUnrolls(n: nat)
    ensures Popcount(n) == n % 2 + Popcount(n / 2)
    ensures n < 2 ==> Popcount(n) == n
  {
    assert n < 2 ==> n / 2 == 0;
  }

  lemma FourDigits(symbol: byte)
    ensures Popcount(symbol % 16) == symbol % 2 + symbol / 2 % 2 + symbol / 4 % 2 + symbol / 8 % 2
  {
    hide Popcount;
    QuarterOf(symbol);
    HalfOf(symbol);
    HalfOf(symbol / 2);
    HalfOf(symbol / 4);
    CountUnrolls(symbol % 16);
    CountUnrolls(symbol / 2 % 8);
    CountUnrolls(symbol / 4 % 4);
    CountUnrolls(symbol / 8 % 2);
  }

  /** A symbol is accepted exactly when the number of ones in its five bits is even. */
  lemma AcceptedIffEven(symbol: byte)
    ensures SymbolDecode(symbol).Some? <==> OnesInFive(symbol) % 2 == 0
  {
    hide Popcount;
    FourDigits(symbol);
    SameParity(Popcount(symbol % 16), symbol / 16 % 2);
  }

  lemma SameParity(n: nat, bit: nat)
    requires bit < 2
    ensures (n + bit) % 2 == 0 <==> bit == n % 2
  {
  }

  /** And every symbol sent has an even number of them, the nibble in its low four. */
  lemma SentAreEven(nibble: byte)
    ensures OnesInFive(SymbolEncode(nibble)) % 2 == 0 && SymbolEncode(nibble) % 16 == nibble % 16
  {
    hide SymbolEncode, SymbolDecode, OnesInFive;
    SymbolOfNibble(nibble);
    AcceptedIffEven(SymbolEncode(nibble));
  }

  lemma SymbolOfNibble(nibble: byte)
    ensures SymbolDecode(SymbolEncode(nibble)).Some? && SymbolEncode(nibble) % 16 == nibble % 16
  {
    hide Popcount;
    assert SymbolEncode(nibble) / 16 == Popcount(nibble % 16) % 2;
    assert SymbolEncode(nibble) % 16 == nibble % 16;
  }

  // ---- CRC-8, polynomial 0x07, most significant bit first.

  type Register8 = r: seq<bool> | |r| == 8 witness seq(8, _ => false)

  function Poly8(): Register8 { Reversed(BitsOf(0x07, 8)) }

  function Zeros8(): Register8 { seq(8, _ => false) }

  function Crc8(data: seq<byte>): byte {
    ByteOf(Reversed(Fold(Poly8(), MsbFirst, Zeros8(), data)))
  }

  method ComputeCrc8(data: seq<byte>) returns (r: byte)
    ensures r == Crc8(data)
  {
    hide Poly8, ByteOf;
    var c := Remainder(Poly8(), MsbFirst, Zeros8(), data);
    r := ByteOf(Reversed(c));
  }

  lemma Poly8KeepsIncomingEnd()
    ensures IsPoly(Poly8())
  {
    assert BitsOf(0x07, 8)[0];
  }

  /** A lone set bit at the outgoing end leaves the polynomial behind. */
  lemma {:induction false} LoneBit(poly: seq<bool>, c: seq<bool>, n: nat)
    requires |poly| == |c| > n && c[n]
    requires forall i :: 0 <= i < |c| && i != n ==> !c[i]
    ensures ShiftBy(poly, c, n + 1) == poly
    decreases n
  {
    if n == 0 {
      assert ShiftBy(poly, c, 1) == ShiftBy(poly, Shift(poly, c), 0);
    } else {
      LoneBit(poly, Shift(poly, c), n - 1);
    }
  }

  /** Which CRC-8 it is: nothing gives 0, and the octet 1 gives the polynomial, 0x07. */
  lemma Crc8Values()
    ensures Crc8([]) == 0 && Crc8([1]) == 0x07
  {
    hide Poly8;
    EmptyGivesZero();
    var c := Load(Zeros8(), OctetBits(MsbFirst, 1));
    OneLast();
    LoneBit(Poly8(), c, 7);
    assert [1][1..] == [];
    assert Fold(Poly8(), MsbFirst, Zeros8(), [1]) == Update(Poly8(), MsbFirst, Zeros8(), 1);
    ReversedTwice(BitsOf(0x07, 8));
    SevenBack();
  }

  lemma SevenBack()
    ensures ByteOf(Reversed(Poly8())) == 0x07
  {
    hide BitsOf;
    ReversedTwice(BitsOf(0x07, 8));
    ByteOfBits(0x07);
  }

  lemma OneLast()
    ensures forall i :: 0 <= i < 8 ==> OctetBits(MsbFirst, 1)[i] == (i == 7)
  {
    assert BitsOf(1, 8) == [true] + BitsOf(0, 7);
    ZeroBits(7);
  }

  lemma {:induction false} ZeroBits(n: nat)
    ensures BitsOf(0, n) == seq(n, _ => false) && ValueOf(seq(n, _ => false)) == 0
  {
    if n > 0 {
      ZeroBits(n - 1);
      assert seq(n, _ => false)[1..] == seq(n - 1, _ => false);
    }
  }

  lemma EmptyGivesZero()
    ensures Crc8([]) == 0
  {
    ZeroBits(8);
    assert Reversed(Zeros8()) == seq(8, _ => false);
  }

  /** Two strings that differ in exactly one octet have different CRC-8s. */
  lemma Crc8DetectsOneOctet(a: seq<byte>, b: seq<byte>, at: nat)
    requires DifferOnlyWithin(a, b, at, 1) && a != b
    ensures Crc8(a) != Crc8(b)
  {
    hide Poly8, Fold, BitsOf, ByteOf;
    Poly8KeepsIncomingEnd();
    OctetBurstDetected(Poly8(), MsbFirst, Zeros8(), a, b, at, 1);
    var x, y := Fold(Poly8(), MsbFirst, Zeros8(), a), Fold(Poly8(), MsbFirst, Zeros8(), b);
    BitsOfByte(Reversed(x));
    BitsOfByte(Reversed(y));
    ReversedTwice(x);
    ReversedTwice(y);
  }

  // ---- Frames: two symbols an octet, high nibble first.

  datatype IseledError = OddSymbolCount | ShortFrame | BadSymbol | CrcMismatch
  datatype FrameResult = FrameOk(data: seq<byte>) | FrameErr(error: IseledError)

  function Content(data: seq<byte>, appendCrc: bool): seq<byte> {
    if appendCrc then data + [Crc8(data)] else data
  }

  function Symbols(content: seq<byte>): (s: seq<byte>)
    ensures |s| == 2 * |content|
    decreases |content|
  {
    if content == [] then []
    else [SymbolEncode(content[0] / 16), SymbolEncode(content[0] % 16)] + Symbols(content[1..])
  }

  function EncodedFrame(data: seq<byte>, appendCrc: bool): seq<byte> {
    Symbols(Content(data, appendCrc))
  }

  method EncodeBitframe(data: seq<byte>, appendCrc: bool) returns (out: seq<byte>)
    ensures out == EncodedFrame(data, appendCrc)
  {
    hide SymbolEncode, Crc8;
    var contentLen := |data| + if appendCrc then 1 else 0;
    var trailer: byte := 0;
    if appendCrc {
      trailer := ComputeCrc8(data);
    }
    ghost var content := Content(data, appendCrc);
    out := [];
    for i := 0 to contentLen
      invariant out + Symbols(content[i..]) == Symbols(content)
    {
      var octet := if i < |data| then data[i] else trailer;
      assert octet == content[i];
      assert content[i..][0] == content[i] && content[i..][1..] == content[i + 1..];
      var hi, lo := SymbolEncode(octet / 16), SymbolEncode(octet % 16);
      RejoinSymbols(out, [hi, lo], Symbols(content[i + 1..]));
      out := out + [hi, lo];
    }
    assert content[contentLen..] == [];
    assert out + [] == out;
  }

  lemma RejoinSymbols(a: seq<byte>, b: seq<byte>, c: seq<byte>)
    ensures a + (b + c) == a + b + c
  {
  }

  /** The octets a string of symbols stands for, if every parity is right. */
  function Octets(symbols: seq<byte>): Option<seq<byte>>
    requires |symbols| % 2 == 0
    decreases |symbols|
  {
    if symbols == [] then Some([]) else
    var hi, lo, rest := SymbolDecode(symbols[0]), SymbolDecode(symbols[1]), Octets(symbols[2..]);
    if hi.None? || lo.None? || rest.None? then None else Some([Pair(hi.value, lo.value)] + rest.value)
  }

  function Pair(hi: byte, lo: byte): byte { hi % 16 * 16 + lo % 16 }

  function DecodedFrame(symbols: seq<byte>, expectCrc: bool): FrameResult {
    if |symbols| % 2 == 1 then FrameErr(OddSymbolCount)
    else if expectCrc && |symbols| == 0 then FrameErr(ShortFrame)
    else
      var octets := Octets(symbols);
      if octets.None? then FrameErr(BadSymbol)
      else if !expectCrc then FrameOk(octets.value)
      else
        OctetsLen(symbols);
        var n := |octets.value| - 1;
        if octets.value[n] == Crc8(octets.value[..n]) then FrameOk(octets.value[..n]) else FrameErr(CrcMismatch)
  }

  lemma {:induction false} OctetsLen(symbols: seq<byte>)
    requires |symbols| % 2 == 0 && Octets(symbols).Some?
    ensures |Octets(symbols).value| * 2 == |symbols|
    decreases |symbols|
  {
    hide SymbolDecode;
    if symbols != [] {
      OctetsLen(symbols[2..]);
    }
  }

  /** One more octet: the two symbols at `at`, and what lies behind them. */
  lemma OctetsStep(symbols: seq<byte>, at: nat)
    requires at + 2 <= |symbols| && (|symbols| - at) % 2 == 0 && (|symbols| - at - 2) % 2 == 0
    ensures var hi, lo, rest := SymbolDecode(symbols[at]), SymbolDecode(symbols[at + 1]), Octets(symbols[at + 2..]);
            Octets(symbols[at..])
                == if hi.None? || lo.None? || rest.None? then None else Some([Pair(hi.value, lo.value)] + rest.value)
  {
    hide SymbolDecode, Pair;
    var tail := symbols[at..];
    assert tail[0] == symbols[at] && tail[1] == symbols[at + 1] && tail[2..] == symbols[at + 2..];
  }

  lemma EvenRest(n: nat, i: nat)
    requires i <= n
    ensures (2 * n - 2 * i) % 2 == 0
  {
    assert 2 * n - 2 * i == 2 * (n - i);
  }

  /** `bytes` followed by what `rest` stands for, if anything. */
  function Prefixed(bytes: seq<byte>, rest: Option<seq<byte>>): Option<seq<byte>> {
    if rest.None? then None else Some(bytes + rest.value)
  }

  lemma PrefixedStep(bytes: seq<byte>, octet: byte, rest: Option<seq<byte>>)
    ensures Prefixed(bytes, Prefixed([octet], rest)) == Prefixed(bytes + [octet], rest)
    ensures Prefixed([], rest) == rest && Prefixed(bytes, Some([])) == Some(bytes)
  {
    if rest.Some? {
      RejoinSymbols(bytes, [octet], rest.value);
      assert [] + rest.value == rest.value;
    }
    assert bytes + [] == bytes;
  }

  method DecodeBitframe(symbols: seq<byte>, expectCrc: bool) returns (r: FrameResult)
    ensures r == DecodedFrame(symbols, expectCrc)
  {
    hide SymbolDecode, Crc8, Octets, Pair, Prefixed;
    if |symbols| % 2 == 1 {
      return FrameErr(OddSymbolCount);
    }
    var byteCount := |symbols| / 2;
    if expectCrc && byteCount == 0 {
      return FrameErr(ShortFrame);
    }
    var bytes: seq<byte> := [];
    PrefixedStep([], 0, Octets(symbols));
    assert symbols[2 * 0..] == symbols;
    for i := 0 to byteCount
      invariant |bytes| == i && |symbols| == 2 * byteCount && (|symbols| - 2 * i) % 2 == 0
      invariant Octets(symbols) == Prefixed(bytes, Octets(symbols[2 * i..]))
    {
      EvenRest(byteCount, i + 1);
      OctetsStep(symbols, 2 * i);
      var hi, lo := SymbolDecode(symbols[2 * i]), SymbolDecode(symbols[2 * i + 1]);
      ghost var rest := Octets(symbols[2 * i + 2..]);
      if hi.None? || lo.None? {
        NothingPrefixed(bytes);
        return FrameErr(BadSymbol);
      }
      OctetPrefixed(Pair(hi.value, lo.value), rest);
      PrefixedStep(bytes, Pair(hi.value, lo.value), rest);
      bytes := bytes + [Pair(hi.value, lo.value)];
    }
    NoSymbols();
    PrefixedStep(bytes, 0, None);
    assert symbols[2 * byteCount..] == [];
    if !expectCrc {
      return FrameOk(bytes);
    }
    var dataLen := byteCount - 1;
    var want := ComputeCrc8(bytes[..dataLen]);
    r := if bytes[dataLen] == want then FrameOk(bytes[..dataLen]) else FrameErr(CrcMismatch);
  }

  lemma NothingPrefixed(bytes: seq<byte>)
    ensures Prefixed(bytes, None) == None
  {
  }

  lemma OctetPrefixed(octet: byte, rest: Option<seq<byte>>)
    ensures Prefixed([octet], rest) == if rest.None? then None else Some([octet] + rest.value)
  {
  }

  lemma NoSymbols()
    ensures Octets([]) == Some([])
  {
  }

  // ---- The framing is a bijection.

  /** Only the low five bits of a symbol octet are looked at. */
  function LowFive(symbols: seq<byte>): (r: seq<byte>)
    ensures |r| == |symbols|
  {
    seq(|symbols|, i requires 0 <= i < |symbols| => symbols[i] % 32)
  }

  /** Symbols decode to given octets exactly when they are, in their low five bits, the
      encoding of those octets. */
  lemma {:induction false} OctetsIff(symbols: seq<byte>, content: seq<byte>)
    requires |symbols| % 2 == 0
    ensures Octets(symbols) == Some(content) <==> LowFive(symbols) == Symbols(content)
    decreases |symbols|
  {
    hide SymbolDecode, SymbolEncode;
    if Octets(symbols).Some? {
      OctetsLen(symbols);
    }
    if symbols == [] {
      assert LowFive(symbols) == [];
    } else if content != [] && |content| * 2 == |symbols| {
      OctetsIff(symbols[2..], content[1..]);
      PairIff(symbols[0], symbols[1], content[0]);
      var low := LowFive(symbols);
      assert low == [symbols[0] % 32, symbols[1] % 32] + LowFive(symbols[2..]);
      assert Symbols(content)[..2] == [SymbolEncode(content[0] / 16), SymbolEncode(content[0] % 16)];
      assert Symbols(content)[2..] == Symbols(content[1..]) && low[2..] == LowFive(symbols[2..]);
      assert low[..2] == [symbols[0] % 32, symbols[1] % 32];
      assert low == Symbols(content) <==> low[..2] == Symbols(content)[..2] && low[2..] == Symbols(content)[2..] by {
        SplitAtTwo(low);
        SplitAtTwo(Symbols(content));
      }
      assert content == [content[0]] + content[1..];
    }
  }

  lemma SplitAtTwo(s: seq<byte>)
    requires |s| >= 2
    ensures s == s[..2] + s[2..]
  {
  }

  lemma PairIff(s: byte, t: byte, octet: byte)
    ensures SymbolDecode(s).Some? && SymbolDecode(t).Some?
        && Pair(SymbolDecode(s).value, SymbolDecode(t).value) == octet
       <==> s % 32 == SymbolEncode(octet / 16) && t % 32 == SymbolEncode(octet % 16)
  {
    hide SymbolEncode, SymbolDecode, Pair;
    SymbolBijection(s, octet / 16);
    SymbolBijection(t, octet % 16);
    DecodedNibble(s);
    DecodedNibble(t);
    if SymbolDecode(s).Some? && SymbolDecode(t).Some? {
      PairOf(SymbolDecode(s).value, SymbolDecode(t).value, octet);
    }
  }

  lemma PairOf(hi: byte, lo: byte, octet: byte)
    requires hi < 16 && lo < 16
    ensures Pair(hi, lo) == octet <==> hi == octet / 16 && lo == octet % 16
  {
  }

  lemma DecodedNibble(s: byte)
    ensures SymbolDecode(s).Some? ==> SymbolDecode(s).value < 16
  {
    hide Popcount;
  }

  /** Decoding gives `data` exactly for the symbol strings that encode it: decode inverts
      encode, and nothing but an encoding is accepted. */
  lemma FramingBijection(symbols: seq<byte>, data: seq<byte>, crc: bool)
    ensures DecodedFrame(symbols, crc) == FrameOk(data) <==> LowFive(symbols) == EncodedFrame(data, crc)
  {
    hide Octets, Symbols, Crc8;
    var content := Content(data, crc);
    if |symbols| % 2 == 0 {
      OctetsIff(symbols, content);
      if Octets(symbols).Some? && crc && |symbols| > 0 {
        OctetsLen(symbols);
        var o := Octets(symbols).value;
        var n := |o| - 1;
        assert o == o[..n] + [o[n]];
        assert o == content <==> o[..n] == data && o[n] == Crc8(data) by {
          if o == content {
            assert |data| == n && o[..n] == content[..n] == data && o[n] == content[n];
          }
        }
      }
    }
  }

  lemma DecodeEncode(data: seq<byte>, crc: bool)
    ensures DecodedFrame(EncodedFrame(data, crc), crc) == FrameOk(data)
  {
    hide DecodedFrame, Symbols, Crc8;
    SymbolsSmall(Content(data, crc));
    assert LowFive(EncodedFrame(data, crc)) == EncodedFrame(data, crc);
    FramingBijection(EncodedFrame(data, crc), data, crc);
  }

  lemma {:induction false} SymbolsSmall(content: seq<byte>)
    ensures forall i :: 0 <= i < |Symbols(content)| ==> Symbols(content)[i] < 32
    decreases |content|
  {
    hide SymbolEncode;
    if content != [] {
      SymbolsSmall(content[1..]);
    }
  }

  /** Decoding complains of a bad symbol exactly when some symbol has an odd number of ones
      in its five bits, and not about the number of symbols. */
  lemma BadSymbolIff(symbols: seq<byte>, crc: bool)
    ensures DecodedFrame(symbols, crc) == FrameErr(BadSymbol)
       <==> |symbols| % 2 == 0 && exists i :: 0 <= i < |symbols| && OnesInFive(symbols[i]) % 2 == 1
    ensures DecodedFrame(symbols, crc) == FrameErr(OddSymbolCount) <==> |symbols| % 2 == 1
    ensures DecodedFrame(symbols, crc) == FrameErr(ShortFrame) <==> crc && symbols == []
  {
    hide Octets, Crc8, OnesInFive;
    if |symbols| % 2 == 0 {
      OctetsNoneIff(symbols);
    }
  }

  lemma {:induction false} OctetsNoneIff(symbols: seq<byte>)
    requires |symbols| % 2 == 0
    ensures Octets(symbols).None? <==> exists i :: 0 <= i < |symbols| && OnesInFive(symbols[i]) % 2 == 1
    decreases |symbols|
  {
    hide SymbolDecode, OnesInFive;
    if symbols != [] {
      OctetsNoneIff(symbols[2..]);
      AcceptedIffEven(symbols[0]);
      AcceptedIffEven(symbols[1]);
      assert forall i :: 2 <= i < |symbols| ==> symbols[i] == symbols[2..][i - 2];
    }
  }

  /** A symbol octet with the bit of the given weight turned over. */
  function Flipped(symbol: byte, weight: byte): byte
    requires weight in {1, 2, 4, 8, 16}
  {
    if symbol / weight % 2 == 1 then symbol - weight else FlipFits(symbol, weight); symbol + weight
  }

  lemma FlipFits(symbol: byte, weight: byte)
    requires weight in {1, 2, 4, 8, 16} && symbol / weight % 2 == 0
    ensures symbol as int + weight as int < 0x100
  {
  }

  lemma Digits(h: nat, e: nat, d: nat, c: nat, b: nat, a: nat)
    requires a < 2 && b < 2 && c < 2 && d < 2 && e < 2
    ensures var s := 32 * h + 16 * e + 8 * d + 4 * c + 2 * b + a;
            s % 2 == a && s / 2 % 2 == b && s / 4 % 2 == c && s / 8 % 2 == d && s / 16 % 2 == e
  {
    var s := 32 * h + 16 * e + 8 * d + 4 * c + 2 * b + a;
    var s2, s4, s8 := 16 * h + 8 * e + 4 * d + 2 * c + b, 8 * h + 4 * e + 2 * d + c, 4 * h + 2 * e + d;
    assert s / 2 == s2 && s % 2 == a;
    assert s2 / 2 == s4 && s2 % 2 == b;
    assert s4 / 2 == s8 && s4 % 2 == c;
    assert s8 / 2 == 2 * h + e && s8 % 2 == d;
    QuarterOf(s);
  }

  lemma HasDigits(s: nat)
    ensures s == 32 * (s / 32) + 16 * (s / 16 % 2) + 8 * (s / 8 % 2) + 4 * (s / 4 % 2) + 2 * (s / 2 % 2) + s % 2
  {
    QuarterOf(s);
    assert s / 16 / 2 == s / 32;
  }

  lemma ParityOfDigits(s: byte, h: nat, e: nat, d: nat, c: nat, b: nat, a: nat)
    requires a < 2 && b < 2 && c < 2 && d < 2 && e < 2
    requires s as int == 32 * h + 16 * e + 8 * d + 4 * c + 2 * b + a
    ensures OnesInFive(s) == a + b + c + d + e
  {
    Digits(h, e, d, c, b, a);
  }

  lemma FlippedIs(symbol: byte, weight: byte, bit: nat)
    requires weight in {1, 2, 4, 8, 16} && bit == symbol / weight % 2
    ensures Flipped(symbol, weight) as int == if bit == 1 then symbol - weight else symbol + weight
  {
  }

  lemma FlipTurnsParity(symbol: byte, weight: byte)
    requires weight in {1, 2, 4, 8, 16}
    ensures OnesInFive(Flipped(symbol, weight)) % 2 != OnesInFive(symbol) % 2
  {
    hide OnesInFive, Flipped;
    HasDigits(symbol);
    FlipDigits(symbol, weight, symbol / 32, symbol / 16 % 2, symbol / 8 % 2, symbol / 4 % 2, symbol / 2 % 2,
        symbol % 2);
  }

  lemma FlipDigits(s: byte, weight: byte, h: nat, e: nat, d: nat, c: nat, b: nat, a: nat)
    requires weight in {1, 2, 4, 8, 16}
    requires a < 2 && b < 2 && c < 2 && d < 2 && e < 2
    requires s as int == 32 * h + 16 * e + 8 * d + 4 * c + 2 * b + a
    ensures OnesInFive(Flipped(s, weight)) % 2 != OnesInFive(s) % 2
  {
    hide OnesInFive, Flipped;
    Digits(h, e, d, c, b, a);
    ParityOfDigits(s, h, e, d, c, b, a);
    match weight {
      case 1 =>
        FlippedIs(s, 1, a);
        ParityOfDigits(Flipped(s, 1), h, e, d, c, b, 1 - a);
        OtherParity(a, b + c + d + e);
      case 2 =>
        FlippedIs(s, 2, b);
        ParityOfDigits(Flipped(s, 2), h, e, d, c, 1 - b, a);
        OtherParity(b, a + c + d + e);
      case 4 =>
        FlippedIs(s, 4, c);
        ParityOfDigits(Flipped(s, 4), h, e, d, 1 - c, b, a);
        OtherParity(c, a + b + d + e);
      case 8 =>
        FlippedIs(s, 8, d);
        ParityOfDigits(Flipped(s, 8), h, e, 1 - d, c, b, a);
        OtherParity(d, a + b + c + e);
      case 16 =>
        FlippedIs(s, 16, e);
        ParityOfDigits(Flipped(s, 16), h, 1 - e, d, c, b, a);
        OtherParity(e, a + b + c + d);
    }
  }

  lemma OtherParity(bit: nat, rest: nat)
    requires bit < 2
    ensures (1 - bit + rest) % 2 != (bit + rest) % 2
  {
  }

  /** Any one of the five bits of any one symbol turned over in a well-formed frame makes
      it a frame with a bad symbol, CRC or no CRC. */
  lemma FlippedBitRefused(symbols: seq<byte>, crc: bool, at: nat, weight: byte)
    requires DecodedFrame(symbols, crc).FrameOk? && at < |symbols| && weight in {1, 2, 4, 8, 16}
    ensures DecodedFrame(symbols[at := Flipped(symbols[at], weight)], crc) == FrameErr(BadSymbol)
  {
    hide DecodedFrame, OnesInFive, Flipped;
    BadSymbolIff(symbols, crc);
    var flipped := symbols[at := Flipped(symbols[at], weight)];
    BadSymbolIff(flipped, crc);
    FlipTurnsParity(symbols[at], weight);
    assert OnesInFive(flipped[at]) % 2 == 1;
  }

  /** With the CRC on, a frame changed -- in the bits that are looked at -- only in the two
      symbols of one octet is rejected, be it a data octet or the CRC itself. */
  lemma OneOctetChangeRejected(data: seq<byte>, symbols: seq<byte>, at: nat)
    requires var good := EncodedFrame(data, true);
             && |symbols| == |good| && at < |data| + 1
             && LowFive(symbols) != good
             && forall i :: 0 <= i < |symbols| && i != 2 * at && i != 2 * at + 1 ==> symbols[i] % 32 == good[i]
    ensures DecodedFrame(symbols, true) == FrameErr(BadSymbol) || DecodedFrame(symbols, true) == FrameErr(CrcMismatch)
  {
    hide Octets, Symbols, Crc8, Content;
    var good := EncodedFrame(data, true);
    var r := DecodedFrame(symbols, true);
    if r.FrameOk? {
      FramingBijection(symbols, r.data, true);
      ContentLen(data);
      ContentLen(r.data);
      SymbolsDifferWithin(Content(data, true), Content(r.data, true), at);
      ContentTiesOctets(data, r.data, at);
    } else {
      ContentLen(data);
    }
  }

  lemma ContentLen(data: seq<byte>)
    ensures |Content(data, true)| == |data| + 1
  {
  }

  /** The CRC octet ties the others down: contents that agree everywhere but in one octet
      are the same. */
  lemma ContentTiesOctets(d: seq<byte>, e: seq<byte>, at: nat)
    requires |d| == |e|
    requires forall i :: 0 <= i < |d| + 1 && i != at ==> Content(d, true)[i] == Content(e, true)[i]
    ensures d == e
  {
    hide Crc8;
    var a, b := Content(d, true), Content(e, true);
    assert a[|d|] == Crc8(d) && b[|d|] == Crc8(e);
    forall i | 0 <= i < |d| && i != at
      ensures d[i] == e[i]
    {
      assert a[i] == b[i];
    }
    if d != e {
      Crc8DetectsOneOctet(d, e, at);
    }
  }

  /** Encodings that agree outside one octet's symbols come from contents that agree
      outside that octet. */
  lemma SymbolsDifferWithin(a: seq<byte>, b: seq<byte>, at: nat)
    requires |a| == |b|
    requires forall i :: 0 <= i < 2 * |a| && i != 2 * at && i != 2 * at + 1 ==> Symbols(a)[i] == Symbols(b)[i]
    ensures forall i :: 0 <= i < |a| && i != at ==> a[i] == b[i]
  {
    hide Symbols, SymbolEncode;
    forall i | 0 <= i < |a| && i != at
      ensures a[i] == b[i]
    {
      SymbolsAt(a, i);
      SymbolsAt(b, i);
      SymbolEncodeInjective(a[i] / 16, b[i] / 16);
      SymbolEncodeInjective(a[i] % 16, b[i] % 16);
    }
  }

  lemma SymbolEncodeInjective(m: byte, n: byte)
    requires m < 16 && n < 16 && SymbolEncode(m) == SymbolEncode(n)
    ensures m == n
  {
    hide Popcount;
  }

  lemma {:induction false} SymbolsAt(a: seq<byte>, i: nat)
    requires i < |a|
    ensures Symbols(a)[2 * i] == SymbolEncode(a[i] / 16) && Symbols(a)[2 * i + 1] == SymbolEncode(a[i] % 16)
    decreases |a|
  {
    hide SymbolEncode;
    if i > 0 {
      SymbolsAt(a[1..], i - 1);
    }
  }

  /** On the wire: every data octet in turn, high nibble first, and the CRC of them all, when
      asked for, in the last two symbols. */
  lemma WireOrder(data: seq<byte>, crc: bool, i: nat)
    requires i < |data| + if crc then 1 else 0
    ensures var f, octet := EncodedFrame(data, crc), if i < |data| then data[i] else Crc8(data);
            && |f| == 2 * |data| + (if crc then 2 else 0)
            && f[2 * i] % 16 == octet / 16 && f[2 * i + 1] % 16 == octet % 16
  {
    hide SymbolEncode, Crc8, Symbols;
    var content := Content(data, crc);
    SymbolsAt(content, i);
    NibblesCarried(content[i]);
    assert content[i] == if i < |data| then data[i] else Crc8(data);
  }

  lemma NibblesCarried(octet: byte)
    ensures SymbolEncode(octet / 16) % 16 == octet / 16 && SymbolEncode(octet % 16) % 16 == octet % 16
  {
    hide SymbolEncode, OnesInFive;
    SentAreEven(octet / 16);
    SentAreEven(octet % 16);
  }
}
