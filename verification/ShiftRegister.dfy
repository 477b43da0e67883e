/** Serial CRC registers. A register of any width is a list of bits whose head is the
    bit shifted out next: the least significant bit for the reflected CRC-32 of
    include/rcp/e2e.hpp, the most significant one for the CRC-8 of include/rcp/iseled.hpp. */
module ShiftRegister {
  import opened Bytes

  /** The bits fed back when the shifted-out bit is set. The incoming end must be set:
      that is what makes a shift reversible. */
  ghost predicate IsPoly(poly: seq<bool>) {
    |poly| > 0 && poly[|poly| - 1]
  }

  function Xor(a: seq<bool>, b: seq<bool>): (r: seq<bool>)
    requires |a| == |b|
    ensures |r| == |a|
  {
    seq(|a|, i requires 0 <= i < |a| => a[i] != b[i])
  }

  /** One shift: drop the head, append a zero, feed back `poly` if the head was set. */
  function Shift(poly: seq<bool>, c: seq<bool>): (r: seq<bool>)
    requires |poly| == |c| > 0
    ensures |r| == |c|
  {
    if c[0] then Xor(c[1..] + [false], poly) else c[1..] + [false]
  }

  function ShiftBy(poly: seq<bool>, c: seq<bool>, n: nat): (r: seq<bool>)
    requires |poly| == |c| > 0
    ensures |r| == |c|
    decreases n
  {
    if n == 0 then c else ShiftBy(poly, Shift(poly, c), n - 1)
  }

  /** The source's inner loop: `n` shifts in place. */
  method ShiftOut(poly: seq<bool>, c: seq<bool>, n: nat) returns (r: seq<bool>)
    requires |poly| == |c| > 0
    ensures |r| == |c| && r == ShiftBy(poly, c, n)
  {
    r := c;
    for i := 0 to n
      invariant |r| == |c| && ShiftBy(poly, r, n - i) == ShiftBy(poly, c, n)
    {
      r := if r[0] then Xor(r[1..] + [false], poly) else r[1..] + [false];
    }
  }

  /** XOR `bits` into the head end of the register. */
  function Load(c: seq<bool>, bits: seq<bool>): (r: seq<bool>)
    requires |bits| <= |c|
    ensures |r| == |c|
  {
    seq(|c|, i requires 0 <= i < |c| => if i < |bits| then c[i] != bits[i] else c[i])
  }

  /** Feeding bits one at a time. */
  function Feed(poly: seq<bool>, c: seq<bool>, bits: seq<bool>): (r: seq<bool>)
    requires |poly| == |c| > 0
    ensures |r| == |c|
    decreases |bits|
  {
    if bits == [] then c else Feed(poly, Shift(poly, Load(c, [bits[0]])), bits[1..])
  }

  /** Loading a group of bits and shifting it through is feeding its bits in turn. */
  lemma {:induction false} LoadShiftIsFeed(poly: seq<bool>, c: seq<bool>, bits: seq<bool>)
    requires |poly| == |c| > 0
    requires |bits| <= |c|
    ensures ShiftBy(poly, Load(c, bits), |bits|) == Feed(poly, c, bits)
    decreases |bits|
  {
    if bits == [] {
      assert Load(c, bits) == c;
    } else {
      var next := Shift(poly, Load(c, [bits[0]]));
      assert Shift(poly, Load(c, bits)) == Load(next, bits[1..]) by {
        forall i | 0 <= i < |c|
          ensures Shift(poly, Load(c, bits))[i] == Load(next, bits[1..])[i]
        {
          assert i < |bits| - 1 ==> bits[1..][i] == bits[i + 1];
        }
      }
      LoadShiftIsFeed(poly, next, bits[1..]);
    }
  }

  lemma {:induction false} FeedConcat(poly: seq<bool>, c: seq<bool>, a: seq<bool>, b: seq<bool>)
    requires |poly| == |c| > 0
    ensures Feed(poly, c, a + b) == Feed(poly, Feed(poly, c, a), b)
    decreases |a|
  {
    if a == [] {
      assert a + b == b;
    } else {
      assert (a + b)[1..] == a[1..] + b;
      FeedConcat(poly, Shift(poly, Load(c, [a[0]])), a[1..], b);
    }
  }

  /** Registers that meet after the same number k of fed bits agreed beyond position k. */
  lemma {:induction false} MeetingRegistersAgree(poly: seq<bool>, c: seq<bool>, d: seq<bool>, v: seq<bool>,
                                                 w: seq<bool>)
    requires IsPoly(poly) && |poly| == |c| == |d|
    requires |v| == |w| <= |c|
    requires Feed(poly, c, v) == Feed(poly, d, w)
    ensures forall i :: |v| <= i < |c| ==> c[i] == d[i]
    ensures |v| > 0 ==> Load(c, [v[0]])[0] == Load(d, [w[0]])[0]
    decreases |v|
  {
    if |v| > 0 {
      var n := |c|;
      var x, y := Load(c, [v[0]]), Load(d, [w[0]]);
      var p, q := Shift(poly, x), Shift(poly, y);
      MeetingRegistersAgree(poly, p, q, v[1..], w[1..]);
      assert p[n - 1] == x[0] && q[n - 1] == y[0];
      forall i | |v| <= i < n
        ensures c[i] == d[i]
      {
        assert p[i - 1] == q[i - 1];
        assert x[i] == y[i];
      }
    }
  }

  /** From one register, two different bit strings no longer than the register always
      leave two different registers. */
  lemma {:induction false} ShortBurstsDiffer(poly: seq<bool>, c: seq<bool>, v: seq<bool>, w: seq<bool>)
    requires IsPoly(poly) && |poly| == |c|
    requires |v| == |w| <= |c|
    requires Feed(poly, c, v) == Feed(poly, c, w)
    ensures v == w
    decreases |v|
  {
    if |v| > 0 {
      MeetingRegistersAgree(poly, c, c, v, w);
      assert v[0] == w[0];
      ShortBurstsDiffer(poly, Shift(poly, Load(c, [v[0]])), v[1..], w[1..]);
      assert v == [v[0]] + v[1..] && w == [w[0]] + w[1..];
    }
  }

  /** Feeding the same bits never merges two registers. */
  lemma {:induction false} FeedInjective(poly: seq<bool>, c: seq<bool>, d: seq<bool>, bits: seq<bool>)
    requires IsPoly(poly) && |poly| == |c| == |d|
    requires Feed(poly, c, bits) == Feed(poly, d, bits)
    ensures c == d
    decreases |bits|
  {
    if bits != [] {
      var x, y := Load(c, [bits[0]]), Load(d, [bits[0]]);
      FeedInjective(poly, Shift(poly, x), Shift(poly, y), bits[1..]);
      assert Shift(poly, x)[|c| - 1] == x[0] && Shift(poly, y)[|c| - 1] == y[0];
      forall i | 0 <= i < |c|
        ensures c[i] == d[i]
      {
        assert i > 0 ==> Shift(poly, x)[i - 1] == Shift(poly, y)[i - 1];
        assert x[i] == y[i];
      }
    }
  }

  lemma FeedThree(poly: seq<bool>, c: seq<bool>, p: seq<bool>, v: seq<bool>, s: seq<bool>)
    requires |poly| == |c| > 0
    ensures Feed(poly, c, p + v + s) == Feed(poly, Feed(poly, Feed(poly, c, p), v), s)
  {
    hide Feed;
    FeedConcat(poly, c, p + v, s);
    FeedConcat(poly, c, p, v);
  }

  /** A change confined to a burst no wider than the register changes the remainder. */
  lemma BurstDetected(poly: seq<bool>, c: seq<bool>, p: seq<bool>, v: seq<bool>, w: seq<bool>, s: seq<bool>)
    requires IsPoly(poly) && |poly| == |c|
    requires |v| == |w| <= |c| && v != w
    ensures Feed(poly, c, p + v + s) != Feed(poly, c, p + w + s)
  {
    hide Feed;
    FeedThree(poly, c, p, v, s);
    FeedThree(poly, c, p, w, s);
    BurstSurvives(poly, Feed(poly, c, p), v, w, s);
  }

  lemma BurstSurvives(poly: seq<bool>, c: seq<bool>, v: seq<bool>, w: seq<bool>, s: seq<bool>)
    requires IsPoly(poly) && |poly| == |c|
    requires |v| == |w| <= |c| && v != w
    ensures Feed(poly, Feed(poly, c, v), s) != Feed(poly, Feed(poly, c, w), s)
  {
    hide Feed;
    var x, y := Feed(poly, c, v), Feed(poly, c, w);
    if x == y {
      ShortBurstsDiffer(poly, c, v, w);
    } else if Feed(poly, x, s) == Feed(poly, y, s) {
      FeedInjective(poly, x, y, s);
    }
  }

  // ---- Octets, in either bit order.

  datatype Order = LsbFirst | MsbFirst

  function Reversed(s: seq<bool>): (r: seq<bool>)
    ensures |r| == |s|
  {
    seq(|s|, i requires 0 <= i < |s| => s[|s| - 1 - i])
  }

  function OctetBits(o: Order, b: byte): (r: seq<bool>)
    ensures |r| == 8
  {
    if o.LsbFirst? then BitsOf(b, 8) else Reversed(BitsOf(b, 8))
  }

  lemma OctetBitsInjective(o: Order, a: byte, b: byte)
    requires OctetBits(o, a) == OctetBits(o, b)
    ensures a == b
  {
    ByteOfBits(a);
    ByteOfBits(b);
    ReversedTwice(BitsOf(a, 8));
    ReversedTwice(BitsOf(b, 8));
  }

  lemma ReversedTwice(s: seq<bool>)
    ensures Reversed(Reversed(s)) == s
  {
  }

  /** Folding one octet in: XOR it into the head end, then shift eight times. */
  function Update(poly: seq<bool>, o: Order, c: seq<bool>, b: byte): (r: seq<bool>)
    requires |poly| == |c| >= 8
    ensures |r| == |c|
  {
    ShiftBy(poly, Load(c, OctetBits(o, b)), 8)
  }

  function Fold(poly: seq<bool>, o: Order, c: seq<bool>, data: seq<byte>): (r: seq<bool>)
    requires |poly| == |c| >= 8
    ensures |r| == |c|
    decreases |data|
  {
    if data == [] then c else Fold(poly, o, Update(poly, o, c, data[0]), data[1..])
  }

  /** The source's loop over octets. */
  method Remainder(poly: seq<bool>, o: Order, c: seq<bool>, data: seq<byte>) returns (r: seq<bool>)
    requires |poly| == |c| >= 8
    ensures r == Fold(poly, o, c, data)
  {
    r := c;
    for i := 0 to |data|
      invariant |r| == |c| && Fold(poly, o, r, data[i..]) == Fold(poly, o, c, data)
    {
      assert data[i..][1..] == data[i + 1..];
      r := Load(r, OctetBits(o, data[i]));
      r := ShiftOut(poly, r, 8);
    }
  }

  /** The bits of a string of octets in the order the register takes them. */
  function Stream(o: Order, data: seq<byte>): (s: seq<bool>)
    ensures |s| == 8 * |data|
    decreases |data|
  {
    if data == [] then [] else OctetBits(o, data[0]) + Stream(o, data[1..])
  }

  lemma {:induction false} FoldIsFeed(poly: seq<bool>, o: Order, c: seq<bool>, data: seq<byte>)
    requires |poly| == |c| >= 8
    ensures Fold(poly, o, c, data) == Feed(poly, c, Stream(o, data))
    decreases |data|
  {
    hide OctetBits;
    if data != [] {
      LoadShiftIsFeed(poly, c, OctetBits(o, data[0]));
      FoldIsFeed(poly, o, Update(poly, o, c, data[0]), data[1..]);
      FeedConcat(poly, c, OctetBits(o, data[0]), Stream(o, data[1..]));
    }
  }

  lemma {:induction false} StreamConcat(o: Order, a: seq<byte>, b: seq<byte>)
    ensures Stream(o, a + b) == Stream(o, a) + Stream(o, b)
    decreases |a|
  {
    hide OctetBits;
    if a == [] {
      assert a + b == b;
    } else {
      assert (a + b)[1..] == a[1..] + b;
      StreamConcat(o, a[1..], b);
    }
  }

  lemma {:induction false} StreamInjective(o: Order, a: seq<byte>, b: seq<byte>)
    requires |a| == |b| && Stream(o, a) == Stream(o, b)
    ensures a == b
    decreases |a|
  {
    hide OctetBits;
    if a != [] {
      assert Stream(o, a)[..8] == OctetBits(o, a[0]) && Stream(o, b)[..8] == OctetBits(o, b[0]);
      assert Stream(o, a)[8..] == Stream(o, a[1..]) && Stream(o, b)[8..] == Stream(o, b[1..]);
      OctetBitsInjective(o, a[0], b[0]);
      StreamInjective(o, a[1..], b[1..]);
      assert a == [a[0]] + a[1..] && b == [b[0]] + b[1..];
    }
  }

  /** `a` and `b` are equally long and agree outside the octets lo .. lo + n - 1. */
  ghost predicate DifferOnlyWithin(a: seq<byte>, b: seq<byte>, lo: nat, n: nat) {
    |a| == |b| && forall i :: 0 <= i < |a| && !(lo <= i < lo + n) ==> a[i] == b[i]
  }

  /** Different strings that agree outside n consecutive octets, n no more than the
      register holds, leave different remainders. */
  lemma OctetBurstDetected(poly: seq<bool>, o: Order, c: seq<bool>, a: seq<byte>, b: seq<byte>, lo: nat, n: nat)
    requires IsPoly(poly) && |poly| == |c| >= 8 && 8 * n <= |c|
    requires DifferOnlyWithin(a, b, lo, n) && a != b
    ensures Fold(poly, o, c, a) != Fold(poly, o, c, b)
  {
    hide Fold, Stream, Feed;
    var l := if lo < |a| then lo else |a|;
    var h := if lo + n < |a| then lo + n else |a|;
    var p, v, w, s := a[..l], a[l..h], b[l..h], a[h..];
    assert a == p + v + s && b == p + w + s;
    if Stream(o, v) == Stream(o, w) {
      StreamInjective(o, v, w);
    }
    StreamThree(o, p, v, s);
    StreamThree(o, p, w, s);
    BurstDetected(poly, c, Stream(o, p), Stream(o, v), Stream(o, w), Stream(o, s));
    FoldIsFeed(poly, o, c, a);
    FoldIsFeed(poly, o, c, b);
  }

  lemma StreamThree(o: Order, p: seq<byte>, v: seq<byte>, s: seq<byte>)
    ensures Stream(o, p + v + s) == Stream(o, p) + Stream(o, v) + Stream(o, s)
  {
    hide Stream;
    StreamConcat(o, p + v, s);
    StreamConcat(o, p, v);
  }
}
