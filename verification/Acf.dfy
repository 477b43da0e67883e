/** ACF_ABB / ACF_GBB messages: the packed header, whole messages, and several
    messages back to back in one buffer (include/rcp/acf.hpp). */
module Acf {
  import opened Bytes

  const GBB: byte := 0x0D
  const ABB: byte := 0x0E
  const HEADER_LEN: nat := 8
  const GBB_HEADER_LEN: nat := 16
  const MAX_QUADLETS: nat := 0x1FF

  datatype Error = ShortBuffer | BadMsgType
  datatype Result<+T> = Ok(value: T) | Err(error: Error)

  datatype Info = Info(msgType: byte, msgLength: u16, pad: byte, mtv: bool, busId: u16,
                       evtAck: bool, evtOp: byte, hs: bool, cs: bool, txn: byte,
                       op: bool, rsp: bool, err: bool, ms: bool, readSize: u16)

  /** A default-constructed header addressed to `busId`. */
  function NewInfo(busId: u16, op: bool, rsp: bool, txn: byte): Info {
    Info(ABB, 0, 0, false, busId, false, 0, false, false, txn, op, rsp, false, false, 0)
  }

  // ---- The eight header octets, two at a time.

  /** A masked field's bits above its low octet, and the low octet. */
  function Hi(v: nat, field: nat): (h: nat)
    requires field > 0
    ensures h * 0x100 < field
  {
    v % field / 0x100
  }

  function Lo(v: nat): byte { v % 0x100 }

  /** acf_msg_type (7 bits) and acf_msg_length (9 bits, in quadlets). */
  function TypeOctets(msgType: byte, len: u16): (b: seq<byte>) ensures |b| == 2 {
    [msgType % 0x80 * 2 + Hi(len, 0x200), Lo(len)]
  }

  /** pad (2), mtv (1), reserved (2), byte_bus_id (11). */
  function BusOctets(pad: byte, mtv: bool, bus: u16): (b: seq<byte>) ensures |b| == 2 {
    [pad % 4 * 64 + 32 * Bit(mtv) + Hi(bus, 0x800), Lo(bus)]
  }

  /** evt_ack (1), evt_op (3), reserved (2), hs (1), cs (1), transaction_num (8). */
  function EvtOctets(ack: bool, evtOp: byte, hs: bool, cs: bool, txn: byte): (b: seq<byte>) ensures |b| == 2 {
    [(8 * Bit(ack) + evtOp % 8) * 16 + 2 * Bit(hs) + Bit(cs), txn]
  }

  /** op, rsp, err, ms (1 each), read_size_or_segment_num (12). */
  function SizeOctets(op: bool, rsp: bool, err: bool, ms: bool, size: u16): (b: seq<byte>) ensures |b| == 2 {
    [128 * Bit(op) + 64 * Bit(rsp) + 32 * Bit(err) + 16 * Bit(ms) + Hi(size, 0x1000), Lo(size)]
  }

  function EncodeInfo(i: Info): (b: seq<byte>)
    ensures |b| == HEADER_LEN
  {
    TypeOctets(i.msgType, i.msgLength) + BusOctets(i.pad, i.mtv, i.busId)
    + EvtOctets(i.evtAck, i.evtOp, i.hs, i.cs, i.txn) + SizeOctets(i.op, i.rsp, i.err, i.ms, i.readSize)
  }

  function DecodeInfo(b: seq<byte>): Info
    requires |b| >= HEADER_LEN
  {
    Info(b[0] / 2, b[0] as int % 2 * 0x100 + b[1] as int,
         b[2] / 64, b[2] / 32 % 2 == 1, b[2] as int % 8 * 0x100 + b[3] as int,
         b[4] / 128 == 1, b[4] / 16 % 8, b[4] / 2 % 2 == 1, b[4] % 2 == 1, b[5],
         b[6] / 128 == 1, b[6] / 64 % 2 == 1, b[6] / 32 % 2 == 1, b[6] / 16 % 2 == 1,
         b[6] as int % 16 * 0x100 + b[7] as int)
  }

  /** What of a header survives its bit-field widths. */
  function Narrowed(i: Info): Info {
    i.(msgType := i.msgType % 0x80, msgLength := i.msgLength % 0x200, pad := i.pad % 4,
       busId := i.busId % 0x800, evtOp := i.evtOp % 8, readSize := i.readSize % 0x1000)
  }

  predicate InRange(i: Info) { Narrowed(i) == i }

  predicate ReservedClear(b: seq<byte>)
    requires |b| >= HEADER_LEN
  {
    b[2] / 8 % 4 == 0 && b[4] / 4 % 4 == 0
  }

  lemma InfoRoundTrip(i: Info)
    ensures DecodeInfo(EncodeInfo(i)) == Narrowed(i)
    ensures ReservedClear(EncodeInfo(i))
    ensures EncodeInfo(Narrowed(i)) == EncodeInfo(i)
  {
    hide TypeOctets, BusOctets, EvtOctets, SizeOctets;
    TypeRoundTrip(i.msgType, i.msgLength);
    BusRoundTrip(i.pad, i.mtv, i.busId);
    EvtRoundTrip(i.evtAck, i.evtOp, i.hs, i.cs, i.txn);
    SizeRoundTrip(i.op, i.rsp, i.err, i.ms, i.readSize);
    var t, u := TypeOctets(i.msgType, i.msgLength), BusOctets(i.pad, i.mtv, i.busId);
    var v, w := EvtOctets(i.evtAck, i.evtOp, i.hs, i.cs, i.txn), SizeOctets(i.op, i.rsp, i.err, i.ms, i.readSize);
    JoinOctets(i, t, u, v, w);
    NarrowedType(i.msgType, i.msgLength);
    NarrowedBus(i.pad, i.mtv, i.busId);
    NarrowedEvt(i.evtAck, i.evtOp, i.hs, i.cs, i.txn);
    NarrowedSize(i.op, i.rsp, i.err, i.ms, i.readSize);
  }

  /** The header as four 16-bit words, each a sum of its fields at their places. */
  lemma HeaderWords(i: Info)
    ensures var b := EncodeInfo(i);
            && GetU16(b[0..2]) == i.msgType % 0x80 * 0x200 + i.msgLength % 0x200
            && GetU16(b[2..4]) == i.pad % 4 * 0x4000 + Bit(i.mtv) * 0x2000 + i.busId % 0x800
            && GetU16(b[4..6])
               == Bit(i.evtAck) * 0x8000 + i.evtOp % 8 * 0x1000 + Bit(i.hs) * 0x200 + Bit(i.cs) * 0x100 + i.txn as int
            && GetU16(b[6..8])
               == Bit(i.op) * 0x8000 + Bit(i.rsp) * 0x4000 + Bit(i.err) * 0x2000 + Bit(i.ms) * 0x1000
                  + i.readSize % 0x1000
  {
    hide GetU16, TypeOctets, BusOctets, EvtOctets, SizeOctets;
    var b := EncodeInfo(i);
    assert b[0..2] == TypeOctets(i.msgType, i.msgLength) && b[2..4] == BusOctets(i.pad, i.mtv, i.busId);
    assert b[4..6] == EvtOctets(i.evtAck, i.evtOp, i.hs, i.cs, i.txn)
        && b[6..8] == SizeOctets(i.op, i.rsp, i.err, i.ms, i.readSize);
    TypeWord(i.msgType, i.msgLength);
    BusWord(i.pad, i.mtv, i.busId);
    EvtWord(i.evtAck, i.evtOp, i.hs, i.cs, i.txn);
    SizeWord(i.op, i.rsp, i.err, i.ms, i.readSize);
  }

  lemma TypeWord(msgType: byte, len: u16)
    ensures GetU16(TypeOctets(msgType, len)) == msgType % 0x80 * 0x200 + len % 0x200
  {
    hide GetU16, Hi, Lo;
    TwoOctets(TypeOctets(msgType, len));
    Low9(len);
  }

  lemma BusWord(pad: byte, mtv: bool, bus: u16)
    ensures GetU16(BusOctets(pad, mtv, bus)) == pad % 4 * 0x4000 + Bit(mtv) * 0x2000 + bus % 0x800
  {
    hide GetU16, Hi, Lo;
    TwoOctets(BusOctets(pad, mtv, bus));
    Low11(bus);
  }

  lemma EvtWord(ack: bool, evtOp: byte, hs: bool, cs: bool, txn: byte)
    ensures GetU16(EvtOctets(ack, evtOp, hs, cs, txn))
        == Bit(ack) * 0x8000 + evtOp % 8 * 0x1000 + Bit(hs) * 0x200 + Bit(cs) * 0x100 + txn as int
  {
    hide GetU16;
    TwoOctets(EvtOctets(ack, evtOp, hs, cs, txn));
  }

  lemma SizeWord(op: bool, rsp: bool, err: bool, ms: bool, size: u16)
    ensures GetU16(SizeOctets(op, rsp, err, ms, size))
        == Bit(op) * 0x8000 + Bit(rsp) * 0x4000 + Bit(err) * 0x2000 + Bit(ms) * 0x1000 + size % 0x1000
  {
    hide GetU16, Hi, Lo;
    TwoOctets(SizeOctets(op, rsp, err, ms, size));
    Low12(size);
  }

  lemma JoinOctets(i: Info, t: seq<byte>, u: seq<byte>, v: seq<byte>, w: seq<byte>)
    requires |t| == 2 && |u| == 2 && |v| == 2 && |w| == 2
    requires t[0] / 2 == i.msgType % 0x80 && t[0] as int % 2 * 0x100 + t[1] as int == i.msgLength % 0x200
    requires u[0] / 64 == i.pad % 4 && u[0] / 32 % 2 == Bit(i.mtv) && u[0] / 8 % 4 == 0
    requires u[0] as int % 8 * 0x100 + u[1] as int == i.busId % 0x800
    requires v[0] / 128 == Bit(i.evtAck) && v[0] / 16 % 8 == i.evtOp % 8 && v[0] / 4 % 4 == 0
    requires v[0] / 2 % 2 == Bit(i.hs) && v[0] % 2 == Bit(i.cs) && v[1] == i.txn
    requires w[0] / 128 == Bit(i.op) && w[0] / 64 % 2 == Bit(i.rsp) && w[0] / 32 % 2 == Bit(i.err)
        && w[0] / 16 % 2 == Bit(i.ms)
    requires w[0] as int % 16 * 0x100 + w[1] as int == i.readSize % 0x1000
    ensures DecodeInfo(t + u + v + w) == Narrowed(i) && ReservedClear(t + u + v + w)
  {
    var b := t + u + v + w;
    assert b[0] == t[0] && b[1] == t[1] && b[2] == u[0] && b[3] == u[1];
    assert b[4] == v[0] && b[5] == v[1] && b[6] == w[0] && b[7] == w[1];
  }

  // Each octet is a sum of bit fields; the lemmas below take the fields as plain numbers.

  lemma LoOf(n: nat, lo: byte)
    ensures Lo(n * 0x100 + lo as int) == lo
  {
  }

  lemma Low9(v: nat)
    ensures Hi(v, 0x200) * 0x100 + Lo(v) as int == v % 0x200 && Hi(v % 0x200, 0x200) == Hi(v, 0x200)
        && Lo(v % 0x200) == Lo(v)
  {
    var q, r := v / 0x200, v % 0x200;
    var hi, lo := r / 0x100, r % 0x100;
    LoOf(q * 2 + hi, lo);
    LoOf(hi, lo);
    assert v == (q * 2 + hi) * 0x100 + lo && r == hi * 0x100 + lo;
  }

  lemma Join9(hi: nat, lo: byte)
    requires hi < 2
    ensures Hi(hi * 0x100 + lo as int, 0x200) == hi && Lo(hi * 0x100 + lo as int) == lo
  {
  }

  lemma Low11(v: nat)
    ensures Hi(v, 0x800) * 0x100 + Lo(v) as int == v % 0x800 && Hi(v % 0x800, 0x800) == Hi(v, 0x800)
        && Lo(v % 0x800) == Lo(v)
  {
    var q, r := v / 0x800, v % 0x800;
    var hi, lo := r / 0x100, r % 0x100;
    LoOf(q * 8 + hi, lo);
    LoOf(hi, lo);
    assert v == (q * 8 + hi) * 0x100 + lo && r == hi * 0x100 + lo;
  }

  lemma Join11(hi: nat, lo: byte)
    requires hi < 8
    ensures Hi(hi * 0x100 + lo as int, 0x800) == hi && Lo(hi * 0x100 + lo as int) == lo
  {
  }

  lemma Low12(v: nat)
    ensures Hi(v, 0x1000) * 0x100 + Lo(v) as int == v % 0x1000 && Hi(v % 0x1000, 0x1000) == Hi(v, 0x1000)
        && Lo(v % 0x1000) == Lo(v)
  {
    hide Lo;
    var q, r := v / 0x1000, v % 0x1000;
    var hi, lo := r / 0x100, r % 0x100;
    LoOf(q * 16 + hi, lo);
    LoOf(hi, lo);
    assert v == (q * 16 + hi) * 0x100 + lo && r == hi * 0x100 + lo;
  }

  lemma Join12(hi: nat, lo: byte)
    requires hi < 16
    ensures Hi(hi * 0x100 + lo as int, 0x1000) == hi && Lo(hi * 0x100 + lo as int) == lo
  {
  }

  lemma TypeParts(t: nat, hi: nat)
    requires hi < 2
    ensures (t * 2 + hi) / 2 == t && (t * 2 + hi) % 2 == hi
  {
  }

  lemma BusParts(p: nat, m: nat, hi: nat)
    requires p < 4 && m < 2 && hi < 8
    ensures var v := p * 64 + 32 * m + hi;
            v / 64 == p && v / 32 % 2 == m && v / 8 % 4 == 0 && v % 8 == hi
  {
    var v := p * 64 + 32 * m + hi;
    assert v / 32 == p * 2 + m;
    assert v / 8 == p * 8 + 4 * m;
  }

  lemma EvtParts(a: nat, op: nat, h: nat, c: nat)
    requires a < 2 && op < 8 && h < 2 && c < 2
    ensures var v := (8 * a + op) * 16 + 2 * h + c;
            v / 128 == a && v / 16 % 8 == op && v / 4 % 4 == 0 && v / 2 % 2 == h && v % 2 == c
  {
    var v := (8 * a + op) * 16 + 2 * h + c;
    assert v / 16 == 8 * a + op;
    assert v / 4 == (8 * a + op) * 4;
    assert v / 2 == (8 * a + op) * 8 + h;
  }

  lemma SizeParts(p: nat, q: nat, r: nat, s: nat, hi: nat)
    requires p < 2 && q < 2 && r < 2 && s < 2 && hi < 16
    ensures var v := 128 * p + 64 * q + 32 * r + 16 * s + hi;
            v / 128 == p && v / 64 % 2 == q && v / 32 % 2 == r && v / 16 % 2 == s && v % 16 == hi
  {
    var v := 128 * p + 64 * q + 32 * r + 16 * s + hi;
    assert v / 16 == 8 * p + 4 * q + 2 * r + s;
    assert v / 32 == 4 * p + 2 * q + r;
    assert v / 64 == 2 * p + q;
  }

  lemma TypeRoundTrip(msgType: byte, len: u16)
    ensures var b := TypeOctets(msgType, len);
            b[0] / 2 == msgType % 0x80 && b[0] as int % 2 * 0x100 + b[1] as int == len % 0x200
  {
    hide Hi, Lo;
    Low9(len);
    TypeParts(msgType % 0x80, Hi(len, 0x200));
  }

  lemma BusRoundTrip(pad: byte, mtv: bool, bus: u16)
    ensures var b := BusOctets(pad, mtv, bus);
            b[0] / 64 == pad % 4 && b[0] / 32 % 2 == Bit(mtv) && b[0] / 8 % 4 == 0
            && b[0] as int % 8 * 0x100 + b[1] as int == bus % 0x800
  {
    hide Hi, Lo;
    Low11(bus);
    BusParts(pad % 4, Bit(mtv), Hi(bus, 0x800));
  }

  lemma EvtRoundTrip(ack: bool, op: byte, hs: bool, cs: bool, txn: byte)
    ensures var v := EvtOctets(ack, op, hs, cs, txn)[0];
            v / 128 == Bit(ack) && v / 16 % 8 == op % 8 && v / 2 % 2 == Bit(hs) && v % 2 == Bit(cs) && v / 4 % 4 == 0
    ensures EvtOctets(ack, op, hs, cs, txn)[1] == txn
  {
    EvtParts(Bit(ack), op % 8, Bit(hs), Bit(cs));
  }

  lemma SizeRoundTrip(p: bool, q: bool, r: bool, s: bool, size: u16)
    ensures var b := SizeOctets(p, q, r, s, size);
            b[0] / 128 == Bit(p) && b[0] / 64 % 2 == Bit(q) && b[0] / 32 % 2 == Bit(r) && b[0] / 16 % 2 == Bit(s)
            && b[0] as int % 16 * 0x100 + b[1] as int == size % 0x1000
  {
    hide Hi, Lo;
    Low12(size);
    SizeParts(Bit(p), Bit(q), Bit(r), Bit(s), Hi(size, 0x1000));
  }

  lemma NarrowedType(msgType: byte, len: u16)
    ensures TypeOctets(msgType % 0x80, len % 0x200) == TypeOctets(msgType, len)
  {
    hide Hi, Lo;
    Low9(len);
  }

  lemma NarrowedBus(pad: byte, mtv: bool, bus: u16)
    ensures BusOctets(pad % 4, mtv, bus % 0x800) == BusOctets(pad, mtv, bus)
  {
    hide Hi, Lo;
    Low11(bus);
  }

  lemma NarrowedEvt(ack: bool, op: byte, hs: bool, cs: bool, txn: byte)
    ensures EvtOctets(ack, op % 8, hs, cs, txn) == EvtOctets(ack, op, hs, cs, txn)
  {
  }

  lemma NarrowedSize(p: bool, q: bool, r: bool, s: bool, size: u16)
    ensures SizeOctets(p, q, r, s, size % 0x1000) == SizeOctets(p, q, r, s, size)
  {
    hide Hi, Lo;
    Low12(size);
  }

  /** Re-encoding a decoded header gives back the same octets exactly when the four
      reserved bits are clear. */
  lemma ReencodeIff(b: seq<byte>)
    requires |b| == HEADER_LEN
    ensures EncodeInfo(DecodeInfo(b)) == b <==> ReservedClear(b)
  {
    hide TypeOctets, BusOctets, EvtOctets, SizeOctets;
    var d := DecodeInfo(b);
    TypeRebuilt(b[0], b[1]);
    BusRebuilt(b[2], b[3]);
    EvtRebuilt(b[4], b[5]);
    SizeRebuilt(b[6], b[7]);
    CompareOctets(b, TypeOctets(d.msgType, d.msgLength), BusOctets(d.pad, d.mtv, d.busId),
                  EvtOctets(d.evtAck, d.evtOp, d.hs, d.cs, d.txn), SizeOctets(d.op, d.rsp, d.err, d.ms, d.readSize));
  }

  lemma CompareOctets(b: seq<byte>, t: seq<byte>, u: seq<byte>, v: seq<byte>, w: seq<byte>)
    requires |b| == HEADER_LEN
    requires t == [b[0], b[1]] && |u| == 2 && |v| == 2 && w == [b[6], b[7]]
    requires u[1] == b[3] && u[0] as int + b[2] / 8 % 4 * 8 == b[2]
    requires v[1] == b[5] && v[0] as int + b[4] / 4 % 4 * 4 == b[4]
    ensures t + u + v + w == b <==> ReservedClear(b)
  {
    var e := t + u + v + w;
    assert e[0] == b[0] && e[1] == b[1] && e[2] == u[0] && e[3] == b[3];
    assert e[4] == v[0] && e[5] == b[5] && e[6] == b[6] && e[7] == b[7];
  }

  lemma TypeFrom(t: nat, hi: nat, lo: byte)
    requires t < 0x80 && hi < 2
    ensures TypeOctets(t, hi * 0x100 + lo as int) == [t * 2 + hi, lo]
  {
    hide Hi, Lo;
    Join9(hi, lo);
  }

  lemma BusFrom(p: nat, m: nat, hi: nat, lo: byte)
    requires p < 4 && m < 2 && hi < 8
    ensures BusOctets(p, m == 1, hi * 0x100 + lo as int) == [p * 64 + 32 * m + hi, lo]
  {
    hide Hi, Lo;
    Join11(hi, lo);
  }

  lemma SizeFrom(p: nat, q: nat, r: nat, s: nat, hi: nat, lo: byte)
    requires p < 2 && q < 2 && r < 2 && s < 2 && hi < 16
    ensures SizeOctets(p == 1, q == 1, r == 1, s == 1, hi * 0x100 + lo as int)
        == [128 * p + 64 * q + 32 * r + 16 * s + hi, lo]
  {
    hide Hi, Lo;
    Join12(hi, lo);
  }

  lemma EvtFrom(a: nat, op: nat, h: nat, c: nat, txn: byte)
    requires a < 2 && op < 8 && h < 2 && c < 2
    ensures EvtOctets(a == 1, op, h == 1, c == 1, txn) == [(8 * a + op) * 16 + 2 * h + c, txn]
  {
  }

  lemma TypeRebuilt(x: byte, y: byte)
    ensures TypeOctets(x / 2, x as int % 2 * 0x100 + y as int) == [x, y]
  {
    hide TypeOctets;
    TypeFrom(x / 2, x % 2, y);
  }

  lemma BusFields(x: nat)
    ensures x / 64 * 64 + x / 32 % 2 * 32 + x / 8 % 4 * 8 + x % 8 == x
  {
    var q, h: nat := x / 8, x / 32;
    assert q / 4 == h && h / 2 == x / 64;
  }

  lemma BusRebuilt(x: byte, y: byte)
    ensures var u := BusOctets(x / 64, x / 32 % 2 == 1, x as int % 8 * 0x100 + y as int);
            u[1] == y && u[0] as int + x / 8 % 4 * 8 == x
  {
    hide BusOctets;
    BusFields(x);
    BusFrom(x / 64, x / 32 % 2, x % 8, y);
  }

  lemma EvtFields(x: nat)
    ensures x / 128 * 128 + x / 16 % 8 * 16 + x / 4 % 4 * 4 + x / 2 % 2 * 2 + x % 2 == x
  {
    var q, h, k: nat := x / 2, x / 4, x / 16;
    assert q / 2 == h && h / 4 == k && k / 8 == x / 128;
  }

  lemma EvtRebuilt(x: byte, y: byte)
    ensures var v := EvtOctets(x / 128 == 1, x / 16 % 8, x / 2 % 2 == 1, x % 2 == 1, y);
            v[1] == y && v[0] as int + x / 4 % 4 * 4 == x
  {
    hide EvtOctets;
    EvtFields(x);
    EvtFrom(x / 128, x / 16 % 8, x / 2 % 2, x % 2, y);
  }

  lemma SizeFields(x: nat)
    ensures x / 128 * 128 + x / 64 % 2 * 64 + x / 32 % 2 * 32 + x / 16 % 2 * 16 + x % 16 == x
  {
    var q, h, k: nat := x / 16, x / 32, x / 64;
    assert q / 2 == h && h / 2 == k && k / 2 == x / 128;
  }

  lemma SizeRebuilt(x: byte, y: byte)
    ensures SizeOctets(x / 128 == 1, x / 64 % 2 == 1, x / 32 % 2 == 1, x / 16 % 2 == 1,
                       x as int % 16 * 0x100 + y as int) == [x, y]
  {
    hide SizeOctets;
    SizeFields(x);
    SizeFrom(x / 128, x / 64 % 2, x / 32 % 2, x / 16 % 2, x % 16, y);
  }

  // ---- Whole messages.

  /** A header, its timestamp (ACF_GBB only) and its payload. */
  datatype Message = Message(info: Info, timestamp: u64, payload: seq<byte>)

  function FixedLen(msgType: byte): nat {
    if msgType == GBB then GBB_HEADER_LEN else HEADER_LEN
  }

  function ComputeLength(msgType: byte, payloadLen: nat): u16 {
    (FixedLen(msgType) + payloadLen + 3) / 4 % TWO16
  }

  /** Header octets as transmitted, timestamp included for ACF_GBB. */
  function Head(i: Info, timestamp: u64): (b: seq<byte>)
    ensures |b| == FixedLen(i.msgType)
  {
    EncodeInfo(i) + if i.msgType == GBB then PutU64(timestamp) else []
  }

  function WithLength(i: Info, n: u16): Info { i.(msgLength := n) }

  /** A zero length means: compute it from the payload. */
  function FillLength(i: Info, payloadLen: nat): Info {
    if i.msgLength == 0 then WithLength(i, ComputeLength(i.msgType, payloadLen)) else i
  }

  function EncodeAbb(i: Info, payload: seq<byte>): (b: seq<byte>)
    ensures |b| == HEADER_LEN + |payload|
  {
    EncodeInfo(FillLength(i.(msgType := ABB, mtv := false), |payload|)) + payload
  }

  function EncodeGbb(i: Info, timestamp: u64, payload: seq<byte>): (b: seq<byte>)
    ensures |b| == GBB_HEADER_LEN + |payload|
  {
    EncodeInfo(FillLength(i.(msgType := GBB), |payload|)) + PutU64(timestamp) + payload
  }

  function EncodeMessage(m: Message): (b: seq<byte>)
    ensures |b| == FixedLen(m.info.msgType) + |m.payload|
  {
    if m.info.msgType == GBB then EncodeGbb(m.info, m.timestamp, m.payload) else EncodeAbb(m.info, m.payload)
  }

  function PeekType(b: seq<byte>): byte
    requires |b| >= 1
  {
    b[0] / 2
  }

  function DecodeAbb(b: seq<byte>): Result<Message> {
    if |b| < 1 then Err(ShortBuffer)
    else if PeekType(b) != ABB then Err(BadMsgType)
    else if |b| < HEADER_LEN then Err(ShortBuffer)
    else Ok(Message(DecodeInfo(b), 0, b[HEADER_LEN..]))
  }

  function DecodeGbb(b: seq<byte>): Result<Message> {
    if |b| < 1 then Err(ShortBuffer)
    else if PeekType(b) != GBB then Err(BadMsgType)
    else if |b| < GBB_HEADER_LEN then Err(ShortBuffer)
    else Ok(Message(DecodeInfo(b), GetU64(b[HEADER_LEN..GBB_HEADER_LEN]), b[GBB_HEADER_LEN..]))
  }

  /** Each decoder refuses a first octet of another message type before it looks at the
      length; what it takes is the header, the timestamp if any, and all the rest. */
  lemma DecodeRefusals(b: seq<byte>)
    ensures DecodeAbb(b) == Err(BadMsgType) <==> b != [] && b[0] / 2 != 0x0E
    ensures DecodeAbb(b) == Err(ShortBuffer) <==> b == [] || (b[0] / 2 == 0x0E && |b| < 8)
    ensures DecodeAbb(b).Ok? ==> DecodeAbb(b).value == Message(DecodeInfo(b), 0, b[8..])
    ensures DecodeGbb(b) == Err(BadMsgType) <==> b != [] && b[0] / 2 != 0x0D
    ensures DecodeGbb(b) == Err(ShortBuffer) <==> b == [] || (b[0] / 2 == 0x0D && |b| < 16)
    ensures DecodeGbb(b).Ok? ==>
      var m := DecodeGbb(b).value;
      m.info == DecodeInfo(b) && PutU64(m.timestamp) == b[8..16] && m.payload == b[16..]
  {
    hide DecodeInfo, PutU64, GetU64;
    if |b| >= 16 {
      GetPutU64(b[8..16]);
    }
  }

  lemma DecodeInfoOfPrefix(b: seq<byte>, rest: seq<byte>)
    requires |b| == HEADER_LEN
    ensures DecodeInfo(b + rest) == DecodeInfo(b)
  {
  }

  lemma PeekIsType(b: seq<byte>)
    requires |b| >= HEADER_LEN
    ensures PeekType(b) == DecodeInfo(b).msgType
  {
  }

  lemma AbbRoundTrip(i: Info, payload: seq<byte>)
    ensures DecodeAbb(EncodeAbb(i, payload))
         == Ok(Message(Narrowed(FillLength(i.(msgType := ABB, mtv := false), |payload|)), 0, payload))
  {
    hide EncodeInfo, DecodeInfo;
    var f := FillLength(i.(msgType := ABB, mtv := false), |payload|);
    var b := EncodeAbb(i, payload);
    InfoRoundTrip(f);
    DecodeInfoOfPrefix(EncodeInfo(f), payload);
    PeekIsType(b);
    assert b[HEADER_LEN..] == payload;
  }

  lemma GbbRoundTrip(i: Info, timestamp: u64, payload: seq<byte>)
    ensures DecodeGbb(EncodeGbb(i, timestamp, payload))
         == Ok(Message(Narrowed(FillLength(i.(msgType := GBB), |payload|)), timestamp, payload))
  {
    hide EncodeInfo, DecodeInfo;
    var f := FillLength(i.(msgType := GBB), |payload|);
    var b := EncodeGbb(i, timestamp, payload);
    InfoRoundTrip(f);
    assert b == EncodeInfo(f) + (PutU64(timestamp) + payload);
    DecodeInfoOfPrefix(EncodeInfo(f), PutU64(timestamp) + payload);
    PeekIsType(b);
    assert b[HEADER_LEN..GBB_HEADER_LEN] == PutU64(timestamp) && b[GBB_HEADER_LEN..] == payload;
    PutGetU64(timestamp);
  }

  // ---- Several messages in one buffer.

  /** Why no message can be read at the front of `b`, if so. */
  function FrontError(b: seq<byte>): (r: Result<byte>)
    requires |b| >= 1
    ensures r.Ok? ==> |b| >= FixedLen(r.value) && (r.value == ABB || r.value == GBB)
  {
    var t := PeekType(b);
    if t != GBB && t != ABB then Err(BadMsgType)
    else if |b| < FixedLen(t) then Err(ShortBuffer)
    else Ok(t)
  }

  /** Octets the front message takes: its declared length, or the rest of the buffer
      when that length does not fit. */
  function FrontLen(b: seq<byte>): (n: nat)
    requires |b| >= 1 && FrontError(b).Ok?
    ensures FixedLen(PeekType(b)) <= n <= |b|
  {
    var declared := DecodeInfo(b).msgLength * 4;
    if declared < FixedLen(PeekType(b)) || declared > |b| then |b| else declared
  }

  function FrontMessage(b: seq<byte>): Message
    requires |b| >= 1 && FrontError(b).Ok?
  {
    Message(DecodeInfo(b), if PeekType(b) == GBB then GetU64(b[HEADER_LEN..GBB_HEADER_LEN]) else 0,
            b[FixedLen(PeekType(b))..FrontLen(b)])
  }

  /** The messages at the front of `b`, up to the first place none can be read. */
  function Split(b: seq<byte>): seq<Message>
    decreases |b|
  {
    if b == [] || FrontError(b).Err? then [] else [FrontMessage(b)] + Split(b[FrontLen(b)..])
  }

  function SplitResult(b: seq<byte>): Result<seq<Message>> {
    if b != [] && FrontError(b).Err? then Err(FrontError(b).error) else Ok(Split(b))
  }

  lemma SplitStep(b: seq<byte>, off: nat)
    requires off <= |b|
    ensures var rest := b[off..];
            if rest == [] || FrontError(rest).Err? then Split(rest) == []
            else Split(rest) == [FrontMessage(rest)] + Split(b[off + FrontLen(rest)..])
  {
    hide DecodeInfo;
    var rest := b[off..];
    if rest != [] && FrontError(rest).Ok? {
      assert rest[FrontLen(rest)..] == b[off + FrontLen(rest)..];
    }
  }

  /** The source's loop over offsets. */
  method DecodeMessages(b: seq<byte>) returns (r: Result<seq<Message>>)
    ensures r == SplitResult(b)
  {
    hide DecodeInfo, Split;
    var out: seq<Message> := [];
    var off := 0;
    assert b[0..] == b;
    SplitStep(b, |b|);
    while off < |b|
      invariant 0 <= off <= |b|
      invariant out + Split(b[off..]) == Split(b)
      invariant out == [] <==> off == 0
      decreases |b| - off
    {
      var rest := b[off..];
      SplitStep(b, off);
      var t := PeekType(rest);
      if t != GBB && t != ABB {
        if out == [] {
          assert rest == b && FrontError(b) == Err(BadMsgType);
          return Err(BadMsgType);
        }
        break;
      }
      var fixedLen := if t == GBB then GBB_HEADER_LEN else HEADER_LEN;
      if |rest| < fixedLen {
        if out == [] {
          assert rest == b && FrontError(b) == Err(ShortBuffer);
          return Err(ShortBuffer);
        }
        break;
      }
      var info := DecodeInfo(rest);
      var timestamp: u64 := if t == GBB then GetU64(rest[HEADER_LEN..GBB_HEADER_LEN]) else 0;
      var msgBytes := info.msgLength * 4;
      if msgBytes < fixedLen || msgBytes > |rest| {
        msgBytes := |rest|;
      }
      out := out + [Message(info, timestamp, rest[fixedLen..msgBytes])];
      off := off + msgBytes;
    }
    SplitStep(b, 0);
    assert out == Split(b);
    assert b == [] || FrontError(b).Ok?;
    r := Ok(out);
  }

  /** `ms`, laid end to end from the front, covers exactly the first `end` octets of `b`. */
  ghost predicate Tiles(b: seq<byte>, ms: seq<Message>, end: nat)
    decreases |ms|
  {
    if ms == [] then end == 0
    else
      var m := ms[0];
      var n := FixedLen(m.info.msgType) + |m.payload|;
      && n <= end <= |b|
      && m.info == DecodeInfo(b)
      && (m.info.msgType == GBB ==> b[HEADER_LEN..GBB_HEADER_LEN] == PutU64(m.timestamp))
      && m.payload == b[FixedLen(m.info.msgType)..n]
      && Tiles(b[n..], ms[1..], end - n)
  }

  /** On any octets at all, the decoded messages tile a prefix of the buffer, and they
      stop only at its end or where no header can be read. */
  lemma {:induction false} SplitTiles(b: seq<byte>) returns (end: nat)
    ensures end <= |b| && Tiles(b, Split(b), end)
    ensures end == |b| || FrontError(b[end..]).Err?
    decreases |b|
  {
    hide EncodeInfo, DecodeInfo, FrontLen, FrontMessage, FrontError;
    if b == [] || FrontError(b).Err? {
      end := 0;
      assert b[0..] == b;
    } else {
      var n := FrontLen(b);
      assert 0 < n <= |b|;
      var rest := SplitTiles(b[n..]);
      end := n + rest;
      assert b[n..][rest..] == b[end..];
      var ms := Split(b);
      assert ms[1..] == Split(b[n..]) && ms[0] == FrontMessage(b);
      FrontTile(b);
      assert Tiles(b[n..], ms[1..], end - n);
    }
  }

  lemma FrontTile(b: seq<byte>)
    requires |b| >= 1 && FrontError(b).Ok?
    ensures var m := FrontMessage(b);
            FixedLen(m.info.msgType) + |m.payload| == FrontLen(b)
            && m.info == DecodeInfo(b)
            && (m.info.msgType == GBB ==> b[HEADER_LEN..GBB_HEADER_LEN] == PutU64(m.timestamp))
            && m.payload == b[FixedLen(m.info.msgType)..FrontLen(b)]
  {
    hide EncodeInfo, DecodeInfo;
    PeekIsType(b);
    if PeekType(b) == GBB {
      GetPutBE(b[HEADER_LEN..GBB_HEADER_LEN]);
    }
  }

  /** Octets taken by a list of messages. */
  function Taken(ms: seq<Message>): nat
    decreases |ms|
  {
    if ms == [] then 0 else FixedLen(ms[0].info.msgType) + |ms[0].payload| + Taken(ms[1..])
  }

  /** Of any octets at all, every message found takes exactly the quadlets its header
      declares when those hold its own header and are there, and otherwise all the rest of
      the buffer. */
  lemma {:induction false} SplitLengths(b: seq<byte>, k: nat)
    requires k < |Split(b)|
    ensures var m, at := Split(b)[k], Taken(Split(b)[..k]);
            var declared, n := 4 * m.info.msgLength, FixedLen(m.info.msgType) + |m.payload|;
            && at <= |b|
            && n == if FixedLen(m.info.msgType) <= declared <= |b| - at then declared else |b| - at
    decreases k
  {
    hide DecodeInfo, FrontLen, FrontMessage, FrontError;
    var ms := Split(b);
    FrontTile(b);
    if k == 0 {
      FrontTakes(b);
    } else {
      var n := FrontLen(b);
      SplitLengths(b[n..], k - 1);
      assert ms[1..] == Split(b[n..]);
      assert ms[..k][1..] == ms[1..][..k - 1] && ms[..k][0] == FrontMessage(b);
    }
  }

  lemma FrontTakes(b: seq<byte>)
    requires |b| >= 1 && FrontError(b).Ok?
    ensures var m := FrontMessage(b);
            FrontLen(b) == if FixedLen(m.info.msgType) <= 4 * m.info.msgLength <= |b| then 4 * m.info.msgLength else |b|
  {
    hide DecodeInfo, PutU64, GetU64;
    PeekIsType(b);
  }

  /** Why a buffer yields no message at all: its first octet names neither message type, or
      names one whose eight or sixteen fixed octets are not all there. */
  lemma SplitRefusedIff(b: seq<byte>)
    ensures SplitResult(b) == Err(BadMsgType) <==> b != [] && b[0] / 2 != 0x0D && b[0] / 2 != 0x0E
    ensures SplitResult(b) == Err(ShortBuffer)
       <==> b != [] && ((b[0] / 2 == 0x0D && |b| < 16) || (b[0] / 2 == 0x0E && |b| < 8))
    ensures SplitResult(b).Ok? ==> (Split(b) == [] <==> b == [])
  {
    hide FrontMessage, DecodeInfo;
  }

  // ---- Packing and splitting are inverse.

  function Concat(ms: seq<Message>): seq<byte>
    decreases |ms|
  {
    if ms == [] then [] else EncodeMessage(ms[0]) + Concat(ms[1..])
  }

  /** An in-range message whose length is left to the encoder and fits its nine bits. */
  predicate Packable(m: Message) {
    && InRange(m.info) && m.info.msgLength == 0
    && (m.info.msgType == ABB || m.info.msgType == GBB)
    && (m.info.msgType == ABB ==> !m.info.mtv && m.timestamp == 0)
    && FixedLen(m.info.msgType) + |m.payload| <= MAX_QUADLETS * 4
  }

  /** What the receiver sees: the same message with its length filled in. */
  function Filled(m: Message): Message {
    m.(info := FillLength(m.info, |m.payload|))
  }

  function FilledAll(ms: seq<Message>): (r: seq<Message>)
    ensures |r| == |ms|
  {
    seq(|ms|, i requires 0 <= i < |ms| => Filled(ms[i]))
  }

  predicate AllPackable(ms: seq<Message>) {
    forall i :: 0 <= i < |ms| ==> Packable(ms[i])
  }

  /** Every payload but the last is whole quadlets. */
  predicate Aligned(ms: seq<Message>) {
    forall i :: 0 <= i < |ms| - 1 ==> |ms[i].payload| % 4 == 0
  }

  lemma Reassociate(h: seq<byte>, t: seq<byte>, p: seq<byte>, rest: seq<byte>)
    ensures h + t + p + rest == h + (t + p + rest)
    ensures t == [] ==> h + t == h
  {
  }

  lemma RoundUp(n: nat)
    ensures n <= (n + 3) / 4 * 4 <= n + 3 && (n % 4 == 0 ==> (n + 3) / 4 * 4 == n)
  {
  }

  lemma FilledInRange(i: Info, len: u16)
    requires InRange(i) && len < 0x200
    ensures InRange(WithLength(i, len)) && WithLength(i, len).msgType == i.msgType
        && WithLength(i, len).msgLength == len
  {
  }

  lemma DeclaredLength(m: Message)
    requires Packable(m)
    ensures var f, size := FillLength(m.info, |m.payload|), FixedLen(m.info.msgType) + |m.payload|;
            InRange(f) && f.msgType == m.info.msgType
            && size <= f.msgLength * 4 <= size + 3 && (|m.payload| % 4 == 0 ==> f.msgLength * 4 == size)
  {
    hide InRange, WithLength;
    var size := FixedLen(m.info.msgType) + |m.payload|;
    RoundUp(size);
    FilledInRange(m.info, ComputeLength(m.info.msgType, |m.payload|));
    assert |m.payload| % 4 == 0 ==> size % 4 == 0;
  }

  lemma FrontOf(b: seq<byte>, m: Message, f: Info)
    requires |b| >= FixedLen(f.msgType) + |m.payload| && DecodeInfo(b) == f && PeekType(b) == f.msgType
    requires f.msgType == ABB || f.msgType == GBB
    requires var size := FixedLen(f.msgType) + |m.payload|;
             f.msgLength * 4 == size || (size <= f.msgLength * 4 && |b| == size)
    requires b[FixedLen(f.msgType)..FixedLen(f.msgType) + |m.payload|] == m.payload
    requires if f.msgType == GBB then b[HEADER_LEN..GBB_HEADER_LEN] == PutU64(m.timestamp) else m.timestamp == 0
    ensures FrontError(b).Ok? && FrontLen(b) == FixedLen(f.msgType) + |m.payload| && FrontMessage(b) == m.(info := f)
  {
    hide DecodeInfo, PeekType, PutU64, GetU64;
    PutGetU64(m.timestamp);
  }

  /** A message the codec can carry as it is, once its length is filled in. */
  predicate Carried(m: Message) {
    && InRange(FillLength(m.info, |m.payload|))
    && (m.info.msgType == ABB || m.info.msgType == GBB)
    && (m.info.msgType == ABB ==> !m.info.mtv && m.timestamp == 0)
  }

  lemma PackableCarried(m: Message)
    requires Packable(m)
    ensures Carried(m)
  {
    hide InRange, WithLength, ComputeLength;
    DeclaredLength(m);
  }

  lemma EncodedParts(m: Message)
    requires Carried(m)
    ensures EncodeMessage(m)
         == EncodeInfo(FillLength(m.info, |m.payload|)) + (if m.info.msgType == GBB then PutU64(m.timestamp) else [])
            + m.payload
    ensures FillLength(m.info, |m.payload|).msgType == m.info.msgType
  {
    hide EncodeInfo, PutU64, ComputeLength, InRange;
    Reassociate(EncodeInfo(FillLength(m.info, |m.payload|)), [], m.payload, []);
  }

  /** The header of the first of several packed messages is read back as it was filled in. */
  lemma FrontHeader(m: Message, rest: seq<byte>)
    requires Carried(m)
    ensures var b, f := EncodeMessage(m) + rest, FillLength(m.info, |m.payload|);
            && |b| >= HEADER_LEN && DecodeInfo(b) == f && PeekType(b) == f.msgType == m.info.msgType
            && |b| == FixedLen(f.msgType) + |m.payload| + |rest|
            && b[FixedLen(f.msgType)..FixedLen(f.msgType) + |m.payload|] == m.payload
            && (f.msgType == GBB ==> b[HEADER_LEN..GBB_HEADER_LEN] == PutU64(m.timestamp))
  {
    hide EncodeInfo, DecodeInfo, PutU64, GetU64, FrontError, FrontLen, FrontMessage, Narrowed, WithLength;
    hide ComputeLength;
    var f := FillLength(m.info, |m.payload|);
    var b := EncodeMessage(m) + rest;
    var ts := if m.info.msgType == GBB then PutU64(m.timestamp) else [];
    Reassociate(EncodeInfo(f), ts, m.payload, rest);
    EncodedParts(m);
    InfoRoundTrip(f);
    DecodeInfoOfPrefix(EncodeInfo(f), ts + m.payload + rest);
    PeekIsType(b);
    var fixedLen := FixedLen(m.info.msgType);
    assert b[fixedLen..fixedLen + |m.payload|] == m.payload;
    if m.info.msgType == GBB {
      assert b[HEADER_LEN..GBB_HEADER_LEN] == PutU64(m.timestamp);
    }
  }

  lemma FrontOfConcat(m: Message, rest: seq<byte>)
    requires Packable(m) && (|m.payload| % 4 == 0 || rest == [])
    ensures var b := EncodeMessage(m) + rest;
            FrontError(b).Ok? && FrontLen(b) == |EncodeMessage(m)| && FrontMessage(b) == Filled(m)
  {
    hide EncodeInfo, DecodeInfo, EncodeMessage, PeekType, PutU64, FrontError, FrontLen, FrontMessage, Narrowed;
    hide WithLength, ComputeLength;
    DeclaredLength(m);
    PackableCarried(m);
    FrontHeader(m, rest);
    FrontOf(EncodeMessage(m) + rest, m, FillLength(m.info, |m.payload|));
  }

  /** A misaligned message takes the first octets of whatever follows for its own. */
  lemma Swallows(m: Message, rest: seq<byte>)
    requires Packable(m) && |m.payload| % 4 != 0 && |rest| >= HEADER_LEN
    ensures var b := EncodeMessage(m) + rest;
            FrontError(b).Ok? && |FrontMessage(b).payload| > |m.payload|
  {
    hide EncodeInfo, DecodeInfo, EncodeMessage, PeekType, PutU64, GetU64, Narrowed, WithLength, ComputeLength;
    DeclaredLength(m);
    PackableCarried(m);
    FrontHeader(m, rest);
    NotWhole(FixedLen(m.info.msgType), |m.payload|, FillLength(m.info, |m.payload|).msgLength);
  }

  lemma NotWhole(fixedLen: nat, n: nat, quadlets: nat)
    requires fixedLen % 4 == 0 && n % 4 != 0
    ensures quadlets * 4 != fixedLen + n
  {
    assert (fixedLen + n) % 4 == n % 4;
  }

  lemma SplitPush(m: Message, rest: seq<byte>)
    requires Packable(m) && (|m.payload| % 4 == 0 || rest == [])
    ensures Split(EncodeMessage(m) + rest) == [Filled(m)] + Split(rest)
    ensures FrontError(EncodeMessage(m) + rest).Ok?
  {
    hide EncodeMessage, Packable, Filled, FrontError, FrontLen, FrontMessage;
    FrontOfConcat(m, rest);
    assert (EncodeMessage(m) + rest)[|EncodeMessage(m)|..] == rest;
  }

  /** Splitting undoes packing exactly when the payloads, the last one excepted, are whole
      quadlets. */
  lemma {:induction false} SplitConcat(ms: seq<Message>)
    requires AllPackable(ms)
    ensures Split(Concat(ms)) == FilledAll(ms) <==> Aligned(ms)
    ensures ms != [] ==> |Concat(ms)| >= HEADER_LEN && SplitResult(Concat(ms)) == Ok(Split(Concat(ms)))
    decreases |ms|
  {
    hide EncodeMessage, Packable, Filled, FrontError, FrontLen, FrontMessage, Split;
    if ms == [] {
      SplitStep([], 0);
    } else {
      var m, rest := ms[0], ms[1..];
      SplitConcat(rest);
      assert FilledAll(ms) == [Filled(m)] + FilledAll(rest);
      if |m.payload| % 4 == 0 || rest == [] {
        SplitPush(m, Concat(rest));
        AlignedTail(ms);
        assert ([Filled(m)] + Split(Concat(rest)))[1..] == Split(Concat(rest));
        assert ([Filled(m)] + FilledAll(rest))[1..] == FilledAll(rest);
      } else {
        Swallows(m, Concat(rest));
        SplitFront(Concat(ms));
        FilledPayload(m);
        assert !Aligned(ms);
      }
    }
  }

  lemma AlignedTail(ms: seq<Message>)
    requires ms != [] && (|ms[0].payload| % 4 == 0 || |ms| == 1)
    ensures Aligned(ms) <==> Aligned(ms[1..])
  {
    var t := ms[1..];
    if Aligned(t) {
      forall i | 0 <= i < |ms| - 1 ensures |ms[i].payload| % 4 == 0 {
        assert i > 0 ==> ms[i] == t[i - 1];
      }
    }
    if Aligned(ms) {
      assert forall i :: 0 <= i < |t| - 1 ==> t[i] == ms[i + 1];
    }
  }

  lemma SplitFront(b: seq<byte>)
    requires b != [] && FrontError(b).Ok?
    ensures Split(b) != [] && Split(b)[0] == FrontMessage(b)
  {
  }

  lemma FilledPayload(m: Message)
    ensures Filled(m).payload == m.payload
  {
  }

  /** A concrete list that does not come back: one payload octet, then another message. */
  lemma MisalignedListChanges()
    ensures var ms := [Message(NewInfo(1, false, false, 0), 0, [7]), Message(NewInfo(1, false, false, 0), 0, [])];
            AllPackable(ms) && Split(Concat(ms)) != FilledAll(ms)
  {
    hide Split, Concat, FilledAll;
    var ms := [Message(NewInfo(1, false, false, 0), 0, [7]), Message(NewInfo(1, false, false, 0), 0, [])];
    assert |ms[0].payload| % 4 != 0;
    SplitConcat(ms);
  }

  // ---- Messages that state their own length.

  /** A carried message whose stated length is its length in whole quadlets. */
  predicate Exact(m: Message) {
    Carried(m) && m.info.msgLength * 4 == FixedLen(m.info.msgType) + |m.payload|
  }

  lemma ExactFront(m: Message, rest: seq<byte>)
    requires Exact(m)
    ensures Split(EncodeMessage(m) + rest) == [m] + Split(rest)
  {
    hide EncodeInfo, DecodeInfo, EncodeMessage, PeekType, PutU64, FrontError, FrontLen, FrontMessage, InRange;
    FrontHeader(m, rest);
    FrontOf(EncodeMessage(m) + rest, m, m.info);
    assert (EncodeMessage(m) + rest)[|EncodeMessage(m)|..] == rest;
  }

  /** Such messages come back from a frame as they are. */
  lemma {:induction false} SplitExact(ms: seq<Message>)
    requires forall i :: 0 <= i < |ms| ==> Exact(ms[i])
    ensures Split(Concat(ms)) == ms
    decreases |ms|
  {
    hide EncodeMessage, Exact, FrontError, FrontLen, FrontMessage, Split;
    if ms == [] {
      SplitStep([], 0);
    } else {
      ExactFront(ms[0], Concat(ms[1..]));
      SplitExact(ms[1..]);
    }
  }
}
