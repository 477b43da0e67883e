/** AVTPDU headers, stream identifiers and presentation times (include/rcp/avtp.hpp). */
module Avtp {
  import opened Bytes

  const SUBTYPE_TSCF: byte := 0x05
  const SUBTYPE_NTSCF: byte := 0x82

  datatype Error = ShortBuffer | BadSubtype | LengthMismatch
  datatype Result<+T> = Ok(value: T) | Err(error: Error)

  // ---- Stream identifiers.

  datatype StreamId = StreamId(mac: seq<byte>, suffix: u16)

  predicate ValidId(id: StreamId) { |id.mac| == 6 }

  function ToU64(id: StreamId): u64
    requires ValidId(id)
  {
    GetPutBE(id.mac);
    Pow256Values();
    GetBE(id.mac) * TWO16 + id.suffix
  }

  function FromU64(v: u64): (id: StreamId)
    ensures ValidId(id)
  {
    StreamId(PutBE(v / TWO16, 6), v % TWO16)
  }

  method StreamIdToU64(id: StreamId) returns (v: u64)
    requires ValidId(id)
    ensures v == ToU64(id)
  {
    var acc: nat := 0;
    for i := 0 to 6
      invariant acc == GetBE(id.mac[..i])
    {
      assert id.mac[..i + 1][..i] == id.mac[..i];
      acc := acc * 0x100 + id.mac[i];
    }
    assert id.mac[..6] == id.mac;
    ghost var spec := ToU64(id);
    v := acc * TWO16 + id.suffix;
  }

  method StreamIdFromU64(v: u64) returns (id: StreamId)
    ensures id == FromU64(v)
  {
    var macBits: nat := v / TWO16;
    var mac: seq<byte> := [];
    for i := 0 to 6
      invariant PutBE(macBits, 6 - i) + mac == PutBE(v / TWO16, 6)
    {
      assert PutBE(macBits, 6 - i) + mac == PutBE(macBits / 0x100, 5 - i) + ([macBits % 0x100] + mac);
      mac := [macBits % 0x100] + mac;
      macBits := macBits / 0x100;
    }
    assert PutBE(macBits, 0) + mac == mac;
    id := StreamId(mac, v % TWO16);
  }

  lemma StreamIdRoundTrip(id: StreamId, v: u64)
    requires ValidId(id)
    ensures FromU64(ToU64(id)) == id
    ensures ToU64(FromU64(v)) == v
  {
    hide PutBE, GetBE;
    GetPutBE(id.mac);
    Pow256Values();
    HighAndLow(GetBE(id.mac), id.suffix);
    PutGetBE(v / TWO16, 6);
  }

  lemma HighAndLow(high: nat, low: u16)
    ensures (high * TWO16 + low) / TWO16 == high && (high * TWO16 + low) % TWO16 == low
  {
  }

  /** On the wire an identifier is its MAC address followed by its suffix, big end first. */
  lemma StreamIdOctets(id: StreamId)
    requires ValidId(id)
    ensures PutU64(ToU64(id)) == id.mac + PutU16(id.suffix)
  {
    hide PutBE, GetBE;
    PutSplit(GetBE(id.mac), id.suffix, 6);
    GetPutBE(id.mac);
  }

  lemma PutSplit(high: nat, low: u16, n: nat)
    ensures PutBE(high * TWO16 + low, n + 2) == PutBE(high, n) + PutBE(low, 2)
  {
    var v: nat := high * TWO16 + low;
    LastTwo(high, low);
    assert PutBE(v, n + 2) == PutBE(v / 0x100, n + 1) + [v % 0x100];
    assert PutBE(v / 0x100, n + 1) == PutBE(v / 0x100 / 0x100, n) + [v / 0x100 % 0x100];
    assert PutBE(low, 2) == PutBE(low / 0x100, 1) + [low % 0x100];
    assert PutBE(low / 0x100, 1) == PutBE(low / 0x100 / 0x100, 0) + [low / 0x100 % 0x100];
  }

  lemma LastTwo(high: nat, low: u16)
    ensures var v := high * TWO16 + low;
            v / 0x100 / 0x100 == high && v / 0x100 % 0x100 == low / 0x100 && v % 0x100 == low % 0x100
  {
    var v := high * TWO16 + low;
    assert v / 0x100 == high * 0x100 + low / 0x100;
  }

  // ---- NTSCF header: 12 octets.

  datatype NtscfHeader = NtscfHeader(sv: bool, version: byte, streamId: StreamId, sequenceNum: byte, dataLength: u16)

  const NTSCF_LEN: nat := 12

  function EncodeNtscf(h: NtscfHeader): (b: seq<byte>)
    requires ValidId(h.streamId)
    ensures |b| == NTSCF_LEN
  {
    var len := h.dataLength % 0x800;
    [SUBTYPE_NTSCF, (if h.sv then 0x80 else 0) + h.version % 8 * 16 + len / 0x100, len % 0x100, h.sequenceNum]
    + PutU64(ToU64(h.streamId))
  }

  function DecodeNtscf(b: seq<byte>): Result<NtscfHeader> {
    if |b| < 1 then Err(ShortBuffer)
    else if b[0] != SUBTYPE_NTSCF then Err(BadSubtype)
    else if |b| < NTSCF_LEN then Err(ShortBuffer)
    else Ok(NtscfHeader(b[1] / 0x80 == 1, b[1] / 16 % 8, FromU64(GetU64(b[4..12])), b[3],
                        b[1] as int % 8 * 0x100 + b[2] as int))
  }

  lemma FlagFields(sv: nat, version: nat, hi: nat)
    requires sv < 2 && version < 8 && hi < 8
    ensures var v := sv * 0x80 + version * 16 + hi;
            v / 0x80 == sv && v / 16 % 8 == version && v % 8 == hi
  {
    var v := sv * 0x80 + version * 16 + hi;
    assert v / 16 == sv * 8 + version;
  }

  /** Only version and length are narrowed on the wire, and what follows the header is ignored. */
  lemma NtscfRoundTrip(h: NtscfHeader, rest: seq<byte>)
    requires ValidId(h.streamId)
    ensures DecodeNtscf(EncodeNtscf(h) + rest) == Ok(h.(version := h.version % 8, dataLength := h.dataLength % 0x800))
  {
    hide PutU64, GetU64, ToU64, FromU64;
    var b := EncodeNtscf(h) + rest;
    var len := h.dataLength % 0x800;
    var flags: nat := (if h.sv then 0x80 else 0) + h.version % 8 * 16 + len / 0x100;
    assert b[1] == flags && b[2] == len % 0x100 && b[3] == h.sequenceNum;
    FlagFields(if h.sv then 1 else 0, h.version % 8, len / 0x100);
    assert b[4..12] == PutU64(ToU64(h.streamId));
    PutGetU64(ToU64(h.streamId));
    StreamIdRoundTrip(h.streamId, 0);
  }

  /** The octets of an NTSCF header. */
  lemma NtscfLayout(h: NtscfHeader)
    requires ValidId(h.streamId)
    ensures var b := EncodeNtscf(h);
            && b[0] == 0x82 && b[3] == h.sequenceNum
            && GetU16(b[1..3]) == Bit(h.sv) * 0x8000 + h.version % 8 * 0x1000 + h.dataLength % 0x800
            && b[4..10] == h.streamId.mac && b[10..12] == PutU16(h.streamId.suffix)
  {
    hide PutU64, GetU16, ToU64, PutU16;
    var b := EncodeNtscf(h);
    StreamIdOctets(h.streamId);
    TwoOctets(b[1..3]);
    assert b[4..12] == PutU64(ToU64(h.streamId));
    assert b[4..10] == b[4..12][..6] && b[10..12] == b[4..12][6..];
  }

  /** A header is refused exactly for another first octet or for being cut short. */
  lemma NtscfRefusedIff(b: seq<byte>)
    ensures DecodeNtscf(b) == Err(BadSubtype) <==> b != [] && b[0] != 0x82
    ensures DecodeNtscf(b) == Err(ShortBuffer) <==> b == [] || (b[0] == 0x82 && |b| < 12)
    ensures DecodeNtscf(b) != Err(LengthMismatch)
  {
    hide GetU64, FromU64;
  }

  /** Decoding an NTSCF header and encoding it again clears exactly the one reserved bit. */
  lemma NtscfReencode(b: seq<byte>)
    requires DecodeNtscf(b).Ok?
    ensures ValidId(DecodeNtscf(b).value.streamId)
    ensures var e := EncodeNtscf(DecodeNtscf(b).value);
            e[0] == b[0] && e[1] as int == b[1] - b[1] / 8 % 2 * 8 && e[2..] == b[2..12]
  {
    hide PutU64, GetU64, ToU64, FromU64;
    var h := DecodeNtscf(b).value;
    IdReencode(b);
    FlagOctet(b[1]);
    LengthOctets(b[1] % 8, b[2]);
    var e := EncodeNtscf(h);
    assert e[4..] == b[4..12];
    assert e[2..] == [e[2], e[3]] + e[4..] && b[2..12] == [b[2], b[3]] + b[4..12];
  }

  lemma IdReencode(b: seq<byte>)
    requires |b| >= 12
    ensures ValidId(FromU64(GetU64(b[4..12]))) && PutU64(ToU64(FromU64(GetU64(b[4..12])))) == b[4..12]
  {
    hide PutU64, GetU64, ToU64, FromU64;
    var v := GetU64(b[4..12]);
    StreamIdRoundTrip(FromU64(v), v);
    GetPutU64(b[4..12]);
  }

  lemma FlagOctet(x: byte)
    ensures (if x / 0x80 == 1 then 0x80 else 0) + x / 16 % 8 * 16 + x % 16 == x
    ensures x % 16 == x / 8 % 2 * 8 + x % 8 && x % 8 == x / 2 % 4 * 2 + x % 2
  {
    var q, h: nat := x / 16, x / 8;
    assert q / 8 == x / 0x80 && h / 2 == q && x / 2 / 4 == h;
  }

  lemma LengthOctets(hi: nat, lo: nat)
    requires hi < 8 && lo < 0x100
    ensures var len := (hi * 0x100 + lo) % 0x800;
            len / 0x100 == hi && len % 0x100 == lo
  {
  }

  // ---- TSCF header: 24 octets.

  datatype TscfHeader = TscfHeader(sv: bool, version: byte, mr: bool, streamId: StreamId, sequenceNum: byte,
                                   dataLength: u16, timestampValid: bool, timestamp: u32, tu: bool,
                                   reserved0: u32, reserved1: u16)

  const TSCF_LEN: nat := 24

  function EncodeTscf(h: TscfHeader): (b: seq<byte>)
    requires ValidId(h.streamId)
    ensures |b| == TSCF_LEN
  {
    [SUBTYPE_TSCF,
     (if h.sv then 0x80 else 0) + h.version % 8 * 16 + (if h.mr then 8 else 0) + (if h.timestampValid then 1 else 0),
     h.sequenceNum, if h.tu then 1 else 0]
    + PutU64(ToU64(h.streamId)) + PutU32(h.timestamp) + [0, 0, 0, 0] + PutU16(h.dataLength) + [0, 0]
  }

  function DecodeTscf(b: seq<byte>): Result<TscfHeader> {
    if |b| < 1 then Err(ShortBuffer)
    else if b[0] != SUBTYPE_TSCF then Err(BadSubtype)
    else if |b| < TSCF_LEN then Err(ShortBuffer)
    else Ok(TscfHeader(b[1] / 0x80 == 1, b[1] / 16 % 8, b[1] / 8 % 2 == 1, FromU64(GetU64(b[4..12])), b[2],
                       GetU16(b[20..22]), b[1] % 2 == 1, GetU32(b[12..16]), b[3] % 2 == 1,
                       GetU32(b[16..20]), GetU16(b[22..24])))
  }

  /** The reserved words never travel, and version is narrowed to three bits. */
  lemma TscfRoundTrip(h: TscfHeader, rest: seq<byte>)
    requires ValidId(h.streamId)
    ensures DecodeTscf(EncodeTscf(h) + rest) == Ok(h.(version := h.version % 8, reserved0 := 0, reserved1 := 0))
  {
    hide PutU64, GetU64, ToU64, FromU64, PutU32, GetU32, PutU16, GetU16;
    var b := EncodeTscf(h) + rest;
    ZeroFields();
    assert b[4..12] == PutU64(ToU64(h.streamId));
    assert b[12..16] == PutU32(h.timestamp);
    assert b[16..20] == PutU32(0);
    assert b[20..22] == PutU16(h.dataLength);
    assert b[22..24] == PutU16(0);
    var flags: nat := (if h.sv then 0x80 else 0) + h.version % 8 * 16 + (if h.mr then 8 else 0)
        + (if h.timestampValid then 1 else 0);
    assert b[1] == flags && b[2] == h.sequenceNum && b[3] == if h.tu then 1 else 0;
    assert flags / 0x80 == (if h.sv then 1 else 0) && flags / 16 % 8 == h.version % 8;
    assert flags / 8 % 2 == (if h.mr then 1 else 0) && flags % 2 == if h.timestampValid then 1 else 0;
    PutGetU64(ToU64(h.streamId));
    PutGetU32(h.timestamp);
    PutGetU32(0);
    PutGetU16(h.dataLength);
    PutGetU16(0);
    StreamIdRoundTrip(h.streamId, 0);
  }

  lemma ZeroFields()
    ensures PutU32(0) == [0, 0, 0, 0] && PutU16(0) == [0, 0]
  {
    ZeroBE(4);
    ZeroBE(2);
  }

  lemma {:induction false} ZeroBE(n: nat)
    ensures PutBE(0, n) == seq(n, _ => 0)
  {
    if n > 0 {
      ZeroBE(n - 1);
    }
  }

  /** The octets of a TSCF header. */
  lemma TscfLayout(h: TscfHeader)
    requires ValidId(h.streamId)
    ensures var b := EncodeTscf(h);
            && b[0] == 0x05 && b[2] == h.sequenceNum && b[3] as int == Bit(h.tu)
            && b[1] as int == Bit(h.sv) * 0x80 + h.version % 8 * 0x10 + Bit(h.mr) * 8 + Bit(h.timestampValid)
            && b[4..10] == h.streamId.mac && b[10..12] == PutU16(h.streamId.suffix)
            && b[12..16] == PutU32(h.timestamp) && b[16..20] == [0, 0, 0, 0]
            && b[20..22] == PutU16(h.dataLength) && b[22..24] == [0, 0]
  {
    hide PutU64, PutU32, PutU16, ToU64;
    var b := EncodeTscf(h);
    StreamIdOctets(h.streamId);
    assert b[4..12] == PutU64(ToU64(h.streamId));
    assert b[4..10] == b[4..12][..6] && b[10..12] == b[4..12][6..];
  }

  lemma TscfRefusedIff(b: seq<byte>)
    ensures DecodeTscf(b) == Err(BadSubtype) <==> b != [] && b[0] != 0x05
    ensures DecodeTscf(b) == Err(ShortBuffer) <==> b == [] || (b[0] == 0x05 && |b| < 24)
    ensures DecodeTscf(b) != Err(LengthMismatch)
  {
    hide GetU64, GetU32, GetU16, FromU64;
  }

  /** Decoding a TSCF header and encoding it again clears exactly the reserved bits -- two of
      octet 1, seven of octet 3, and the two words the header keeps apart. */
  lemma TscfReencode(b: seq<byte>)
    requires DecodeTscf(b).Ok?
    ensures var h := DecodeTscf(b).value;
            && ValidId(h.streamId)
            && PutU32(h.reserved0) == b[16..20] && PutU16(h.reserved1) == b[22..24]
            && var e := EncodeTscf(h);
               && e[0] == b[0] && e[1] as int == b[1] - b[1] / 2 % 4 * 2 && e[2] == b[2] && e[3] as int == b[3] % 2
               && e[4..16] == b[4..16] && e[16..20] == [0, 0, 0, 0] && e[20..22] == b[20..22] && e[22..24] == [0, 0]
  {
    hide PutU64, GetU64, ToU64, FromU64, PutU32, GetU32, PutU16, GetU16;
    var h := DecodeTscf(b).value;
    IdReencode(b);
    GetPutU32(b[12..16]);
    GetPutU32(b[16..20]);
    GetPutU16(b[20..22]);
    GetPutU16(b[22..24]);
    FlagOctet(b[1]);
    TscfFlags(h, b[1]);
    var e := EncodeTscf(h);
    assert e[4..12] == b[4..12] && e[12..16] == b[12..16];
    assert e[4..16] == e[4..12] + e[12..16] && b[4..16] == b[4..12] + b[12..16];
  }

  lemma TscfFlags(h: TscfHeader, x: byte)
    requires ValidId(h.streamId)
    requires h.sv == (x / 0x80 == 1) && h.version == x / 16 % 8 && h.mr == (x / 8 % 2 == 1)
    requires h.timestampValid == (x % 2 == 1)
    ensures EncodeTscf(h)[1] as int == x - x / 2 % 4 * 2
  {
    hide PutU64, ToU64, PutU32, PutU16;
    FlagOctet(x);
  }

  // ---- 48-bit reconstruction of a 32-bit presentation time.

  const HALF: int := 0x8000_0000

  method ExtendTimestamp(wire: u32, now: u64) returns (t: u64)
    ensures t == Extended(wire, now)
  {
    var base := now / TWO32 * TWO32;
    var candidate: nat := base + wire;
    if candidate > now && candidate - now > HALF {
      candidate := (candidate + TWO64 - TWO32) % TWO64;
    } else if candidate < now && now - candidate > HALF {
      candidate := (candidate + TWO32) % TWO64;
    }
    t := candidate;
  }

  function Extended(wire: u32, now: u64): u64 {
    var candidate := now - now % TWO32 + wire;
    if candidate > now + HALF then (candidate + TWO64 - TWO32) % TWO64
    else if candidate + HALF < now then (candidate + TWO32) % TWO64
    else candidate
  }

  /** `t` is an instant the wire value can stand for, at most half a period from `now`. */
  predicate Nearest(t: int, wire: u32, now: u64) {
    t % TWO32 == wire && -HALF <= t - now <= HALF
  }

  /** Unsigned wrap-around spoils the result exactly in the first half period, for a wire
      value more than half a period ahead, and symmetrically at the top of the range. */
  predicate Wraps(wire: u32, now: u64) {
    (now < HALF && wire > now + HALF) || (now >= TWO64 - HALF && wire + HALF < now - (TWO64 - TWO32))
  }

  lemma PeriodSplit(wire: u32, now: u64) returns (q: nat, low: nat)
    ensures low == now % TWO32 && now == q * TWO32 + low && q < TWO32
    ensures forall k: int :: (q * TWO32 + wire + k * TWO32) % TWO32 == wire
  {
    q, low := now / TWO32, now % TWO32;
    forall k: int ensures (q * TWO32 + wire + k * TWO32) % TWO32 == wire {
      assert q * TWO32 + wire + k * TWO32 == (q + k) * TWO32 + wire;
    }
  }

  lemma ExtendIsNearestIff(wire: u32, now: u64)
    ensures Nearest(Extended(wire, now), wire, now) <==> !Wraps(wire, now)
  {
    var q, low := PeriodSplit(wire, now);
    var base := q * TWO32;
    assert (base + wire + 0 * TWO32) % TWO32 == wire;
    assert (base + wire + 1 * TWO32) % TWO32 == wire;
    assert (base + wire + -1 * TWO32) % TWO32 == wire;
    if q == 0 {
      assert base == 0;
    } else {
      assert base >= TWO32;
    }
    if q == TWO32 - 1 {
      assert base == TWO64 - TWO32;
    } else {
      assert q <= TWO32 - 2 && base <= TWO64 - 2 * TWO32;
    }
  }

  /** The wrap at work: read at time zero, the last wire value is put at the end of time
      instead of just under a period ahead or just before. */
  lemma ExtendWraps()
    ensures Extended(0xFFFF_FFFF, 0) == TWO64 - 1 && !Nearest(Extended(0xFFFF_FFFF, 0), 0xFFFF_FFFF, 0)
  {
  }

  /** Any instant less than half a period away is recovered from its low 32 bits. */
  lemma ExtendRecovers(t: u64, now: u64)
    requires -HALF < t - now < HALF
    ensures Extended(t % TWO32, now) == t
  {
    var q, p := now / TWO32, t / TWO32;
    assert now == q * TWO32 + now % TWO32 && t == p * TWO32 + t % TWO32;
    assert p == q - 1 || p == q || p == q + 1;
    if p == q - 1 {
      assert now - now % TWO32 + t % TWO32 == t + TWO32;
      assert (t + TWO64) % TWO64 == t;
    } else if p == q + 1 {
      assert now - now % TWO32 + t % TWO32 == t - TWO32;
      assert t % TWO64 == t;
    }
  }
}
