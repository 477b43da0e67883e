/** Raw-Ethernet frames carrying several ACF messages under one AVTPDU header
    (include/rcp/l2.hpp). */
module L2 {
  import opened Bytes
  import opened Acf
  import Avtp

  const ETHERTYPE: u16 := 0x22F0
  const ETH_LEN: nat := 14

  datatype L2Error = ShortFrame | BadSubtype | LengthMismatch | BadAcfType | BadEthertype
  datatype L2Result<+T> = L2Ok(value: T) | L2Err(error: L2Error)

  type Mac = m: seq<byte> | |m| == 6 witness [0, 0, 0, 0, 0, 0]

  datatype EthHeader = EthHeader(dst: Mac, src: Mac, ethertype: u16)

  datatype MultiFrame = MultiFrame(useTscf: bool, streamId: Avtp.StreamId, sequenceNum: u16,
                                   timestampValid: bool, timestamp: u32, messages: seq<Message>)

  function EncodeEth(dst: Mac, src: Mac): (b: seq<byte>)
    ensures |b| == ETH_LEN
  {
    dst + src + PutU16(ETHERTYPE)
  }

  function DecodeEth(b: seq<byte>): L2Result<EthHeader> {
    if |b| < ETH_LEN then L2Err(ShortFrame) else L2Ok(EthHeader(b[..6], b[6..12], GetU16(b[12..14])))
  }

  function HeaderOctets(f: MultiFrame, acfLen: nat): (b: seq<byte>)
    requires Avtp.ValidId(f.streamId)
    ensures |b| == HeaderLen(f.useTscf)
  {
    if f.useTscf then
      Avtp.EncodeTscf(Avtp.TscfHeader(true, 0, false, f.streamId, f.sequenceNum % 0x100, acfLen % TWO16,
                                      f.timestampValid, f.timestamp, false, 0, 0))
    else
      Avtp.EncodeNtscf(Avtp.NtscfHeader(true, 0, f.streamId, f.sequenceNum % 0x100, acfLen % TWO16))
  }

  function HeaderLen(tscf: bool): nat { if tscf then Avtp.TSCF_LEN else Avtp.NTSCF_LEN }

  function EncodedMulti(f: MultiFrame): seq<byte>
    requires Avtp.ValidId(f.streamId)
  {
    HeaderOctets(f, |Concat(f.messages)|) + Concat(f.messages)
  }

  function EncodedL2(dst: Mac, src: Mac, f: MultiFrame): seq<byte>
    requires Avtp.ValidId(f.streamId)
  {
    EncodeEth(dst, src) + EncodedMulti(f)
  }

  method EncodeL2MultiFrame(dst: Mac, src: Mac, f: MultiFrame) returns (out: seq<byte>)
    requires Avtp.ValidId(f.streamId)
    ensures out == EncodedL2(dst, src, f)
  {
    hide EncodeMessage, HeaderOctets, EncodeEth;
    var acfBytes: seq<byte> := [];
    for i := 0 to |f.messages|
      invariant acfBytes + Concat(f.messages[i..]) == Concat(f.messages)
    {
      var m := f.messages[i];
      ghost var rest := f.messages[i + 1..];
      assert f.messages[i..][0] == m && f.messages[i..][1..] == rest;
      RejoinRight(acfBytes, EncodeMessage(m), Concat(rest));
      acfBytes := acfBytes + EncodeMessage(m);
    }
    assert acfBytes == Concat(f.messages);
    var body := HeaderOctets(f, |acfBytes|);
    body := body + acfBytes;
    out := EncodeEth(dst, src);
    out := out + body;
  }

  lemma RejoinRight(a: seq<byte>, b: seq<byte>, c: seq<byte>)
    ensures a + (b + c) == a + b + c
  {
  }

  /** The AVTPDU envelope: what the header says, once its length matches the buffer. */
  function Envelope(b: seq<byte>): L2Result<MultiFrame> {
    if |b| < 1 then L2Err(ShortFrame)
    else if b[0] == Avtp.SUBTYPE_TSCF then
      match Avtp.DecodeTscf(b)
      case Err(e) => L2Err(AvtpError(e))
      case Ok(h) =>
        if h.dataLength != |b| - Avtp.TSCF_LEN then L2Err(LengthMismatch)
        else L2Ok(MultiFrame(true, h.streamId, h.sequenceNum, h.timestampValid, h.timestamp, []))
    else
      match Avtp.DecodeNtscf(b)
      case Err(e) => L2Err(AvtpError(e))
      case Ok(h) =>
        if h.dataLength != |b| - Avtp.NTSCF_LEN then L2Err(LengthMismatch)
        else L2Ok(MultiFrame(false, h.streamId, h.sequenceNum, false, 0, []))
  }

  function AvtpError(e: Avtp.Error): L2Error {
    match e
    case ShortBuffer => ShortFrame
    case BadSubtype => BadSubtype
    case LengthMismatch => LengthMismatch
  }

  function AcfError(e: Acf.Error): L2Error {
    if e.ShortBuffer? then ShortFrame else BadAcfType
  }

  function DecodedMulti(b: seq<byte>): L2Result<MultiFrame> {
    match Envelope(b)
    case L2Err(e) => L2Err(e)
    case L2Ok(f) =>
      var off := HeaderLen(f.useTscf);
      if |b| < off + 1 then L2Err(ShortFrame) else
      match SplitResult(b[off..])
      case Err(e) => L2Err(AcfError(e))
      case Ok(ms) => L2Ok(f.(messages := ms))
  }

  function DecodedL2(b: seq<byte>): L2Result<(EthHeader, MultiFrame)> {
    match DecodeEth(b)
    case L2Err(e) => L2Err(e)
    case L2Ok(h) =>
      if h.ethertype != ETHERTYPE then L2Err(BadEthertype) else
      match DecodedMulti(b[ETH_LEN..])
      case L2Err(e) => L2Err(e)
      case L2Ok(f) => L2Ok((h, f))
  }

  method DecodeL2MultiFrame(b: seq<byte>) returns (r: L2Result<(EthHeader, MultiFrame)>)
    ensures r == DecodedL2(b)
  {
    hide Envelope, SplitResult, GetU16;
    var eth := DecodeEth(b);
    if eth.L2Err? {
      return L2Err(eth.error);
    }
    if eth.value.ethertype != ETHERTYPE {
      return L2Err(BadEthertype);
    }
    var body := b[ETH_LEN..];
    var env := Envelope(body);
    if env.L2Err? {
      return L2Err(env.error);
    }
    var off := HeaderLen(env.value.useTscf);
    if |body| < off + 1 {
      return L2Err(ShortFrame);
    }
    var ms := DecodeMessages(body[off..]);
    match ms
    case Err(e) => r := L2Err(AcfError(e));
    case Ok(list) => r := L2Ok((eth.value, env.value.(messages := list)));
  }

  /** Octets of ACF data the header's length field can announce. */
  function LengthLimit(tscf: bool): nat { if tscf then TWO16 else 0x800 }

  /** What a receiver reports for `f`: an 8-bit sequence number, no time under NTSCF, and
      every message with its length filled in. */
  function Received(f: MultiFrame): MultiFrame {
    f.(sequenceNum := f.sequenceNum % 0x100, timestampValid := f.useTscf && f.timestampValid,
       timestamp := if f.useTscf then f.timestamp else 0, messages := FilledAll(f.messages))
  }

  lemma EnvelopeRoundTrip(f: MultiFrame, acf: seq<byte>)
    requires Avtp.ValidId(f.streamId)
    ensures Envelope(HeaderOctets(f, |acf|) + acf)
         == if |acf| < LengthLimit(f.useTscf) then L2Ok(Received(f).(messages := [])) else L2Err(LengthMismatch)
  {
    hide Avtp.EncodeNtscf, Avtp.DecodeNtscf, Avtp.EncodeTscf, Avtp.DecodeTscf, FilledAll;
    if f.useTscf {
      var h := Avtp.TscfHeader(true, 0, false, f.streamId, f.sequenceNum % 0x100, |acf| % TWO16, f.timestampValid,
          f.timestamp, false, 0, 0);
      Avtp.TscfRoundTrip(h, acf);
      Subtypes(Avtp.EncodeTscf(h) + acf);
    } else {
      var h := Avtp.NtscfHeader(true, 0, f.streamId, f.sequenceNum % 0x100, |acf| % TWO16);
      Avtp.NtscfRoundTrip(h, acf);
      Subtypes(Avtp.EncodeNtscf(h) + acf);
      assert |acf| % TWO16 % 0x800 == |acf| % 0x800;
    }
  }

  lemma Subtypes(b: seq<byte>)
    ensures Avtp.DecodeTscf(b).Ok? ==> |b| >= 1 && b[0] == Avtp.SUBTYPE_TSCF
    ensures Avtp.DecodeNtscf(b).Ok? ==> |b| >= 1 && b[0] == Avtp.SUBTYPE_NTSCF
  {
  }

  /** For every non-empty list of in-range messages, decoding inverts encoding exactly when
      the length field can hold them -- 11 bits under NTSCF, 16 under TSCF -- and their
      payloads, the last one excepted, are whole quadlets. */
  lemma MultiFrameRoundTrip(dst: Mac, src: Mac, f: MultiFrame)
    requires Avtp.ValidId(f.streamId) && f.messages != [] && AllPackable(f.messages)
    ensures DecodedL2(EncodedL2(dst, src, f)) == L2Ok((EthHeader(dst, src, ETHERTYPE), Received(f)))
       <==> |Concat(f.messages)| < LengthLimit(f.useTscf) && Aligned(f.messages)
    ensures |Concat(f.messages)| >= LengthLimit(f.useTscf)
        ==> DecodedL2(EncodedL2(dst, src, f)) == L2Err(LengthMismatch)
  {
    hide HeaderOctets, Envelope, SplitResult, Split, Concat, AllPackable, Aligned, PutU16, GetU16, FilledAll;
    var acf := Concat(f.messages);
    var body := HeaderOctets(f, |acf|) + acf;
    var b := EncodeEth(dst, src) + body;
    assert b[..6] == dst && b[6..12] == src && b[12..14] == PutU16(ETHERTYPE) && b[ETH_LEN..] == body;
    PutGetU16(ETHERTYPE);
    EnvelopeRoundTrip(f, acf);
    SplitConcat(f.messages);
    assert body[HeaderLen(f.useTscf)..] == acf;
  }

  /** Where the Ethernet header's parts lie, and that the ethertype is 0x22F0. */
  lemma EthernetLayout(dst: Mac, src: Mac, f: MultiFrame)
    requires Avtp.ValidId(f.streamId)
    ensures var b := EncodedL2(dst, src, f);
            b[..6] == dst && b[6..12] == src && b[12] == 0x22 && b[13] == 0xF0
            && b[14] == if f.useTscf then 0x05 else 0x82
  {
    hide HeaderOctets, Concat, PutU16;
    EthertypeOctets();
    FirstOctet(f, |Concat(f.messages)|);
  }

  lemma EthertypeOctets()
    ensures PutU16(ETHERTYPE) == [0x22, 0xF0]
  {
    assert PutBE(0x22F0, 2) == PutBE(0x22, 1) + [0xF0] && PutBE(0x22, 1) == PutBE(0, 0) + [0x22];
  }

  lemma FirstOctet(f: MultiFrame, n: nat)
    requires Avtp.ValidId(f.streamId)
    ensures HeaderOctets(f, n)[0] == if f.useTscf then 0x05 else 0x82
  {
  }

  /** A frame is refused as foreign exactly when it has an Ethernet header of another
      ethertype, and as too short before that exactly when it has none. */
  lemma ForeignRefused(b: seq<byte>)
    ensures DecodedL2(b) == L2Err(BadEthertype) <==> |b| >= 14 && !(b[12] == 0x22 && b[13] == 0xF0)
    ensures |b| < 14 ==> DecodedL2(b) == L2Err(ShortFrame)
  {
    hide DecodedMulti;
    NeverForeign(b);
    if |b| >= 14 {
      TwoOctets(b[12..14]);
    }
  }

  lemma NeverForeign(b: seq<byte>)
    ensures |b| >= 14 ==> DecodedMulti(b[14..]) != L2Err(BadEthertype)
  {
    hide SplitResult, Avtp.DecodeTscf, Avtp.DecodeNtscf;
  }

  /** An AVTPDU is refused for its length exactly when its header is whole and the length in
      it -- 16 bits at octet 20 under TSCF, 11 bits at octet 1 under NTSCF -- is not the
      number of octets behind it. */
  lemma LengthRefusedIff(b: seq<byte>)
    ensures DecodedMulti(b) == L2Err(LengthMismatch)
       <==> || (|b| >= 24 && b[0] == 0x05 && b[20] as int * 0x100 + b[21] as int != |b| - 24)
            || (|b| >= 12 && b[0] == 0x82 && b[1] as int % 8 * 0x100 + b[2] as int != |b| - 12)
  {
    hide SplitResult, GetU16, GetU32, GetU64, Avtp.FromU64;
    if |b| >= 24 {
      TwoOctets(b[20..22]);
    }
  }

  /** Why the AVTPDU behind the Ethernet header is refused: another subtype; a length that
      does not match; no first message to read, because octets are missing or because it is
      of neither type. */
  lemma PduRefusals(b: seq<byte>)
    ensures DecodedMulti(b) == L2Err(BadSubtype) <==> b != [] && b[0] != 0x05 && b[0] != 0x82
    ensures b == [] ==> DecodedMulti(b) == L2Err(ShortFrame)
    ensures b != [] && b[0] in {0x05, 0x82} ==>
      var n, e := if b[0] == 0x05 then 24 else 12, DecodedMulti(b);
      && (|b| < n ==> e == L2Err(ShortFrame))
      && (|b| >= n && e != L2Err(LengthMismatch) ==>
            var rest := b[n..];
            var foreign := rest != [] && rest[0] / 2 != 0x0D && rest[0] / 2 != 0x0E;
            && (e == L2Err(BadAcfType) <==> foreign)
            && (e == L2Err(ShortFrame) <==>
                  (rest == [] || (!foreign && |rest| < if rest[0] / 2 == 0x0D then 16 else 8))))
  {
    hide GetU16, GetU32, GetU64, Avtp.FromU64, SplitResult, Split, FrontError;
    Avtp.NtscfRefusedIff(b);
    Avtp.TscfRefusedIff(b);
    if |b| >= 24 {
      SplitRefusedIff(b[24..]);
    }
    if |b| >= 12 {
      SplitRefusedIff(b[12..]);
    }
  }
}
