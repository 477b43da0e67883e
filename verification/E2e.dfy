/** End-to-end CRC protection of one ACF message: wrap, unwrap, and what a receiver is
    guaranteed to notice (include/rcp/e2e.hpp). */
module E2e {
  import opened Bytes
  import opened Wrappers
  import opened Acf
  import Avtp
  import Crc32
  import ShiftRegister

  datatype Verdict = Accepted | CrcError | ShortFrame
  datatype Unwrapped = Unwrapped(verdict: Verdict, acfFrame: seq<byte>)

  /** The outer-header inputs of the CRC. */
  datatype Envelope = Envelope(subtype: byte, octet1: byte, tu: bool, streamId: Avtp.StreamId, timestamp: Option<u32>)

  predicate ValidEnvelope(e: Envelope) { Avtp.ValidId(e.streamId) }

  /** The three header octets, the stream identifier and the presentation time. */
  function Preamble(e: Envelope): (b: seq<byte>)
    requires ValidEnvelope(e)
    ensures |b| == 15
  {
    [e.subtype, e.octet1, if e.tu then 1 else 0] + PutU64(Avtp.ToU64(e.streamId)) + PutU32(ValueOr(e.timestamp, 0))
  }

  /** Everything the CRC is computed over. */
  function Coverage(e: Envelope, i: Info, messageTs: Option<u64>, payload: seq<byte>): seq<byte>
    requires ValidEnvelope(e)
  {
    Preamble(e) + (Head(i, ValueOr(messageTs, 0)) + payload)
  }

  function AddQuadlet(i: Info): Info { WithLength(i, (i.msgLength + 1) % TWO16) }

  function DropQuadlet(i: Info): Info { WithLength(i, (i.msgLength + TWO16 - 1) % TWO16) }

  function RealLen(i: Info, payload: seq<byte>): (n: nat)
    requires i.pad <= |payload|
  {
    |payload| - i.pad
  }

  /** The header before protection: its length filled in from the unpadded payload. */
  function Base(i: Info, payload: seq<byte>): Info
    requires i.pad <= |payload|
  {
    FillLength(i, RealLen(i, payload))
  }

  /** header, real payload, CRC, pad octets -- in that order. */
  function Wrapped(e: Envelope, i: Info, messageTs: Option<u64>, payload: seq<byte>): seq<byte>
    requires ValidEnvelope(e)
  {
    if i.pad > |payload| then [] else
    var body := payload[..RealLen(i, payload)];
    var adapted := AddQuadlet(Base(i, payload));
    EncodeMessage(Message(adapted, ValueOr(messageTs, 0), body))
    + PutU32(Crc32.Crc(Coverage(e, adapted, messageTs, body)))
    + payload[RealLen(i, payload)..]
  }

  lemma AdaptedInfo(i: Info, payload: seq<byte>, msgLength: u16)
    requires i.pad <= |payload|
    requires msgLength == if i.msgLength == 0 then ComputeLength(i.msgType, |payload| - i.pad) else i.msgLength
    ensures WithLength(i, (msgLength + 1) % TWO16) == AddQuadlet(Base(i, payload))
    ensures AddQuadlet(Base(i, payload)).msgType == i.msgType
  {
    hide ComputeLength;
  }

  method Wrap(e: Envelope, i: Info, messageTs: Option<u64>, payload: seq<byte>) returns (out: seq<byte>)
    requires ValidEnvelope(e)
    ensures out == Wrapped(e, i, messageTs, payload)
  {
    hide EncodeInfo, EncodeGbb, EncodeAbb, Coverage, Crc32.Crc, PutU32, PutU64, ComputeLength, WithLength;
    hide AddQuadlet, Base;
    if i.pad > |payload| {
      return [];
    }
    var realLen := |payload| - i.pad;
    var body := payload[..realLen];
    var msgLength := i.msgLength;
    if msgLength == 0 {
      msgLength := ComputeLength(i.msgType, realLen);
    }
    var info := WithLength(i, (msgLength + 1) % TWO16);
    AdaptedInfo(i, payload, msgLength);
    var crc := Crc32.ComputeCrc(Coverage(e, info, messageTs, body));
    out := if info.msgType == GBB then EncodeGbb(info, ValueOr(messageTs, 0), body) else EncodeAbb(info, body);
    out := out + PutU32(crc);
    out := out + payload[realLen..];
  }

  /** Where the CRC starts in a received frame, if it is long enough to hold one. */
  function CrcOffset(frame: seq<byte>): (r: Option<nat>)
    ensures r.Some? ==>
      |frame| >= HEADER_LEN && FixedLen(DecodeInfo(frame).msgType) <= r.value && r.value + 4 <= |frame|
  {
    if |frame| < HEADER_LEN then None else
    var i := DecodeInfo(frame);
    if |frame| < FixedLen(i.msgType) + 4 + i.pad then None else Some(|frame| - 4 - i.pad)
  }

  function FrameTimestamp(frame: seq<byte>): Option<u64>
    requires |frame| >= HEADER_LEN && |frame| >= FixedLen(DecodeInfo(frame).msgType)
  {
    if DecodeInfo(frame).msgType == GBB then Some(GetU64(frame[HEADER_LEN..GBB_HEADER_LEN])) else None
  }

  function FrameCrc(e: Envelope, frame: seq<byte>): u32
    requires ValidEnvelope(e) && CrcOffset(frame).Some?
  {
    var i := DecodeInfo(frame);
    Crc32.Crc(Coverage(e, i, FrameTimestamp(frame), frame[FixedLen(i.msgType)..CrcOffset(frame).value]))
  }

  function Trailer(frame: seq<byte>): u32
    requires CrcOffset(frame).Some?
  {
    GetU32(frame[CrcOffset(frame).value..CrcOffset(frame).value + 4])
  }

  function UnwrapResult(e: Envelope, frame: seq<byte>): Unwrapped
    requires ValidEnvelope(e)
  {
    if CrcOffset(frame).None? then Unwrapped(ShortFrame, []) else
    var i, at := DecodeInfo(frame), CrcOffset(frame).value;
    Unwrapped(if Trailer(frame) == FrameCrc(e, frame) then Accepted else CrcError,
              Head(DropQuadlet(i), ValueOr(FrameTimestamp(frame), 0)) + frame[FixedLen(i.msgType)..at]
                  + frame[at + 4..])
  }

  method Unwrap(e: Envelope, frame: seq<byte>) returns (r: Unwrapped)
    requires ValidEnvelope(e)
    ensures r == UnwrapResult(e, frame)
  {
    hide DecodeInfo, EncodeInfo, Coverage, Crc32.Crc, PutU32, PutU64, GetU32, GetU64;
    if |frame| < HEADER_LEN {
      return Unwrapped(ShortFrame, []);
    }
    var info := DecodeInfo(frame);
    var headerLen := if info.msgType == GBB then GBB_HEADER_LEN else HEADER_LEN;
    if |frame| < headerLen + 4 + info.pad {
      return Unwrapped(ShortFrame, []);
    }
    var realLen := |frame| - 4 - info.pad;
    var ts := if info.msgType == GBB then Some(GetU64(frame[HEADER_LEN..GBB_HEADER_LEN])) else None;
    var body := frame[headerLen..realLen];
    var got := GetU32(frame[realLen..realLen + 4]);
    var want := Crc32.ComputeCrc(Coverage(e, info, ts, body));
    info := info.(msgLength := (info.msgLength + TWO16 - 1) % TWO16);
    var acf := EncodeInfo(info) + if info.msgType == GBB then PutU64(ValueOr(ts, 0)) else [];
    acf := acf + body;
    acf := acf + frame[realLen + 4..];
    r := Unwrapped(if got == want then Accepted else CrcError, acf);
  }

  /** A frame is too short exactly when it lacks its message header, its four CRC octets or
      the pad octets its header announces. */
  lemma ShortFrameIff(e: Envelope, f: seq<byte>)
    requires ValidEnvelope(e)
    ensures UnwrapResult(e, f).verdict == ShortFrame
       <==> |f| < 8 || |f| < (if f[0] / 2 == 0x0D then 16 else 8) + 4 + f[2] / 64
    ensures UnwrapResult(e, f).verdict == ShortFrame ==> UnwrapResult(e, f).acfFrame == []
  {
    hide FrameCrc, Trailer, FrameTimestamp, Head;
  }

  /** Whatever the verdict, a frame long enough is handed on without its CRC: the header
      with one quadlet taken off its length, and every other octet as it came. */
  lemma UnwrapRemovesCrc(e: Envelope, f: seq<byte>)
    requires ValidEnvelope(e) && CrcOffset(f).Some?
    ensures var r, at := UnwrapResult(e, f).acfFrame, CrcOffset(f).value;
            && |r| == |f| - 4 && at == |f| - 4 - f[2] / 64
            && r[HEADER_LEN..] == f[HEADER_LEN..at] + f[at + 4..]
            && DecodeInfo(r) == DecodeInfo(f).(msgLength := (DecodeInfo(f).msgLength + 0x1FF) % 0x200)
  {
    hide DecodeInfo, EncodeInfo, PutU64, GetU64, FrameCrc, Trailer, Crc32.Crc, Coverage;
    var i, at := DecodeInfo(f), CrcOffset(f).value;
    UnwrappedParts(e, f);
    var head := EncodeInfo(DropQuadlet(i));
    var rest := f[HEADER_LEN..at] + f[at + 4..];
    if i.msgType == GBB {
      GetPutU64(f[HEADER_LEN..GBB_HEADER_LEN]);
      assert f[HEADER_LEN..at] == f[HEADER_LEN..GBB_HEADER_LEN] + f[GBB_HEADER_LEN..at];
    }
    assert UnwrapResult(e, f).acfFrame == head + rest;
    InfoRoundTrip(DropQuadlet(i));
    DecodeInfoOfPrefix(head, rest);
    PadOf(f);
    DroppedInRange(f);
  }

  lemma PadOf(f: seq<byte>)
    requires |f| >= HEADER_LEN
    ensures DecodeInfo(f).pad == f[2] / 64
  {
  }

  lemma DroppedInRange(f: seq<byte>)
    requires |f| >= HEADER_LEN
    ensures var i := DecodeInfo(f);
            Narrowed(DropQuadlet(i)) == i.(msgLength := (i.msgLength + 0x1FF) % 0x200)
  {
    DecodedInRange(f);
    hide DecodeInfo;
    DroppedLength(DecodeInfo(f).msgLength);
  }

  lemma DroppedLength(n: u16)
    ensures (n + TWO16 - 1) % TWO16 % 0x200 == (n + 0x1FF) % 0x200
  {
    var m := n + TWO16 - 1;
    assert m % TWO16 == if n == 0 then TWO16 - 1 else n - 1;
  }

  // ---- Unwrapping what was wrapped.

  /** A header whose pad count is two bits wide, covers only octets that are there, and
      whose unprotected length still counts one more quadlet without becoming zero. */
  predicate Wrappable(i: Info, payload: seq<byte>) {
    i.pad < 4 && i.pad <= |payload| && 1 <= Base(i, payload).msgLength < 0xFFFF
  }

  function Sent(i: Info): Info {
    if i.msgType == GBB then i else i.(msgType := ABB, mtv := false)
  }

  /** The layout of a wrapped frame, as its receiver sees it. */
  lemma WrappedLayout(e: Envelope, i: Info, messageTs: Option<u64>, payload: seq<byte>)
    requires ValidEnvelope(e) && Wrappable(i, payload)
    ensures var f := Wrapped(e, i, messageTs, payload);
            var sent := Sent(AddQuadlet(Base(i, payload)));
            var body := payload[..RealLen(i, payload)];
            && |f| >= HEADER_LEN
            && DecodeInfo(f) == Narrowed(sent)
            && Acf.ReservedClear(f)
            && CrcOffset(f) == Some(FixedLen(sent.msgType) + |body|)
            && FrameTimestamp(f) == (if i.msgType == GBB then Some(ValueOr(messageTs, 0)) else None)
            && f[FixedLen(sent.msgType)..CrcOffset(f).value] == body
            && Trailer(f) == Crc32.Crc(Coverage(e, AddQuadlet(Base(i, payload)), messageTs, body))
            && f[CrcOffset(f).value + 4..] == payload[RealLen(i, payload)..]
            && Narrowed(sent).msgType == sent.msgType && Narrowed(sent).pad == i.pad
  {
    hide EncodeInfo, DecodeInfo, Coverage, Crc32.Crc, PutU32, PutU64, GetU32, GetU64, ComputeLength;
    WrappedParts(e, i, messageTs, payload);
    var adapted := AddQuadlet(Base(i, payload));
    var sent := Sent(adapted);
    var body := payload[..RealLen(i, payload)];
    var crc := Crc32.Crc(Coverage(e, adapted, messageTs, body));
    var pads := payload[RealLen(i, payload)..];
    var ts := if i.msgType == GBB then PutU64(ValueOr(messageTs, 0)) else [];
    InfoRoundTrip(sent);
    FrameLayout(EncodeInfo(sent), ts, body, PutU32(crc), pads);
    PutGetU32(crc);
    PutGetU64(ValueOr(messageTs, 0));
  }

  lemma WrappedParts(e: Envelope, i: Info, messageTs: Option<u64>, payload: seq<byte>)
    requires ValidEnvelope(e) && Wrappable(i, payload)
    ensures (var adapted, body := AddQuadlet(Base(i, payload)), payload[..RealLen(i, payload)];
             var ts := if i.msgType == GBB then PutU64(ValueOr(messageTs, 0)) else [];
             var crc := PutU32(Crc32.Crc(Coverage(e, adapted, messageTs, body)));
             Wrapped(e, i, messageTs, payload)
                 == EncodeInfo(Sent(adapted)) + ts + body + crc + payload[RealLen(i, payload)..])
  {
    hide EncodeInfo, Coverage, Crc32.Crc, PutU32, PutU64, ComputeLength;
  }

  lemma FrameLayout(h: seq<byte>, ts: seq<byte>, body: seq<byte>, crc: seq<byte>, pads: seq<byte>)
    requires |h| == HEADER_LEN && |crc| == 4 && Acf.ReservedClear(h)
    requires |ts| == FixedLen(DecodeInfo(h).msgType) - HEADER_LEN && |pads| == DecodeInfo(h).pad
    ensures var f := h + ts + body + crc + pads;
            && |f| >= HEADER_LEN && DecodeInfo(f) == DecodeInfo(h) && Acf.ReservedClear(f)
            && CrcOffset(f) == Some(HEADER_LEN + |ts| + |body|)
            && (|ts| == 8 ==> f[HEADER_LEN..GBB_HEADER_LEN] == ts)
            && f[HEADER_LEN + |ts|..CrcOffset(f).value] == body
            && f[CrcOffset(f).value..CrcOffset(f).value + 4] == crc
            && f[CrcOffset(f).value + 4..] == pads
  {
    hide EncodeInfo, DecodeInfo;
    var rest := ts + body + crc + pads;
    assert h + ts + body + crc + pads == h + rest;
    DecodeInfoOfPrefix(h, rest);
    ReservedOfPrefix(h, rest);
  }

  lemma ReservedOfPrefix(b: seq<byte>, rest: seq<byte>)
    requires |b| == HEADER_LEN && Acf.ReservedClear(b)
    ensures Acf.ReservedClear(b + rest)
  {
  }

  /** A header and its narrowed form cover the same octets. */
  lemma NarrowedHead(i: Info, timestamp: u64)
    requires i.msgType < 0x80
    ensures Head(Narrowed(i), timestamp) == Head(i, timestamp)
  {
    hide EncodeInfo, DecodeInfo;
    InfoRoundTrip(i);
  }

  lemma SameNarrowed(i: Info, j: Info)
    requires Narrowed(i) == Narrowed(j)
    ensures EncodeInfo(i) == EncodeInfo(j)
  {
    hide EncodeInfo, DecodeInfo;
    InfoRoundTrip(i);
    InfoRoundTrip(j);
  }

  /** The frame the receiver rebuilds: the unprotected message around the padded payload. */
  function Plain(i: Info, messageTs: Option<u64>, payload: seq<byte>): seq<byte>
    requires i.pad <= |payload|
  {
    EncodeMessage(Message(WithLength(i, Base(i, payload).msgLength), ValueOr(messageTs, 0), payload))
  }

  lemma RebuiltFrame(e: Envelope, i: Info, messageTs: Option<u64>, payload: seq<byte>)
    requires ValidEnvelope(e) && Wrappable(i, payload)
    ensures UnwrapResult(e, Wrapped(e, i, messageTs, payload)).acfFrame == Plain(i, messageTs, payload)
  {
    hide EncodeInfo, DecodeInfo, Wrapped, PutU64, Base, Narrowed, Trailer, FrameCrc, FrameTimestamp, CrcOffset;
    hide Coverage;
    hide EncodeGbb, EncodeAbb, EncodeMessage, Sent, WithLength, AddQuadlet, DropQuadlet, Plain, UnwrapResult, Crc32.Crc;
    WrappedLayout(e, i, messageTs, payload);
    BaseChangesLength(i, payload);
    var n := Base(i, payload).msgLength;
    HeaderReturns(i, n);
    SentType(i, (n + 1) % TWO16);
    PlainParts(i, messageTs, payload);
    var f := Wrapped(e, i, messageTs, payload);
    UnwrappedParts(e, f);
    var head := EncodeInfo(Sent(WithLength(i, n))) + if i.msgType == GBB then PutU64(ValueOr(messageTs, 0)) else [];
    assert UnwrapResult(e, f).acfFrame == head + payload[..RealLen(i, payload)] + payload[RealLen(i, payload)..];
    RejoinPayload(head, payload, RealLen(i, payload));
  }

  lemma RejoinPayload(head: seq<byte>, payload: seq<byte>, n: nat)
    requires n <= |payload|
    ensures head + payload[..n] + payload[n..] == head + payload
  {
  }

  lemma SentType(i: Info, n: u16)
    ensures Sent(i).msgType == Sent(WithLength(i, n)).msgType == if i.msgType == GBB then GBB else ABB
  {
  }

  lemma UnwrappedParts(e: Envelope, f: seq<byte>)
    requires ValidEnvelope(e) && CrcOffset(f).Some?
    ensures var i, at, ts := DecodeInfo(f), CrcOffset(f).value, PutU64(ValueOr(FrameTimestamp(f), 0));
            UnwrapResult(e, f).acfFrame
                == EncodeInfo(DropQuadlet(i)) + (if i.msgType == GBB then ts else []) + f[FixedLen(i.msgType)..at]
                   + f[at + 4..]
  {
    hide EncodeInfo, DecodeInfo, PutU64, CrcOffset, FrameCrc, Trailer, FrameTimestamp;
  }

  lemma HeaderReturns(i: Info, n: u16)
    ensures var back := DropQuadlet(Narrowed(Sent(WithLength(i, (n + 1) % TWO16))));
            EncodeInfo(back) == EncodeInfo(Sent(WithLength(i, n))) && back.msgType == Sent(i).msgType % 0x80
  {
    hide EncodeInfo, DecodeInfo, Sent;
    var j := Sent(i);
    WithLengthFields(i, 0, (n + 1) % TWO16);
    WithLengthFields(i, 0, n);
    var back := DropQuadlet(Narrowed(WithLength(j, (n + 1) % TWO16)));
    LengthReturns(n);
    assert back == WithLength(Narrowed(WithLength(j, n)), back.msgLength);
    NarrowedTwice(WithLength(j, n), back.msgLength);
    SameNarrowed(back, WithLength(j, n));
  }

  lemma NarrowedTwice(i: Info, n: u16)
    requires n % 0x200 == i.msgLength % 0x200
    ensures Narrowed(WithLength(Narrowed(i), n)) == Narrowed(i)
  {
  }

  lemma PlainParts(i: Info, messageTs: Option<u64>, payload: seq<byte>)
    requires Wrappable(i, payload)
    ensures Plain(i, messageTs, payload)
         == EncodeInfo(Sent(WithLength(i, Base(i, payload).msgLength)))
            + (if i.msgType == GBB then PutU64(ValueOr(messageTs, 0)) else []) + payload
  {
    hide EncodeInfo, PutU64, Base, ComputeLength;
  }

  lemma BaseChangesLength(i: Info, payload: seq<byte>)
    requires i.pad <= |payload|
    ensures Base(i, payload) == WithLength(i, Base(i, payload).msgLength)
    ensures AddQuadlet(Base(i, payload)) == WithLength(i, (Base(i, payload).msgLength + 1) % TWO16)
  {
    hide ComputeLength;
    WithLengthFields(i, ComputeLength(i.msgType, RealLen(i, payload)), (Base(i, payload).msgLength + 1) % TWO16);
    WithLengthFields(i, i.msgLength, (Base(i, payload).msgLength + 1) % TWO16);
  }

  lemma WithLengthFields(i: Info, m: u16, n: u16)
    ensures WithLength(WithLength(i, m), n) == WithLength(i, n) && WithLength(i, n).msgLength == n
    ensures WithLength(i, i.msgLength) == i
    ensures WithLength(i, n).msgType == i.msgType && WithLength(i, n).pad == i.pad && WithLength(i, n).mtv == i.mtv
    ensures Sent(WithLength(i, n)) == WithLength(Sent(i), n)
  {
  }

  lemma LengthReturns(n: u16)
    ensures ((n + 1) % TWO16 % 0x200 + TWO16 - 1) % TWO16 % 0x200 == n % 0x200
  {
  }

  /** ACF_GBB: unwrap accepts wrap's output and gives back the plain message. */
  lemma UnwrapWrapGbb(e: Envelope, i: Info, messageTs: Option<u64>, payload: seq<byte>)
    requires ValidEnvelope(e) && Wrappable(i, payload) && i.msgType == GBB
    ensures UnwrapResult(e, Wrapped(e, i, messageTs, payload)) == Unwrapped(Accepted, Plain(i, messageTs, payload))
  {
    hide EncodeInfo, DecodeInfo, Preamble, Crc32.Crc, Wrapped;
    WrappedLayout(e, i, messageTs, payload);
    RebuiltFrame(e, i, messageTs, payload);
    NarrowedHead(AddQuadlet(Base(i, payload)), ValueOr(messageTs, 0));
  }

  /** Every other type goes out as ACF_ABB with mtv forced clear, after the CRC was taken:
      the frame is accepted exactly when neither of those changed anything. */
  lemma UnwrapWrapAbbIff(e: Envelope, i: Info, messageTs: Option<u64>, payload: seq<byte>)
    requires ValidEnvelope(e) && Wrappable(i, payload) && i.msgType != GBB
    ensures UnwrapResult(e, Wrapped(e, i, messageTs, payload))
         == Unwrapped(if i.msgType % 0x80 == ABB && !i.mtv then Accepted else CrcError, Plain(i, messageTs, payload))
  {
    hide EncodeInfo, DecodeInfo, Coverage, Crc32.Crc, Wrapped, Plain, PutU32, PutU64, GetU32, GetU64, Base;
    WrappedLayout(e, i, messageTs, payload);
    RebuiltFrame(e, i, messageTs, payload);
    var adapted := AddQuadlet(Base(i, payload));
    var body := payload[..RealLen(i, payload)];
    BaseChangesLength(i, payload);
    CoverageNarrowed(e, Sent(adapted), body);
    if i.msgType % 0x80 == ABB && !i.mtv {
      SameNarrowed(adapted, Sent(adapted));
      CoverageOfHeader(e, adapted, messageTs, body);
      CoverageOfHeader(e, Sent(adapted), None, body);
    } else {
      HeadersDiffer(adapted);
      CoverageOfHeader(e, adapted, messageTs, body);
      CoverageOfHeader(e, Sent(adapted), None, body);
      HeaderChangeSeen(Preamble(e), EncodeInfo(adapted), EncodeInfo(Sent(adapted)), body);
    }
  }

  lemma CoverageNarrowed(e: Envelope, i: Info, body: seq<byte>)
    requires ValidEnvelope(e) && i.msgType == ABB
    ensures Coverage(e, Narrowed(i), None, body) == Coverage(e, i, None, body)
  {
    hide EncodeInfo, DecodeInfo, Preamble, PutU64;
    NarrowedHead(i, 0);
  }

  lemma CoverageOfHeader(e: Envelope, i: Info, messageTs: Option<u64>, body: seq<byte>)
    requires ValidEnvelope(e) && i.msgType != GBB
    ensures Coverage(e, i, messageTs, body) == Preamble(e) + EncodeInfo(i) + body
  {
    hide EncodeInfo, Preamble, PutU64;
    assert Head(i, ValueOr(messageTs, 0)) == EncodeInfo(i);
  }

  lemma HeaderChangeSeen(p: seq<byte>, h: seq<byte>, k: seq<byte>, body: seq<byte>)
    requires |h| == HEADER_LEN && |k| == HEADER_LEN && h != k && h[4..] == k[4..]
    ensures Crc32.Crc(p + h + body) != Crc32.Crc(p + k + body)
  {
    hide Crc32.Crc;
    var a, b := p + h + body, p + k + body;
    assert a[|p|..|p| + 8] == h && b[|p|..|p| + 8] == k;
    forall j | 0 <= j < |a| && !(|p| <= j < |p| + 4)
      ensures a[j] == b[j]
    {
      if |p| + 4 <= j < |p| + 8 {
        assert a[j] == h[4..][j - |p| - 4] && b[j] == k[4..][j - |p| - 4];
      }
    }
    Crc32.DetectsFourOctets(a, b, |p|);
  }

  lemma HeadersDiffer(i: Info)
    requires i.msgType % 0x80 != ABB || i.mtv
    ensures var j := i.(msgType := ABB, mtv := false);
            EncodeInfo(i) != EncodeInfo(j) && EncodeInfo(i)[4..] == EncodeInfo(j)[4..]
  {
    var j := i.(msgType := ABB, mtv := false);
    EncodedTail(i);
    EncodedTail(j);
    hide EncodeInfo, DecodeInfo;
    InfoRoundTrip(i);
    InfoRoundTrip(j);
  }

  lemma EncodedTail(i: Info)
    ensures EncodeInfo(i)[4..]
        == EvtOctets(i.evtAck, i.evtOp, i.hs, i.cs, i.txn) + SizeOctets(i.op, i.rsp, i.err, i.ms, i.readSize)
  {
    hide TypeOctets, BusOctets, EvtOctets, SizeOctets;
  }

  // ---- Framed forms: NTSCF carries neither tu nor a presentation time.

  function Framed(ntscf: bool, octet1: byte, tu: bool, streamId: Avtp.StreamId, timestamp: Option<u32>): Envelope {
    Envelope(if ntscf then Avtp.SUBTYPE_NTSCF else Avtp.SUBTYPE_TSCF, octet1, !ntscf && tu, streamId,
             if ntscf then None else timestamp)
  }

  /** Under NTSCF framing the receiver's tu and timestamp cannot matter. */
  lemma NtscfIgnoresTime(octet1: byte, tu: bool, tu': bool, streamId: Avtp.StreamId, timestamp: Option<u32>,
                         timestamp': Option<u32>, i: Info, messageTs: Option<u64>, payload: seq<byte>)
    requires Avtp.ValidId(streamId) && Wrappable(i, payload)
    requires i.msgType == GBB || (i.msgType == ABB && !i.mtv)
    ensures UnwrapResult(Framed(true, octet1, tu', streamId, timestamp'),
                         Wrapped(Framed(true, octet1, tu, streamId, timestamp), i, messageTs, payload))
         == Unwrapped(Accepted, Plain(i, messageTs, payload))
  {
    hide Wrapped, UnwrapResult, Plain;
    var e := Framed(true, octet1, tu, streamId, timestamp);
    if i.msgType == GBB {
      UnwrapWrapGbb(e, i, messageTs, payload);
    } else {
      UnwrapWrapAbbIff(e, i, messageTs, payload);
    }
  }

  // ---- What an accepted frame guarantees.

  /** The frame as the CRC sees it: its header decoded and encoded again, which clears the
      reserved bits. */
  function Canonical(f: seq<byte>): (c: seq<byte>)
    requires |f| >= HEADER_LEN
    ensures |c| == |f|
  {
    EncodeInfo(DecodeInfo(f)) + f[HEADER_LEN..]
  }

  lemma ClearIsCanonical(f: seq<byte>)
    requires |f| >= HEADER_LEN
    ensures Canonical(f) == f <==> Acf.ReservedClear(f)
  {
    hide EncodeInfo, DecodeInfo, Acf.ReservedClear;
    var h := f[..HEADER_LEN];
    assert f == h + f[HEADER_LEN..];
    DecodeInfoOfPrefix(h, f[HEADER_LEN..]);
    ReservedOfWhole(f);
    ReencodeIff(h);
    var e := EncodeInfo(DecodeInfo(f));
    assert Canonical(f)[..HEADER_LEN] == e;
  }

  lemma ReservedOfWhole(f: seq<byte>)
    requires |f| >= HEADER_LEN
    ensures Acf.ReservedClear(f[..HEADER_LEN]) == Acf.ReservedClear(f)
  {
  }

  /** Every frame long enough is covered, in its canonical form, octet for octet up to the
      CRC; so the frame itself is exactly when its reserved bits are clear. */
  lemma CoveredOctets(e: Envelope, f: seq<byte>)
    requires ValidEnvelope(e) && CrcOffset(f).Some?
    ensures FrameCrc(e, f) == Crc32.Crc(Preamble(e) + Canonical(f)[..CrcOffset(f).value])
    ensures Canonical(f) == f <==> Acf.ReservedClear(f)
  {
    hide EncodeInfo, DecodeInfo, Preamble, Crc32.Crc, PutU64, GetBE, PutBE, Acf.ReservedClear;
    ClearIsCanonical(f);
    var i, at := DecodeInfo(f), CrcOffset(f).value;
    var h, c := EncodeInfo(i), Canonical(f);
    if i.msgType == GBB {
      GetPutU64(f[HEADER_LEN..GBB_HEADER_LEN]);
      assert c[..at] == h + f[HEADER_LEN..GBB_HEADER_LEN] + f[GBB_HEADER_LEN..at];
    } else {
      assert c[..at] == h + f[HEADER_LEN..at];
    }
    assert Head(i, ValueOr(FrameTimestamp(f), 0)) + f[FixedLen(i.msgType)..at] == c[..at];
  }

  /** What a receiver can tell apart: everything but the reserved bits. */
  predicate Visible(f: seq<byte>, g: seq<byte>)
    requires |f| >= HEADER_LEN && |g| >= HEADER_LEN
  {
    DecodeInfo(f) != DecodeInfo(g) || f[HEADER_LEN..] != g[HEADER_LEN..]
  }

  lemma VisibleIsCanonical(f: seq<byte>, g: seq<byte>)
    requires |f| >= HEADER_LEN && |g| >= HEADER_LEN
    ensures Visible(f, g) <==> Canonical(f) != Canonical(g)
  {
    hide EncodeInfo, DecodeInfo;
    var c, d := Canonical(f), Canonical(g);
    assert c[..HEADER_LEN] == EncodeInfo(DecodeInfo(f)) && d[..HEADER_LEN] == EncodeInfo(DecodeInfo(g));
    assert c[HEADER_LEN..] == f[HEADER_LEN..] && d[HEADER_LEN..] == g[HEADER_LEN..];
    SameEncoding(f, g);
  }

  lemma SameEncoding(f: seq<byte>, g: seq<byte>)
    requires |f| >= HEADER_LEN && |g| >= HEADER_LEN
    ensures EncodeInfo(DecodeInfo(f)) == EncodeInfo(DecodeInfo(g)) ==> DecodeInfo(f) == DecodeInfo(g)
  {
    hide EncodeInfo;
    DecodedInRange(f);
    DecodedInRange(g);
    hide DecodeInfo, Narrowed;
    InfoRoundTrip(DecodeInfo(f));
    InfoRoundTrip(DecodeInfo(g));
  }

  lemma DecodedInRange(f: seq<byte>)
    requires |f| >= HEADER_LEN
    ensures Narrowed(DecodeInfo(f)) == DecodeInfo(f)
  {
  }

  /** Canonical octets depend on the octet in the same place only. */
  lemma CanonicalWithin(f: seq<byte>, g: seq<byte>, lo: nat, n: nat)
    requires |f| >= HEADER_LEN && ShiftRegister.DifferOnlyWithin(f, g, lo, n)
    ensures ShiftRegister.DifferOnlyWithin(Canonical(f), Canonical(g), lo, n)
  {
    hide EncodeInfo, DecodeInfo;
    var c, d := Canonical(f), Canonical(g);
    forall k | 0 <= k < |c| && !(lo <= k < lo + n) ensures c[k] == d[k] {
      if k < HEADER_LEN {
        CanonicalOctet(f, k);
        CanonicalOctet(g, k);
      } else {
        assert c[k] == f[HEADER_LEN..][k - HEADER_LEN] && d[k] == g[HEADER_LEN..][k - HEADER_LEN];
      }
    }
  }

  /** What the codec makes of one header octet. */
  function Cleared(k: nat, b: byte): nat {
    if k == 2 then b - b / 8 % 4 * 8 else if k == 4 then b - b / 4 % 4 * 4 else b
  }

  lemma CanonicalOctet(f: seq<byte>, k: nat)
    requires k < HEADER_LEN <= |f|
    ensures EncodeInfo(DecodeInfo(f))[k] == Cleared(k, f[k])
  {
    hide TypeOctets, BusOctets, EvtOctets, SizeOctets;
    Acf.TypeRebuilt(f[0], f[1]);
    Acf.BusRebuilt(f[2], f[3]);
    Acf.EvtRebuilt(f[4], f[5]);
    Acf.SizeRebuilt(f[6], f[7]);
    var d := DecodeInfo(f);
    InPlace(f, k, TypeOctets(d.msgType, d.msgLength), BusOctets(d.pad, d.mtv, d.busId),
            EvtOctets(d.evtAck, d.evtOp, d.hs, d.cs, d.txn), SizeOctets(d.op, d.rsp, d.err, d.ms, d.readSize));
  }

  lemma InPlace(f: seq<byte>, k: nat, t: seq<byte>, u: seq<byte>, v: seq<byte>, w: seq<byte>)
    requires k < HEADER_LEN <= |f|
    requires t == [f[0], f[1]] && |u| == 2 && |v| == 2 && w == [f[6], f[7]]
    requires u[1] == f[3] && u[0] as int + f[2] / 8 % 4 * 8 == f[2] && v[1] == f[5]
        && v[0] as int + f[4] / 4 % 4 * 4 == f[4]
    ensures (t + u + v + w)[k] == Cleared(k, f[k])
  {
    var e := t + u + v + w;
    assert e[0] == t[0] && e[1] == t[1] && e[2] == u[0] && e[3] == u[1] && e[4] == v[0] && e[5] == v[1]
        && e[6] == w[0] && e[7] == w[1];
  }

  lemma PayloadTampering(e: Envelope, f: seq<byte>, g: seq<byte>, at: nat, lo: nat)
    requires ValidEnvelope(e) && |f| == |g| && at <= |f|
    requires ShiftRegister.DifferOnlyWithin(f, g, lo, 4) && f[..at] != g[..at]
    ensures Crc32.Crc(Preamble(e) + f[..at]) != Crc32.Crc(Preamble(e) + g[..at])
  {
    hide Preamble, Crc32.Crc;
    var p := Preamble(e);
    var a, b := p + f[..at], p + g[..at];
    assert a[15..] == f[..at] && b[15..] == g[..at];
    assert forall k :: 15 <= k < |a| ==> a[k] == f[k - 15] && b[k] == g[k - 15];
    Crc32.DetectsFourOctets(a, b, 15 + lo);
  }

  lemma TrailerTampering(f: seq<byte>, g: seq<byte>, at: nat)
    requires |f| == |g| && at + 4 <= |f| && f[at..] != g[at..] && f[at + 4..] == g[at + 4..]
    ensures GetU32(f[at..at + 4]) != GetU32(g[at..at + 4])
  {
    hide GetU32;
    assert f[at..] == f[at..at + 4] + f[at + 4..] && g[at..] == g[at..at + 4] + g[at + 4..];
    GetPutU32(f[at..at + 4]);
    GetPutU32(g[at..at + 4]);
  }

  lemma WholeFromParts(f: seq<byte>, g: seq<byte>, at: nat)
    requires at <= |f| && at <= |g| && f[..at] == g[..at] && f[at..] == g[at..]
    ensures f == g
  {
    assert f == f[..at] + f[at..] && g == g[..at] + g[at..];
  }

  lemma CanonicalTail(f: seq<byte>, at: nat)
    requires HEADER_LEN <= at <= |f|
    ensures Canonical(f)[at..] == f[at..]
  {
    hide EncodeInfo, DecodeInfo;
    assert f[HEADER_LEN..][at - HEADER_LEN..] == f[at..];
  }

  /** For any accepted frame, whatever its reserved bits, and any other with the same octets
      from the CRC on whose canonical form differs within four octets only: it is refused
      exactly when it differs visibly. */
  lemma CanonicalTamperingIff(e: Envelope, f: seq<byte>, g: seq<byte>, lo: nat)
    requires ValidEnvelope(e) && CrcOffset(f).Some? && UnwrapResult(e, f).verdict == Accepted
    requires |f| == |g| && CrcOffset(f) == CrcOffset(g) && f[CrcOffset(f).value..] == g[CrcOffset(f).value..]
    requires ShiftRegister.DifferOnlyWithin(Canonical(f), Canonical(g), lo, 4)
    ensures UnwrapResult(e, g).verdict == CrcError <==> Visible(f, g)
    ensures UnwrapResult(e, g).verdict == Accepted <==> !Visible(f, g)
  {
    hide DecodeInfo, EncodeInfo, Preamble, Crc32.Crc, FrameCrc, GetU32, CrcOffset, Head;
    hide ShiftRegister.DifferOnlyWithin, Visible, Canonical;
    var at := CrcOffset(f).value;
    CoveredOctets(e, f);
    CoveredOctets(e, g);
    VisibleIsCanonical(f, g);
    CanonicalTail(f, at);
    CanonicalTail(g, at);
    assert f[at..at + 4] == f[at..][..4] && g[at..at + 4] == g[at..][..4];
    if Canonical(f)[..at] == Canonical(g)[..at] {
      WholeFromParts(Canonical(f), Canonical(g), at);
    } else {
      PayloadTampering(e, Canonical(f), Canonical(g), at, lo);
    }
  }

  /** A change of the CRC alone is always refused. */
  lemma TrailerTamperingRejected(e: Envelope, f: seq<byte>, g: seq<byte>)
    requires ValidEnvelope(e) && CrcOffset(f).Some? && UnwrapResult(e, f).verdict == Accepted
    requires |f| == |g| && CrcOffset(f) == CrcOffset(g)
    requires var at := CrcOffset(f).value;
             Canonical(f)[..at] == Canonical(g)[..at] && f[at..] != g[at..] && f[at + 4..] == g[at + 4..]
    ensures UnwrapResult(e, g).verdict == CrcError
  {
    hide DecodeInfo, EncodeInfo, Preamble, Crc32.Crc, FrameCrc, GetU32, CrcOffset, Head, Canonical;
    CoveredOctets(e, f);
    CoveredOctets(e, g);
    TrailerTampering(f, g, CrcOffset(f).value);
  }

  /** An accepted frame altered only within four consecutive octets before its CRC, or only
      in the CRC itself, in a way that leaves the CRC where it was, is refused exactly when
      the alteration shows -- that is, unless it touched nothing but reserved bits. */
  lemma TamperingRejected(e: Envelope, f: seq<byte>, g: seq<byte>, lo: nat)
    requires ValidEnvelope(e) && CrcOffset(f).Some? && UnwrapResult(e, f).verdict == Accepted
    requires |f| == |g| && CrcOffset(f) == CrcOffset(g)
    requires var at := CrcOffset(f).value;
             || (ShiftRegister.DifferOnlyWithin(f, g, lo, 4) && f[at..] == g[at..])
             || (f[..at] == g[..at] && f[at + 4..] == g[at + 4..])
    ensures UnwrapResult(e, g).verdict == CrcError <==> Visible(f, g)
    ensures UnwrapResult(e, g).verdict == Accepted <==> !Visible(f, g)
  {
    hide DecodeInfo, EncodeInfo, UnwrapResult, CrcOffset, ShiftRegister.DifferOnlyWithin, Visible, Canonical;
    var at := CrcOffset(f).value;
    if f[at..] == g[at..] {
      if f[..at] == g[..at] {
        WholeFromParts(f, g, at);
        Unaltered(f, lo);
      }
      CanonicalWithin(f, g, lo, 4);
      CanonicalTamperingIff(e, f, g, lo);
    } else {
      SameFront(f, g, at);
      TrailerTamperingRejected(e, f, g);
    }
  }

  lemma SameTail(f: seq<byte>, g: seq<byte>, at: nat)
    requires HEADER_LEN <= at <= |f| && HEADER_LEN <= |g| && f[HEADER_LEN..] == g[HEADER_LEN..]
    ensures |f| == |g| && f[at..] == g[at..]
  {
    assert |f[HEADER_LEN..]| == |g[HEADER_LEN..]|;
    assert f[at..] == f[HEADER_LEN..][at - HEADER_LEN..] && g[at..] == g[HEADER_LEN..][at - HEADER_LEN..];
  }

  lemma Unaltered(f: seq<byte>, lo: nat)
    ensures ShiftRegister.DifferOnlyWithin(f, f, lo, 4)
  {
  }

  lemma SameFront(f: seq<byte>, g: seq<byte>, at: nat)
    requires |f| == |g| && HEADER_LEN <= at <= |f| && f[..at] == g[..at] && f[at..] != g[at..]
    ensures Canonical(f)[..at] == Canonical(g)[..at] && Visible(f, g)
  {
    hide EncodeInfo, DecodeInfo;
    assert f[..HEADER_LEN] == f[..at][..HEADER_LEN] && g[..HEADER_LEN] == g[..at][..HEADER_LEN];
    SameHeader(f, g);
    assert Canonical(f)[..at] == EncodeInfo(DecodeInfo(f)) + f[..at][HEADER_LEN..];
    assert Canonical(g)[..at] == EncodeInfo(DecodeInfo(g)) + g[..at][HEADER_LEN..];
    CanonicalTail(f, at);
    CanonicalTail(g, at);
    if f[HEADER_LEN..] == g[HEADER_LEN..] {
      SameTail(f, g, at);
    }
  }

  lemma SameHeader(f: seq<byte>, g: seq<byte>)
    requires |f| == |g| >= HEADER_LEN && f[..HEADER_LEN] == g[..HEADER_LEN]
    ensures DecodeInfo(g) == DecodeInfo(f) && Acf.ReservedClear(g) == Acf.ReservedClear(f)
  {
    assert f == f[..HEADER_LEN] + f[HEADER_LEN..] && g == g[..HEADER_LEN] + g[HEADER_LEN..];
    DecodeInfoOfPrefix(f[..HEADER_LEN], f[HEADER_LEN..]);
    DecodeInfoOfPrefix(g[..HEADER_LEN], g[HEADER_LEN..]);
    assert forall k :: 0 <= k < HEADER_LEN ==> f[k] == f[..HEADER_LEN][k] == g[k];
  }

  /** End to end: wrap's output altered only within four consecutive octets of its real
      payload, or only in its CRC, is refused by unwrap with a CRC error. */
  lemma WrapTamperingRejected(e: Envelope, i: Info, messageTs: Option<u64>, payload: seq<byte>, g: seq<byte>, lo: nat)
    requires ValidEnvelope(e) && Wrappable(i, payload)
    requires i.msgType == GBB || (i.msgType == ABB && !i.mtv)
    requires var f, at := Wrapped(e, i, messageTs, payload), FixedLen(i.msgType) + RealLen(i, payload);
             && |g| == |f| && g != f && at + 4 <= |f|
             && f[..FixedLen(i.msgType)] == g[..FixedLen(i.msgType)]
             && ((ShiftRegister.DifferOnlyWithin(f, g, lo, 4) && f[at..] == g[at..])
                 || (f[..at] == g[..at] && f[at + 4..] == g[at + 4..]))
    ensures UnwrapResult(e, g).verdict == CrcError
  {
    hide DecodeInfo, EncodeInfo, Wrapped, UnwrapResult, Plain, Coverage, Crc32.Crc, Acf.ReservedClear, AddQuadlet;
    hide Base, ShiftRegister.DifferOnlyWithin;
    var f := Wrapped(e, i, messageTs, payload);
    WrappedLayout(e, i, messageTs, payload);
    SentKeepsType(i, payload);
    assert f[..HEADER_LEN] == f[..FixedLen(i.msgType)][..HEADER_LEN]
        && g[..HEADER_LEN] == g[..FixedLen(i.msgType)][..HEADER_LEN];
    SameHeader(f, g);
    if i.msgType == GBB {
      UnwrapWrapGbb(e, i, messageTs, payload);
    } else {
      UnwrapWrapAbbIff(e, i, messageTs, payload);
    }
    VisibleWithClear(f, g);
    TamperingRejected(e, f, g, lo);
  }

  lemma VisibleWithClear(f: seq<byte>, g: seq<byte>)
    requires |f| == |g| >= HEADER_LEN && f != g && Acf.ReservedClear(f) && Acf.ReservedClear(g)
    ensures Visible(f, g)
  {
    hide Visible, Acf.ReservedClear;
    ClearIsCanonical(f);
    ClearIsCanonical(g);
    VisibleIsCanonical(f, g);
  }

  lemma SentKeepsType(i: Info, payload: seq<byte>)
    requires i.pad <= |payload| && (i.msgType == GBB || i.msgType == ABB)
    ensures Sent(AddQuadlet(Base(i, payload))).msgType == i.msgType
  {
    BaseChangesLength(i, payload);
  }

  lemma SameResult(e: Envelope, f: seq<byte>, g: seq<byte>)
    requires ValidEnvelope(e) && |f| >= HEADER_LEN && |g| >= HEADER_LEN
    requires DecodeInfo(f) == DecodeInfo(g) && f[HEADER_LEN..] == g[HEADER_LEN..]
    ensures UnwrapResult(e, f) == UnwrapResult(e, g)
  {
    hide DecodeInfo, EncodeInfo, Preamble, Crc32.Crc, GetU32, GetU64, Head, Coverage;
    assert |f[HEADER_LEN..]| == |g[HEADER_LEN..]|;
    assert CrcOffset(f) == CrcOffset(g);
    if CrcOffset(f).Some? {
      var at, h := CrcOffset(f).value, FixedLen(DecodeInfo(f).msgType);
      SameSlice(f, g, h, at);
      SameSlice(f, g, at, at + 4);
      SameSlice(f, g, at + 4, |f|);
      SameSlice(f, g, HEADER_LEN, h);
      assert FrameTimestamp(f) == FrameTimestamp(g);
      assert FrameCrc(e, f) == FrameCrc(e, g);
      assert f[at + 4..] == f[at + 4..|f|] && g[at + 4..] == g[at + 4..|g|];
    }
  }

  /** The reserved bits themselves are outside the CRC. Two frames that agree after the
      header and decode to the same one get the same result; and of an accepted frame, a
      header changed within four octets goes unnoticed exactly when it decodes to the same
      header. */
  lemma ReservedBitsUncovered(e: Envelope, f: seq<byte>, g: seq<byte>, lo: nat)
    requires ValidEnvelope(e) && |f| >= HEADER_LEN && |g| >= HEADER_LEN && f[HEADER_LEN..] == g[HEADER_LEN..]
    ensures DecodeInfo(f) == DecodeInfo(g) ==> UnwrapResult(e, f) == UnwrapResult(e, g)
    ensures UnwrapResult(e, f).verdict == Accepted && CrcOffset(g) == CrcOffset(f)
        && ShiftRegister.DifferOnlyWithin(f, g, lo, 4)
        ==> (UnwrapResult(e, g).verdict == Accepted <==> DecodeInfo(f) == DecodeInfo(g))
  {
    hide DecodeInfo, EncodeInfo, UnwrapResult, CrcOffset, ShiftRegister.DifferOnlyWithin;
    if DecodeInfo(f) == DecodeInfo(g) {
      SameResult(e, f, g);
    }
    if UnwrapResult(e, f).verdict == Accepted && CrcOffset(g) == CrcOffset(f)
        && ShiftRegister.DifferOnlyWithin(f, g, lo, 4) {
      AcceptedHasCrc(e, f);
      var at := CrcOffset(f).value;
      SameTail(f, g, at);
      TamperingRejected(e, f, g, lo);
    }
  }

  lemma AcceptedHasCrc(e: Envelope, f: seq<byte>)
    requires ValidEnvelope(e) && UnwrapResult(e, f).verdict == Accepted
    ensures CrcOffset(f).Some?
  {
  }

  /** A concrete unnoticed change: any accepted wrapping of four zero octets under a
      default header, with one reserved bit set on the way. */
  lemma ReservedBitUnnoticed(e: Envelope)
    requires ValidEnvelope(e)
    ensures var f := Wrapped(e, NewInfo(0, false, true, 0), None, [0, 0, 0, 0]);
            |f| >= HEADER_LEN && f[2] == 0 && f[2 := 8] != f
            && UnwrapResult(e, f).verdict == Accepted && UnwrapResult(e, f[2 := 8]) == UnwrapResult(e, f)
  {
    hide Wrapped, UnwrapResult, Plain, EncodeInfo, Coverage, Crc32.Crc;
    var i := NewInfo(0, false, true, 0);
    DefaultWrappable(i);
    UnwrapWrapAbbIff(e, i, None, [0, 0, 0, 0]);
    WrappedLayout(e, i, None, [0, 0, 0, 0]);
    var f := Wrapped(e, i, None, [0, 0, 0, 0]);
    ThirdOctet(i, f);
    SameResult(e, f, f[2 := 8]);
  }

  lemma DefaultWrappable(i: Info)
    requires i == NewInfo(0, false, true, 0)
    ensures Wrappable(i, [0, 0, 0, 0])
  {
  }

  lemma ThirdOctet(i: Info, f: seq<byte>)
    requires i == NewInfo(0, false, true, 0)
    requires |f| >= HEADER_LEN && DecodeInfo(f) == Narrowed(Sent(AddQuadlet(Base(i, [0, 0, 0, 0]))))
        && Acf.ReservedClear(f)
    ensures f[2] == 0 && DecodeInfo(f[2 := 8]) == DecodeInfo(f) && f[2 := 8][HEADER_LEN..] == f[HEADER_LEN..]
  {
    assert f[2] / 64 == 0 && f[2] / 32 % 2 == 0 && f[2] / 8 % 4 == 0 && f[2] as int % 8 * 0x100 + f[3] as int == 0;
  }

  lemma SameSlice(f: seq<byte>, g: seq<byte>, a: nat, b: nat)
    requires HEADER_LEN <= a <= b <= |f| && HEADER_LEN <= |g| && f[HEADER_LEN..] == g[HEADER_LEN..]
    ensures |f| == |g| && f[a..b] == g[a..b]
  {
    assert |f[HEADER_LEN..]| == |g[HEADER_LEN..]|;
    forall k | a <= k < b ensures f[k] == g[k] {
      assert f[k] == f[HEADER_LEN..][k - HEADER_LEN] && g[k] == g[HEADER_LEN..][k - HEADER_LEN];
    }
  }

  /** A receiver that disagrees with the sender about the presentation time only refuses
      the frame, unless the missing time stands in for an explicit zero. */
  lemma WrongTimestampRejected(e: Envelope, f: seq<byte>, timestamp: Option<u32>)
    requires ValidEnvelope(e) && UnwrapResult(e, f).verdict == Accepted
    requires ValueOr(timestamp, 0) != ValueOr(e.timestamp, 0)
    ensures UnwrapResult(e.(timestamp := timestamp), f).verdict == CrcError
  {
    hide DecodeInfo, EncodeInfo, Crc32.Crc, Head;
    var e' := e.(timestamp := timestamp);
    var i := DecodeInfo(f);
    var body := f[FixedLen(i.msgType)..CrcOffset(f).value];
    var a, b := Coverage(e, i, FrameTimestamp(f), body), Coverage(e', i, FrameTimestamp(f), body);
    PutGetU32(ValueOr(timestamp, 0));
    PutGetU32(ValueOr(e.timestamp, 0));
    assert a[11..15] == PutU32(ValueOr(e.timestamp, 0)) && b[11..15] == PutU32(ValueOr(timestamp, 0));
    Crc32.DetectsFourOctets(a, b, 11);
  }

  // ---- A frame belongs to one stream, one framing and one presentation time.

  /** Where each outer-header input sits in the CRC's first fifteen octets. */
  lemma PreambleLayout(e: Envelope)
    requires ValidEnvelope(e)
    ensures var p := Preamble(e);
            && p[0] == e.subtype && p[1] == e.octet1 && p[2] == (if e.tu then 1 else 0)
            && p[3..9] == e.streamId.mac
            && p[9..11] == PutU16(e.streamId.suffix)
            && p[11..15] == PutU32(ValueOr(e.timestamp, 0))
  {
    hide PutU64, PutU32, PutU16, Avtp.ToU64;
    Avtp.StreamIdOctets(e.streamId);
    PreambleSlices([e.subtype, e.octet1, if e.tu then 1 else 0], e.streamId.mac, PutU16(e.streamId.suffix),
        PutU32(ValueOr(e.timestamp, 0)));
  }

  lemma PreambleSlices(head: seq<byte>, mac: seq<byte>, suffix: seq<byte>, time: seq<byte>)
    requires |head| == 3 && |mac| == 6 && |suffix| == 2 && |time| == 4
    ensures var p := head + (mac + suffix) + time;
            p[..3] == head && p[3..9] == mac && p[9..11] == suffix && p[11..15] == time
  {
    var p := head + (mac + suffix) + time;
    assert p == [] + head + (mac + suffix + time) && p == head + mac + (suffix + time);
    assert p == (head + mac) + suffix + time && p == (head + mac + suffix) + time + [];
    MiddleSlice([], head, mac + suffix + time);
    MiddleSlice(head, mac, suffix + time);
    MiddleSlice(head + mac, suffix, time);
    MiddleSlice(head + mac + suffix, time, []);
  }

  lemma MiddleSlice(a: seq<byte>, b: seq<byte>, c: seq<byte>)
    ensures (a + b + c)[|a|..|a| + |b|] == b
  {
  }

  /** Receivers that agree on the identifier, the header octets and the presentation time --
      a missing one standing for zero. */
  predicate SameOuter(e: Envelope, o: Envelope) {
    o.subtype == e.subtype && o.octet1 == e.octet1 && o.tu == e.tu && o.streamId == e.streamId
    && ValueOr(o.timestamp, 0) == ValueOr(e.timestamp, 0)
  }

  lemma PreambleInjective(e: Envelope, o: Envelope)
    requires ValidEnvelope(e) && ValidEnvelope(o)
    ensures Preamble(e) == Preamble(o) <==> SameOuter(e, o)
  {
    hide Preamble, PutBE, GetBE;
    PreambleLayout(e);
    PreambleLayout(o);
    PutGetU16(e.streamId.suffix);
    PutGetU16(o.streamId.suffix);
    PutGetU32(ValueOr(e.timestamp, 0));
    PutGetU32(ValueOr(o.timestamp, 0));
    if SameOuter(e, o) {
      SamePreamble(e, o);
    }
  }

  lemma SamePreamble(e: Envelope, o: Envelope)
    requires ValidEnvelope(e) && ValidEnvelope(o) && SameOuter(e, o)
    ensures Preamble(e) == Preamble(o)
  {
  }

  /** An accepted frame, taken by a receiver whose outer-header octets differ within four
      consecutive ones only: it is accepted exactly when they do not differ at all. */
  lemma OtherEnvelopeIff(e: Envelope, o: Envelope, f: seq<byte>, lo: nat)
    requires ValidEnvelope(e) && ValidEnvelope(o) && UnwrapResult(e, f).verdict == Accepted
    requires ShiftRegister.DifferOnlyWithin(Preamble(e), Preamble(o), lo, 4)
    ensures UnwrapResult(o, f).verdict == Accepted <==> SameOuter(e, o)
    ensures UnwrapResult(o, f).verdict == CrcError <==> !SameOuter(e, o)
  {
    hide DecodeInfo, EncodeInfo, Crc32.Crc, Head, Preamble, SameOuter;
    PreambleInjective(e, o);
    var i := DecodeInfo(f);
    var covered := Head(i, ValueOr(FrameTimestamp(f), 0)) + f[FixedLen(i.msgType)..CrcOffset(f).value];
    if Preamble(e) != Preamble(o) {
      PreambleChangeSeen(Preamble(e), Preamble(o), covered, lo);
    }
  }

  lemma PreambleChangeSeen(p: seq<byte>, q: seq<byte>, covered: seq<byte>, lo: nat)
    requires ShiftRegister.DifferOnlyWithin(p, q, lo, 4) && p != q
    ensures Crc32.Crc(p + covered) != Crc32.Crc(q + covered)
  {
    hide Crc32.Crc;
    var a, b := p + covered, q + covered;
    assert a[..|p|] == p && b[..|p|] == q;
    Crc32.DetectsFourOctets(a, b, lo);
  }

  /** A receiver of another stream refuses the frame: one that differs in the suffix and the
      last two MAC octets, or anywhere in four consecutive MAC octets. */
  lemma WrongStreamRejected(e: Envelope, f: seq<byte>, id: Avtp.StreamId, lo: nat)
    requires ValidEnvelope(e) && Avtp.ValidId(id) && UnwrapResult(e, f).verdict == Accepted
    requires id != e.streamId
    requires || id.mac[..4] == e.streamId.mac[..4]
             || (id.suffix == e.streamId.suffix && ShiftRegister.DifferOnlyWithin(e.streamId.mac, id.mac, lo, 4))
    ensures UnwrapResult(e.(streamId := id), f).verdict == CrcError
  {
    hide UnwrapResult, Preamble, PutBE;
    var o := e.(streamId := id);
    PreambleLayout(e);
    PreambleLayout(o);
    var p, q := Preamble(e), Preamble(o);
    var at := if id.mac[..4] == e.streamId.mac[..4] then 7 else 3 + lo;
    PreambleOctets(p, q, at);
    OtherEnvelopeIff(e, o, f, at);
  }

  /** Preambles whose header octets and presentation time agree are compared by identifier. */
  lemma PreambleOctets(p: seq<byte>, q: seq<byte>, at: nat)
    requires |p| == 15 && |q| == 15 && p[..3] == q[..3] && p[11..15] == q[11..15]
    requires (at == 7 && p[3..9][..4] == q[3..9][..4])
          || (at >= 3 && p[9..11] == q[9..11] && ShiftRegister.DifferOnlyWithin(p[3..9], q[3..9], at - 3, 4))
    ensures ShiftRegister.DifferOnlyWithin(p, q, at, 4)
  {
    forall k | 0 <= k < 15 && !(at <= k < at + 4)
      ensures p[k] == q[k]
    {
      if k < 3 {
        assert p[k] == p[..3][k] && q[k] == q[..3][k];
      } else if k < 9 {
        assert p[k] == p[3..9][k - 3] && q[k] == q[3..9][k - 3];
        if p[3..9][..4] == q[3..9][..4] && k < 7 {
          assert p[3..9][k - 3] == p[3..9][..4][k - 3] && q[3..9][k - 3] == q[3..9][..4][k - 3];
        }
      } else if k < 11 {
        assert p[k] == p[9..11][k - 9] && q[k] == q[9..11][k - 9];
      } else {
        assert p[k] == p[11..15][k - 11] && q[k] == q[11..15][k - 11];
      }
    }
  }

  /** So does a receiver that disagrees about the subtype, the second header octet, the
      uncertain-time flag or any combination of them. */
  lemma WrongHeaderRejected(e: Envelope, f: seq<byte>, subtype: byte, octet1: byte, tu: bool)
    requires ValidEnvelope(e) && UnwrapResult(e, f).verdict == Accepted
    requires subtype != e.subtype || octet1 != e.octet1 || tu != e.tu
    ensures UnwrapResult(e.(subtype := subtype, octet1 := octet1, tu := tu), f).verdict == CrcError
  {
    hide UnwrapResult, PutBE, GetBE, Avtp.ToU64;
    var o := e.(subtype := subtype, octet1 := octet1, tu := tu);
    var p, q := Preamble(e), Preamble(o);
    assert forall k :: 4 <= k < 15 ==> p[k] == q[k];
    OtherEnvelopeIff(e, o, f, 0);
  }

  /** Under TSCF framing the receiver's tu and presentation time do matter, and a frame
      accepted under NTSCF is refused under TSCF. */
  lemma FramingMatters(octet1: byte, tu: bool, streamId: Avtp.StreamId, timestamp: Option<u32>, f: seq<byte>,
                       tu': bool, timestamp': Option<u32>)
    requires Avtp.ValidId(streamId)
    ensures UnwrapResult(Framed(false, octet1, tu, streamId, timestamp), f).verdict == Accepted
        ==> && UnwrapResult(Framed(false, octet1, !tu, streamId, timestamp), f).verdict == CrcError
            && (ValueOr(timestamp', 0) != ValueOr(timestamp, 0)
                ==> UnwrapResult(Framed(false, octet1, tu, streamId, timestamp'), f).verdict == CrcError)
    ensures UnwrapResult(Framed(true, octet1, tu, streamId, timestamp), f).verdict == Accepted
        ==> UnwrapResult(Framed(false, octet1, tu', streamId, None), f).verdict == CrcError
  {
    hide UnwrapResult;
    var e, n := Framed(false, octet1, tu, streamId, timestamp), Framed(true, octet1, tu, streamId, timestamp);
    if UnwrapResult(e, f).verdict == Accepted {
      WrongHeaderRejected(e, f, e.subtype, octet1, !tu);
      if ValueOr(timestamp', 0) != ValueOr(timestamp, 0) {
        WrongTimestampRejected(e, f, timestamp');
      }
    }
    if UnwrapResult(n, f).verdict == Accepted {
      WrongHeaderRejected(n, f, Avtp.SUBTYPE_TSCF, octet1, tu');
    }
  }

  /** A concrete frame that its own receiver refuses: mtv was set on an ACF_ABB header. */
  lemma MtvRefused(e: Envelope)
    requires ValidEnvelope(e)
    ensures var i := NewInfo(0, false, true, 0).(mtv := true);
            UnwrapResult(e, Wrapped(e, i, None, [0, 0, 0, 0])).verdict == CrcError
  {
    hide Wrapped, UnwrapResult, Plain;
    UnwrapWrapAbbIff(e, NewInfo(0, false, true, 0).(mtv := true), None, [0, 0, 0, 0]);
  }
}
