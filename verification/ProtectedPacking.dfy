/** Several protected messages in one frame: the CRC trailer of include/rcp/e2e.hpp under the
    splitting of include/rcp/acf.hpp. */
module ProtectedPacking {
  import opened Bytes
  import opened Wrappers
  import opened Acf
  import opened E2e
  import Crc32

  /** One message to protect, with its padded payload. */
  datatype Job = Job(e: Envelope, info: Info, messageTs: Option<u64>, payload: seq<byte>)

  /** In range, length left to be filled in, padded to whole quadlets, and short enough for
      the CRC to fit the nine-bit length too. */
  predicate Protectable(j: Job) {
    && ValidEnvelope(j.e) && InRange(j.info) && j.info.msgLength == 0
    && (j.info.msgType == GBB || (j.info.msgType == ABB && !j.info.mtv))
    && j.info.pad <= |j.payload| && |j.payload| % 4 == 0
    && FixedLen(j.info.msgType) + |j.payload| + 4 <= MAX_QUADLETS * 4
  }

  function Frame(j: Job): seq<byte>
    requires Protectable(j)
  {
    Wrapped(j.e, j.info, j.messageTs, j.payload)
  }

  /** What the receiver should get out of it. */
  function Expected(j: Job): Unwrapped
    requires Protectable(j)
  {
    Unwrapped(Accepted, Plain(j.info, j.messageTs, j.payload))
  }

  function JoinedFrames(js: seq<Job>): seq<byte>
    requires forall i :: 0 <= i < |js| ==> Protectable(js[i])
    decreases |js|
  {
    if js == [] then [] else Frame(js[0]) + JoinedFrames(js[1..])
  }

  /** A protected frame read as an ordinary message: CRC and pad octets are payload. */
  function AsMessage(j: Job): Message
    requires Protectable(j)
  {
    var i := AddQuadlet(Base(j.info, j.payload));
    var body := j.payload[..RealLen(j.info, j.payload)];
    Message(i, if j.info.msgType == GBB then ValueOr(j.messageTs, 0) else 0,
            body + PutU32(Crc32.Crc(Coverage(j.e, i, j.messageTs, body))) + j.payload[RealLen(j.info, j.payload)..])
  }

  lemma PaddedLength(j: Job)
    requires Protectable(j)
    ensures var n := (FixedLen(j.info.msgType) + |j.payload|) / 4;
            Base(j.info, j.payload).msgLength == n && n * 4 == FixedLen(j.info.msgType) + |j.payload| && 2 <= n <= 510
  {
    hide InRange, ValidEnvelope;
    assert j.info.pad < 4 by { PadNarrow(j.info); }
    assert FixedLen(j.info.msgType) % 4 == 0;
    var n := (FixedLen(j.info.msgType) + |j.payload|) / 4;
    assert FixedLen(j.info.msgType) + RealLen(j.info, j.payload) + 3 == n * 4 + (3 - j.info.pad as int);
  }

  lemma PadNarrow(i: Info)
    requires InRange(i)
    ensures i.pad < 4
  {
  }

  lemma ExactWrapped(j: Job)
    requires Protectable(j)
    ensures Exact(AsMessage(j)) && EncodeMessage(AsMessage(j)) == Frame(j)
    ensures UnwrapResult(j.e, Frame(j)) == Expected(j)
  {
    hide EncodeInfo, DecodeInfo, Coverage, Crc32.Crc, PutU32, PutU64, ComputeLength, UnwrapResult, Plain, Wrapped;
    PaddedLength(j);
    PadNarrow(j.info);
    var n := Base(j.info, j.payload).msgLength;
    BaseChangesLength(j.info, j.payload);
    WithLengthFields(j.info, n, n + 1);
    FilledInRange(j.info, n + 1);
    var m := AsMessage(j);
    assert m.info == WithLength(j.info, n + 1) && FillLength(m.info, |m.payload|) == m.info;
    assert |m.payload| == |j.payload| + 4;
    WrappedParts(j.e, j.info, j.messageTs, j.payload);
    EncodedParts(m);
    SentSame(m.info);
    Regroup(EncodeInfo(m.info) + (if j.info.msgType == GBB then PutU64(ValueOr(j.messageTs, 0)) else []),
            j.payload[..RealLen(j.info, j.payload)],
            PutU32(Crc32.Crc(Coverage(j.e, m.info, j.messageTs, j.payload[..RealLen(j.info, j.payload)]))),
            j.payload[RealLen(j.info, j.payload)..]);
    if j.info.msgType == GBB {
      UnwrapWrapGbb(j.e, j.info, j.messageTs, j.payload);
    } else {
      UnwrapWrapAbbIff(j.e, j.info, j.messageTs, j.payload);
    }
  }

  lemma SentSame(i: Info)
    requires i.msgType == GBB || (i.msgType == ABB && !i.mtv)
    ensures Sent(i) == i
  {
  }

  lemma Regroup(h: seq<byte>, b: seq<byte>, c: seq<byte>, p: seq<byte>)
    ensures h + b + c + p == h + (b + c + p)
  {
  }

  /** Protected messages survive packing: the frames laid end to end split back into one
      entry each; every entry, encoded again, is the frame octet for octet, and unwrap
      accepts it. */
  lemma {:induction false} ProtectedFramesSplit(js: seq<Job>)
    requires forall i :: 0 <= i < |js| ==> Protectable(js[i])
    ensures var ms := Split(JoinedFrames(js));
            |ms| == |js| && forall i :: 0 <= i < |js| ==>
              EncodeMessage(ms[i]) == Frame(js[i]) && UnwrapResult(js[i].e, EncodeMessage(ms[i])) == Expected(js[i])
    decreases |js|
  {
    hide Frame, AsMessage, Exact, EncodeMessage, Split, UnwrapResult, Expected;
    hide FixedLen, InRange, ValidEnvelope;
    if js == [] {
      SplitStep([], 0);
    } else {
      ExactWrapped(js[0]);
      ExactFront(AsMessage(js[0]), JoinedFrames(js[1..]));
      ProtectedFramesSplit(js[1..]);
      var ms := Split(JoinedFrames(js));
      assert ms[1..] == Split(JoinedFrames(js[1..]));
      forall i | 0 <= i < |js|
        ensures EncodeMessage(ms[i]) == Frame(js[i]) && UnwrapResult(js[i].e, EncodeMessage(ms[i])) == Expected(js[i])
      {
        if i > 0 {
          assert js[i] == js[1..][i - 1] && ms[i] == ms[1..][i - 1];
        }
      }
    }
  }
}
