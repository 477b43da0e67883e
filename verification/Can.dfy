/** CAN frame responses: the leading quadlet, the CAN XL header, and responses cut into
    fragments (include/rcp/can.hpp). */
module Can {
  import opened Bytes
  import opened Wrappers
  import opened Acf
  import Fragment

  const XL_CLASSICAL_PL: byte := 4
  const XL_NEW_PL: byte := 5
  const ID_SPACE: nat := 0x2000_0000
  const PREFIX_LEN: nat := 4
  const XL_HEADER_LEN: nat := 6
  const MAX_SEGMENTS: nat := 256

  predicate FormatValid(format: byte) { format <= XL_NEW_PL }

  predicate IsXl(format: byte) { format == XL_CLASSICAL_PL || format == XL_NEW_PL }

  /** CEFF and FEFF carry 29-bit identifiers, every other format 11-bit ones. */
  predicate Extended(format: byte) { format == 1 || format == 3 }

  predicate IdValid(format: byte, id: u32) {
    FormatValid(format) && if Extended(format) then id < ID_SPACE else id < 0x800
  }

  function MaxData(format: byte): nat {
    if format <= 1 then 8 else if format <= 3 then 64 else if IsXl(format) then 2048 else 0
  }

  datatype XlHeader = XlHeader(sdt: byte, vcid: byte, af: u32)
  datatype Frame = Frame(format: byte, id: u32, xl: Option<XlHeader>, data: seq<byte>)
  datatype CanError = ShortFrame | CanBadMsgType | WrongBus | BadEvt | BadFrameFormat | BadArbitrationId
  datatype CanResult<+T> = CanOk(value: T) | CanErr(error: CanError)

  predicate Encodable(f: Frame) {
    FormatValid(f.format) && IdValid(f.format, f.id) && |f.data| <= MaxData(f.format)
        && (IsXl(f.format) <==> f.xl.Some?)
  }

  // ---- The combined payload: quadlet, XL header, data.

  function PrefixLen(format: byte): nat {
    if IsXl(format) then PREFIX_LEN + XL_HEADER_LEN else PREFIX_LEN
  }

  function Prefix(f: Frame): (b: seq<byte>)
    requires IsXl(f.format) <==> f.xl.Some?
    requires f.format < 8
    ensures |b| == PrefixLen(f.format)
  {
    PutU32(f.format * ID_SPACE + f.id % ID_SPACE)
    + if f.xl.Some? then [f.xl.value.sdt, f.xl.value.vcid] + PutU32(f.xl.value.af) else []
  }

  function Combined(f: Frame): (b: seq<byte>)
    requires IsXl(f.format) <==> f.xl.Some?
    requires f.format < 8
    ensures |b| == PrefixLen(f.format) + |f.data|
  {
    Prefix(f) + f.data
  }

  function Parse(b: seq<byte>): CanResult<Frame> {
    if |b| < PREFIX_LEN then CanErr(ShortFrame) else
    var word := GetU32(b[..PREFIX_LEN]);
    var format, id := word / ID_SPACE, word % ID_SPACE;
    if !FormatValid(format) then CanErr(BadFrameFormat)
    else if |b| < PrefixLen(format) then CanErr(ShortFrame)
    else if !IdValid(format, id) then CanErr(BadArbitrationId)
    else CanOk(Frame(format, id, if IsXl(format) then Some(XlHeader(b[4], b[5], GetU32(b[6..10]))) else None,
                     b[PrefixLen(format)..]))
  }

  lemma ParseCombined(f: Frame)
    requires FormatValid(f.format) && IdValid(f.format, f.id) && (IsXl(f.format) <==> f.xl.Some?)
    ensures Parse(Combined(f)) == CanOk(f)
  {
    hide PutU32, GetU32;
    var word := f.format * ID_SPACE + f.id % ID_SPACE;
    assert word / ID_SPACE == f.format && word % ID_SPACE == f.id;
    var b := Combined(f);
    assert b[..PREFIX_LEN] == PutU32(word);
    PutGetU32(word);
    assert b[PrefixLen(f.format)..] == f.data;
    if f.xl.Some? {
      assert b[6..10] == PutU32(f.xl.value.af);
      PutGetU32(f.xl.value.af);
    }
  }

  /** The octets of the combined payload. */
  lemma CombinedLayout(f: Frame)
    requires FormatValid(f.format) && IdValid(f.format, f.id) && (IsXl(f.format) <==> f.xl.Some?)
    ensures var b := Combined(f);
            && b[0..4] == PutU32(f.format as int * 0x2000_0000 + f.id as int)
            && (f.xl.None? ==> b[4..] == f.data)
            && (f.xl.Some? ==>
                  && b[4] == f.xl.value.sdt && b[5] == f.xl.value.vcid
                  && b[6..10] == PutU32(f.xl.value.af) && b[10..] == f.data)
  {
    hide PutU32;
  }

  /** Whatever parses is the layout of exactly the frame it parses to. */
  lemma CombinedParse(b: seq<byte>)
    requires Parse(b).CanOk?
    ensures var f := Parse(b).value;
            IdValid(f.format, f.id) && (IsXl(f.format) <==> f.xl.Some?) && Combined(f) == b
  {
    hide PutU32, GetU32;
    var f := Parse(b).value;
    var word := GetU32(b[..PREFIX_LEN]);
    GetPutU32(b[..PREFIX_LEN]);
    assert f.format * ID_SPACE + f.id == word;
    if IsXl(f.format) {
      GetPutU32(b[6..10]);
      assert b == b[..PREFIX_LEN] + ([b[4], b[5]] + b[6..10]) + b[10..];
    } else {
      assert b[..PREFIX_LEN] + [] == b[..PREFIX_LEN];
      assert b == b[..PREFIX_LEN] + b[PREFIX_LEN..];
    }
  }

  /** Which octets parse, and what is wrong with the others: the format is the first octet's
      upper three bits, the identifier the 29 bits behind them, of which all but CEFF and
      FEFF may use eleven only. */
  lemma ParseRefusals(b: seq<byte>)
    ensures |b| < 4 ==> Parse(b) == CanErr(ShortFrame)
    ensures |b| >= 4 ==>
      var format := b[0] / 32;
      var id := b[0] as int % 32 * 0x100_0000 + b[1] as int * 0x1_0000 + b[2] as int * 0x100 + b[3] as int;
      var xlCut, wide := format in {4, 5} && |b| < 10, format != 1 && format != 3 && id >= 0x800;
      && (Parse(b) == CanErr(BadFrameFormat) <==> format > 5)
      && (Parse(b) == CanErr(ShortFrame) <==> xlCut)
      && (Parse(b) == CanErr(BadArbitrationId) <==> format <= 5 && !xlCut && wide)
      && (Parse(b).CanOk? <==> format <= 5 && !xlCut && !wide)
      && (Parse(b).CanOk? ==> Parse(b).value.format as int == format && Parse(b).value.id as int == id)
  {
    hide GetU32;
    if |b| >= 4 {
      FourOctets(b[..4]);
      LeadingBits(b[0], b[1] as int * 0x1_0000 + b[2] as int * 0x100 + b[3] as int, GetU32(b[..4]));
    }
  }

  lemma LeadingBits(first: nat, rest: nat, word: nat)
    requires first < 0x100 && rest < 0x100_0000 && word == first * 0x100_0000 + rest
    ensures word / ID_SPACE == first / 32 && word % ID_SPACE == first % 32 * 0x100_0000 + rest
  {
    var q, r := first / 32, first % 32;
    assert word == q * ID_SPACE + (r * 0x100_0000 + rest);
  }

  /** Which frames can be sent at all: six formats; 29-bit identifiers in CEFF and FEFF,
      11-bit ones elsewhere; 8 octets of data in the two classical formats, 64 in the two FD
      ones, 2048 in the two XL ones; an XL header exactly in the latter. */
  lemma EncodableIff(r: Route, f: Frame)
    ensures EncodeResponse(r, f) != [] <==>
      && f.format <= 5 && f.id < (if f.format == 1 || f.format == 3 then 0x2000_0000 else 0x800)
      && |f.data| <= [8, 8, 64, 64, 2048, 2048][f.format]
      && (f.xl.Some? <==> f.format == 4 || f.format == 5)
  {
    hide EncodeInfo, PutU32, PutU64, ComputeLength;
  }

  // ---- Responses, whole and in fragments.

  /** What every fragment of one response shares. */
  datatype Route = Route(busId: u16, txn: byte, timed: bool, timestamp: u64)

  function ResponseInfo(r: Route, ms: bool, num: u16): Info {
    NewInfo(r.busId, false, true, r.txn).(mtv := r.timed, ms := ms, readSize := if ms then num else 0)
  }

  function EncodePiece(r: Route, p: Fragment.Piece): seq<byte> {
    if r.timed then EncodeGbb(ResponseInfo(r, p.ms, p.num), r.timestamp, p.data)
    else EncodeAbb(ResponseInfo(r, p.ms, p.num), p.data)
  }

  /** The unfragmented encoder; empty when the frame is not encodable. */
  function EncodeResponse(r: Route, f: Frame): seq<byte> {
    if !Encodable(f) then []
    else if r.timed then EncodeGbb(NewInfo(r.busId, false, true, r.txn).(mtv := true), r.timestamp, Combined(f))
    else EncodeAbb(NewInfo(r.busId, false, true, r.txn), Combined(f))
  }

  function FragmentCount(f: Frame, maxFragment: Fragment.size): nat {
    if !Encodable(f) then 0 else
    var n := Fragment.PlanCount(|Combined(f)|, maxFragment);
    if n > MAX_SEGMENTS then 0 else n
  }

  function PlannedPieces(f: Frame, maxFragment: Fragment.size): seq<Fragment.Piece>
    requires FragmentCount(f, maxFragment) > 0
  {
    Fragment.PlanCoversPayload(Combined(f), maxFragment);
    Fragment.Pieces(Combined(f), Fragment.PlanOf(|Combined(f)|, maxFragment))
  }

  function EncodePieces(r: Route, ps: seq<Fragment.Piece>): (frames: seq<seq<byte>>)
    ensures |frames| == |ps|
  {
    seq(|ps|, i requires 0 <= i < |ps| => EncodePiece(r, ps[i]))
  }

  method EncodeResponseFragmented(r: Route, f: Frame, maxFragment: Fragment.size) returns (frames: seq<seq<byte>>)
    ensures FragmentCount(f, maxFragment) == 0 ==> frames == []
    ensures FragmentCount(f, maxFragment) > 0 ==> frames == EncodePieces(r, PlannedPieces(f, maxFragment))
  {
    hide EncodePiece, Combined, Fragment.PlanCount, Fragment.PlanOf;
    var count := FragmentCount(f, maxFragment);
    if count == 0 {
      return [];
    }
    var combined := Combined(f);
    var segs := new Fragment.Segment[MAX_SEGMENTS](_ => Fragment.Segment(0, 0, false, 0));
    var error := Fragment.Plan(|combined|, maxFragment, segs, count);
    ghost var ps := PlannedPieces(f, maxFragment);
    Fragment.PlanCoversPayload(combined, maxFragment);
    frames := [];
    for i := 0 to count
      invariant frames == EncodePieces(r, ps)[..i]
      invariant segs[..count] == Fragment.PlanOf(|combined|, maxFragment)
    {
      var s := segs[i];
      assert s == segs[..count][i];
      var slice := combined[s.offset..s.offset + s.len];
      frames := frames + [EncodePiece(r, Fragment.Piece(s.ms, s.num, slice))];
    }
    assert frames == EncodePieces(r, ps);
  }

  /** How many fragments a frame takes: none at all exactly when it cannot be sent or not in
      256 fragments; the plan's own limits never interfere. */
  lemma FragmentableIff(f: Frame, maxFragment: Fragment.size)
    ensures FragmentCount(f, maxFragment) > 0 <==> Encodable(f) && |Combined(f)| <= 256 * maxFragment
    ensures var n := FragmentCount(f, maxFragment);
            n > 0 ==> (n - 1) * maxFragment < |Combined(f)| && (n > 1 ==> |Combined(f)| <= n * maxFragment)
  {
    hide Combined, Fragment.PlanCount;
    if Encodable(f) {
      CombinedFits(f);
      var n := Fragment.PlanCount(|Combined(f)|, maxFragment);
      Fragment.PlanCountZeroIff(|Combined(f)|, maxFragment);
      if n > 0 {
        Fragment.MulMono(256, n - 1, maxFragment);
        Fragment.MulMono(n, 256, maxFragment);
      }
    }
  }

  /** One received fragment: what the reassembler needs, and the shared header fields. */
  datatype Received = Received(piece: Fragment.Piece, timed: bool, timestamp: u64, txn: byte)

  function DecodeFragment(b: seq<byte>, busId: u16): CanResult<Received> {
    if |b| < 1 then CanErr(ShortFrame) else
    var gbb := PeekType(b) == GBB;
    var m := if gbb then DecodeGbb(b) else DecodeAbb(b);
    if m == Err(ShortBuffer) then CanErr(ShortFrame)
    else if m.Err? then CanErr(CanBadMsgType)
    else
      var i := m.value.info;
      if i.busId != busId then CanErr(WrongBus)
      else if i.evtOp != 0 then CanErr(BadEvt)
      else
        var timed := gbb && i.mtv;
        CanOk(Received(Fragment.Piece(i.ms, i.readSize, m.value.payload), timed,
                       if timed then m.value.timestamp else 0, i.txn))
  }

  /** What a receiver on `busId` refuses: frames too short for the header of their type,
      frames of neither type, frames for another bus, and frames with an event operation --
      in that order. */
  lemma FragmentRefusals(b: seq<byte>, busId: u16)
    ensures var d := DecodeFragment(b, busId);
            var headed := (|b| >= 8 && b[0] / 2 == 0x0E) || (|b| >= 16 && b[0] / 2 == 0x0D);
            && (d == CanErr(CanBadMsgType) <==> b != [] && b[0] / 2 != 0x0D && b[0] / 2 != 0x0E)
            && (d == CanErr(ShortFrame) <==> b == [] || (b[0] / 2 in {0x0D, 0x0E} && !headed))
            && (headed ==>
                  var other, event := b[2] as int % 8 * 0x100 + b[3] as int != busId, b[4] / 16 % 8 != 0;
                  && (d == CanErr(WrongBus) <==> other)
                  && (d == CanErr(BadEvt) <==> !other && event)
                  && (d.CanOk? <==> !other && !event))
  {
    hide GetU64;
  }

  /** What an accepted fragment is read as, octet by octet: only an ACF_GBB message with mtv
      set is timed, and only then does its timestamp count. */
  lemma FragmentFields(b: seq<byte>, busId: u16)
    requires DecodeFragment(b, busId).CanOk?
    ensures var f, gbb := DecodeFragment(b, busId).value, b[0] / 2 == 0x0D;
            && |b| >= (if gbb then 16 else 8)
            && f.timed == (gbb && b[2] / 32 % 2 == 1)
            && (if f.timed then PutU64(f.timestamp) == b[8..16] else f.timestamp == 0)
            && f.txn == b[5] && f.piece.ms == (b[6] / 16 % 2 == 1)
            && f.piece.num as int == b[6] as int % 16 * 0x100 + b[7] as int
            && f.piece.data == b[if gbb then 16 else 8..]
  {
    hide PutU64, GetU64;
    if |b| >= 16 {
      GetPutU64(b[8..16]);
    }
  }

  lemma PieceRoundTrip(r: Route, p: Fragment.Piece)
    requires r.busId < 0x800 && p.num < 0x1000
    ensures DecodeFragment(EncodePiece(r, p), r.busId)
         == CanOk(Received(p.(num := if p.ms then p.num else 0), r.timed, if r.timed then r.timestamp else 0, r.txn))
  {
    hide EncodeInfo, DecodeInfo, EncodeGbb, EncodeAbb, DecodeGbb, DecodeAbb, ComputeLength;
    var i := ResponseInfo(r, p.ms, p.num);
    if r.timed {
      GbbRoundTrip(i, r.timestamp, p.data);
      GbbPeek(EncodeGbb(i, r.timestamp, p.data));
    } else {
      AbbRoundTrip(i, p.data);
      AbbPeek(EncodeAbb(i, p.data));
    }
  }

  lemma GbbPeek(b: seq<byte>)
    requires DecodeGbb(b).Ok?
    ensures |b| >= 1 && PeekType(b) == GBB
  {
  }

  lemma AbbPeek(b: seq<byte>)
    requires DecodeAbb(b).Ok?
    ensures |b| >= 1 && PeekType(b) == ABB
  {
  }

  /** The header every fragment travels under: a response of the route's transaction on its
      bus, timed or not, carrying a segment number exactly when more follow. */
  lemma PieceHeader(r: Route, p: Fragment.Piece)
    requires r.busId < 0x800 && p.num < 0x1000
    ensures var b := EncodePiece(r, p);
            && |b| >= HEADER_LEN
            && var i := DecodeInfo(b);
               && i.msgType == (if r.timed then 0x0D else 0x0E) && i.mtv == r.timed && i.busId == r.busId && i.pad == 0
               && i.rsp && !i.op && !i.err && i.ms == p.ms && i.txn == r.txn && i.evtOp == 0 && !i.evtAck
               && !i.hs && !i.cs && i.readSize == if p.ms then p.num else 0
  {
    hide EncodeInfo, DecodeInfo, ComputeLength;
    var i := ResponseInfo(r, p.ms, p.num);
    if r.timed {
      GbbRoundTrip(i, r.timestamp, p.data);
    } else {
      AbbRoundTrip(i, p.data);
    }
  }

  /** The decoded fragments of a response, in order. */
  ghost predicate DecodesTo(frames: seq<seq<byte>>, r: Route, ps: seq<Fragment.Piece>) {
    && |frames| == |ps|
    && forall i :: 0 <= i < |ps| ==>
         DecodeFragment(frames[i], r.busId)
             == CanOk(Received(ps[i], r.timed, if r.timed then r.timestamp else 0, r.txn))
  }

  /** Every encodable frame, for every fragment size that needs at most 256 fragments:
      decoding the fragments and feeding them, with any refused fragments in between, to a
      fresh reassembler first completes at the last one, and parses to the same frame. */
  lemma FragmentedRoundTrip(r: Route, f: Frame, maxFragment: Fragment.size, maxTotal: nat,
                            arrivals: seq<Fragment.Arrival>)
    requires r.busId < 0x800 && FragmentCount(f, maxFragment) > 0
    requires |Combined(f)| <= maxTotal
    requires DecodesTo(EncodePieces(r, PlannedPieces(f, maxFragment)), r, Fragment.WantedOf(arrivals))
    requires Fragment.NoiseRefused(Fragment.Fresh(maxTotal), arrivals) && arrivals != []
        && arrivals[|arrivals| - 1].Wanted?
    ensures Fragment.FirstCompleteAtEnd(Fragment.Reports(Fragment.Fresh(maxTotal), Fragment.Arrived(arrivals)))
    ensures Parse(Fragment.Run(Fragment.Fresh(maxTotal), Fragment.Arrived(arrivals)).data) == CanOk(f)
  {
    hide EncodePiece, DecodeFragment, Combined, Fragment.PlanCount, Fragment.PlanOf, Parse;
    FragmentsDecode(r, f, maxFragment);
    var ps := PlannedPieces(f, maxFragment);
    var frames := EncodePieces(r, ps);
    forall i | 0 <= i < |ps|
      ensures ps[i] == Fragment.WantedOf(arrivals)[i]
    {
      assert DecodeFragment(frames[i], r.busId)
          == CanOk(Received(ps[i], r.timed, if r.timed then r.timestamp else 0, r.txn));
    }
    assert ps == Fragment.WantedOf(arrivals);
    CombinedFits(f);
    Fragment.PlanCoversPayload(Combined(f), maxFragment);
    Fragment.PlanReassembles(Combined(f), maxFragment, maxTotal, arrivals);
    ParseCombined(f);
  }

  lemma CombinedFits(f: Frame)
    requires Encodable(f)
    ensures |Combined(f)| <= 2058 < Fragment.CAPACITY
  {
  }

  /** The fragments really decode to the planned pieces. */
  lemma FragmentsDecode(r: Route, f: Frame, maxFragment: Fragment.size)
    requires r.busId < 0x800 && FragmentCount(f, maxFragment) > 0
    ensures DecodesTo(EncodePieces(r, PlannedPieces(f, maxFragment)), r, PlannedPieces(f, maxFragment))
  {
    hide EncodePiece, DecodeFragment, Combined, Fragment.PlanCount;
    var ps := PlannedPieces(f, maxFragment);
    Fragment.PlanCoversPayload(Combined(f), maxFragment);
    forall i | 0 <= i < |ps|
      ensures DecodeFragment(EncodePiece(r, ps[i]), r.busId)
           == CanOk(Received(ps[i], r.timed, if r.timed then r.timestamp else 0, r.txn))
    {
      assert ps[i].num < MAX_SEGMENTS && (!ps[i].ms ==> ps[i].num == 0);
      PieceRoundTrip(r, ps[i]);
    }
  }

  /** When everything fits one fragment, the fragmented encoder is the plain one. */
  lemma SingleFragmentIsPlain(r: Route, f: Frame, maxFragment: Fragment.size)
    requires FragmentCount(f, maxFragment) == 1
    ensures EncodePieces(r, PlannedPieces(f, maxFragment)) == [EncodeResponse(r, f)]
  {
    hide EncodeAbb, EncodeGbb, Combined, Fragment.PlanCount;
    var c := Combined(f);
    assert ResponseInfo(r, false, 0) == NewInfo(r.busId, false, true, r.txn).(mtv := r.timed);
    Fragment.PlanCoversPayload(c, maxFragment);
    Fragment.WholePiece(c, Fragment.PlanOf(|c|, maxFragment));
    assert c[0..|c|] == c;
  }
}
