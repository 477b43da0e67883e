/** Discovery responses, whole and fragmented (include/rcp/discovery.hpp). */
module Discovery {
  import opened Bytes
  import opened Acf
  import Avtp
  import Fragment

  const BYTE_BUS_ID: u16 := 0
  const SLICE_LEN: nat := 14

  /** The five general-register fields a discovery response carries. */
  datatype GeneralMap = GeneralMap(magic: u32, version: u32, vendorId: u16, deviceId: u16, epCount: u16)

  datatype DiscoveryError = ShortFrame | TscfDropped | DiscBadMsgType | WrongBus | WrongOp
  datatype DiscResult<+T> = DiscOk(value: T) | DiscErr(error: DiscoveryError)

  function Slice(m: GeneralMap): (b: seq<byte>)
    ensures |b| == SLICE_LEN
  {
    PutU32(m.magic) + PutU32(m.version) + PutU16(m.vendorId) + PutU16(m.deviceId) + PutU16(m.epCount)
  }

  /** Exactly `readSize` octets: the slice cut short or zero-filled. */
  function Payload(m: GeneralMap, readSize: byte): (b: seq<byte>)
    ensures |b| == readSize
  {
    if readSize <= SLICE_LEN then Slice(m)[..readSize] else Slice(m) + seq(readSize - SLICE_LEN, _ => 0)
  }

  function ParseSlice(b: seq<byte>): DiscResult<GeneralMap> {
    if |b| < SLICE_LEN then DiscErr(ShortFrame)
    else DiscOk(GeneralMap(GetU32(b[0..4]), GetU32(b[4..8]), GetU16(b[8..10]), GetU16(b[10..12]), GetU16(b[12..14])))
  }

  /** A response payload is understood exactly when at least the slice was asked for. */
  lemma SliceRoundTrip(m: GeneralMap, readSize: byte)
    ensures ParseSlice(Payload(m, readSize)) == if readSize >= SLICE_LEN then DiscOk(m) else DiscErr(ShortFrame)
  {
    hide PutU16, PutU32, GetU16, GetU32;
    var b := Payload(m, readSize);
    if readSize >= SLICE_LEN {
      var t := Slice(m);
      assert b[..SLICE_LEN] == t;
      assert forall i, j :: 0 <= i <= j <= SLICE_LEN ==> b[i..j] == b[..SLICE_LEN][i..j];
      assert t[0..4] == PutU32(m.magic) && t[4..8] == PutU32(m.version);
      assert t[8..10] == PutU16(m.vendorId) && t[10..12] == PutU16(m.deviceId) && t[12..14] == PutU16(m.epCount);
      assert b[0..4] == PutU32(m.magic) && b[4..8] == PutU32(m.version);
      assert b[8..10] == PutU16(m.vendorId) && b[10..12] == PutU16(m.deviceId) && b[12..14] == PutU16(m.epCount);
      PutGetU32(m.magic);
      PutGetU32(m.version);
      PutGetU16(m.vendorId);
      PutGetU16(m.deviceId);
      PutGetU16(m.epCount);
    }
  }

  /** The octets of the slice. */
  lemma SliceLayout(m: GeneralMap)
    ensures var b := Slice(m);
            && b[0..4] == PutU32(m.magic) && b[4..8] == PutU32(m.version)
            && b[8..10] == PutU16(m.vendorId) && b[10..12] == PutU16(m.deviceId) && b[12..14] == PutU16(m.epCount)
  {
    hide PutU16, PutU32;
  }

  /** What a payload of any size carries: as much of the slice as fits, and zeros behind it. */
  lemma PayloadOctets(m: GeneralMap, readSize: byte, k: nat)
    requires k < readSize as int
    ensures Payload(m, readSize)[k] == if k < 14 then Slice(m)[k] else 0
  {
    hide Slice;
  }

  datatype Route = Route(server: Avtp.StreamId, sequenceNum: byte, txn: byte)

  /** One NTSCF-framed response piece; the final one carries read_size itself. */
  function EncodePiece(r: Route, readSize: byte, p: Fragment.Piece): seq<byte>
    requires Avtp.ValidId(r.server)
  {
    var info := NewInfo(BYTE_BUS_ID, false, true, r.txn).(ms := p.ms, readSize := if p.ms then p.num else readSize);
    var acf := EncodeAbb(info, p.data);
    Avtp.EncodeNtscf(Avtp.NtscfHeader(true, 0, r.server, r.sequenceNum, |acf| % TWO16)) + acf
  }

  /** The unfragmented response, with its own header. */
  function EncodeResponse(m: GeneralMap, r: Route, readSize: byte): seq<byte>
    requires Avtp.ValidId(r.server)
  {
    var acf := EncodeAbb(NewInfo(BYTE_BUS_ID, false, true, r.txn).(readSize := readSize), Payload(m, readSize));
    Avtp.EncodeNtscf(Avtp.NtscfHeader(true, 0, r.server, r.sequenceNum, |acf| % TWO16)) + acf
  }

  function PlannedPieces(m: GeneralMap, readSize: byte, maxFragment: Fragment.size): seq<Fragment.Piece>
    requires Fragment.PlanCount(readSize, maxFragment) > 0
  {
    Fragment.PlanCoversPayload(Payload(m, readSize), maxFragment);
    Fragment.Pieces(Payload(m, readSize), Fragment.PlanOf(readSize, maxFragment))
  }

  function EncodePieces(r: Route, readSize: byte, ps: seq<Fragment.Piece>): (frames: seq<seq<byte>>)
    requires Avtp.ValidId(r.server)
    ensures |frames| == |ps|
  {
    seq(|ps|, i requires 0 <= i < |ps| => EncodePiece(r, readSize, ps[i]))
  }

  method EncodeResponseFragmented(m: GeneralMap, r: Route, readSize: byte, maxFragment: Fragment.size)
    returns (frames: seq<seq<byte>>)
    requires Avtp.ValidId(r.server)
    ensures Fragment.PlanCount(readSize, maxFragment) == 0 ==> frames == []
    ensures Fragment.PlanCount(readSize, maxFragment) > 0
        ==> frames == EncodePieces(r, readSize, PlannedPieces(m, readSize, maxFragment))
  {
    hide EncodePiece, Payload, Fragment.PlanCount, Fragment.PlanOf;
    var count := Fragment.PlanCount(readSize, maxFragment);
    if count == 0 {
      return [];
    }
    var segs := new Fragment.Segment[count](_ => Fragment.Segment(0, 0, false, 0));
    var error := Fragment.Plan(readSize, maxFragment, segs, count);
    var payload := Payload(m, readSize);
    ghost var ps := PlannedPieces(m, readSize, maxFragment);
    Fragment.PlanCoversPayload(payload, maxFragment);
    frames := [];
    for i := 0 to count
      invariant frames == EncodePieces(r, readSize, ps)[..i]
      invariant segs[..count] == Fragment.PlanOf(readSize, maxFragment)
    {
      var s := segs[i];
      assert s == segs[..count][i];
      frames := frames + [EncodePiece(r, readSize, Fragment.Piece(s.ms, s.num, payload[s.offset..s.offset + s.len]))];
    }
    assert frames == EncodePieces(r, readSize, ps);
  }

  /** NTSCF only, ACF_ABB, the discovery bus, a read. */
  function DecodeCommon(b: seq<byte>): DiscResult<(Avtp.NtscfHeader, Message)> {
    if |b| < 1 then DiscErr(ShortFrame)
    else if b[0] != Avtp.SUBTYPE_NTSCF then DiscErr(TscfDropped)
    else
      var h := Avtp.DecodeNtscf(b);
      if h == Avtp.Err(Avtp.ShortBuffer) then DiscErr(ShortFrame)
      else if h.Err? then DiscErr(TscfDropped)
      else
        var m := DecodeAbb(b[Avtp.NTSCF_LEN..]);
        if m == Err(ShortBuffer) then DiscErr(ShortFrame)
        else if m.Err? then DiscErr(DiscBadMsgType)
        else if m.value.info.busId != BYTE_BUS_ID then DiscErr(WrongBus)
        else if m.value.info.op then DiscErr(WrongOp)
        else DiscOk((h.value, m.value))
  }

  datatype Received = Received(server: Avtp.StreamId, piece: Fragment.Piece)

  /** The segment number is narrowed to an octet here. */
  function DecodeFragment(b: seq<byte>): DiscResult<Received> {
    match DecodeCommon(b)
    case DiscErr(e) => DiscErr(e)
    case DiscOk((h, m)) => DiscOk(Received(h.streamId, Fragment.Piece(m.info.ms, m.info.readSize % 0x100, m.payload)))
  }

  function DecodeResponse(b: seq<byte>): DiscResult<(Avtp.StreamId, GeneralMap)> {
    match DecodeCommon(b)
    case DiscErr(e) => DiscErr(e)
    case DiscOk((h, m)) =>
      match ParseSlice(m.payload)
      case DiscErr(e) => DiscErr(e)
      case DiscOk(g) => DiscOk((h.streamId, g))
  }

  /** What is refused, and as what: anything but an NTSCF frame as TSCF, then anything that
      is too short for its headers, is no ACF_ABB message, is addressed to another bus than
      the discovery bus, or is a write. */
  lemma FragmentRefusals(b: seq<byte>)
    ensures var d := DecodeFragment(b);
            && (d == DiscErr(TscfDropped) <==> b != [] && b[0] != 0x82)
            && (d == DiscErr(ShortFrame)
               <==> b == [] || (b[0] == 0x82 && (|b| <= 12 || (b[12] / 2 == 0x0E && |b| < 20))))
            && (d == DiscErr(DiscBadMsgType) <==> |b| > 12 && b[0] == 0x82 && b[12] / 2 != 0x0E)
            && (|b| >= 20 && b[0] == 0x82 && b[12] / 2 == 0x0E ==>
                  var elsewhere, write := b[14] % 8 != 0 || b[15] != 0, b[18] / 128 == 1;
                  && (d == DiscErr(WrongBus) <==> elsewhere)
                  && (d == DiscErr(WrongOp) <==> !elsewhere && write)
                  && (d.DiscOk? <==> !elsewhere && !write))
  {
    hide GetU64, Avtp.FromU64;
  }

  /** What an accepted fragment is read as: of the segment number only the low octet. */
  lemma FragmentFields(b: seq<byte>)
    requires DecodeFragment(b).DiscOk?
    ensures |b| >= 20
    ensures var f := DecodeFragment(b).value;
            && Avtp.ValidId(f.server) && PutU64(Avtp.ToU64(f.server)) == b[4..12]
            && f.piece.ms == (b[18] / 16 % 2 == 1) && f.piece.num as int == b[19] && f.piece.data == b[20..]
  {
    hide PutU64, GetU64, Avtp.ToU64, Avtp.FromU64;
    Avtp.IdReencode(b);
  }

  lemma PieceRoundTrip(r: Route, readSize: byte, p: Fragment.Piece)
    requires Avtp.ValidId(r.server) && p.num < 0x1000
    ensures var d := DecodeCommon(EncodePiece(r, readSize, p));
            && d.DiscOk? && d.value.0.streamId == r.server && d.value.1.payload == p.data
            && d.value.1.info.ms == p.ms && d.value.1.info.readSize == if p.ms then p.num else readSize
  {
    hide EncodeInfo, DecodeInfo, EncodeAbb, DecodeAbb, ComputeLength, Avtp.EncodeNtscf, Avtp.DecodeNtscf;
    var info := NewInfo(BYTE_BUS_ID, false, true, r.txn).(ms := p.ms, readSize := if p.ms then p.num else readSize);
    var acf := EncodeAbb(info, p.data);
    var h := Avtp.NtscfHeader(true, 0, r.server, r.sequenceNum, |acf| % TWO16);
    Avtp.NtscfRoundTrip(h, acf);
    var b := Avtp.EncodeNtscf(h) + acf;
    NtscfSubtype(b);
    assert b[Avtp.NTSCF_LEN..] == acf;
    AbbRoundTrip(info, p.data);
  }

  /** The headers every piece travels under: an NTSCF frame of the server's stream with the
      data length of the message behind it, and in it a read response of the route's
      transaction on the discovery bus. */
  lemma PieceHeader(r: Route, readSize: byte, p: Fragment.Piece)
    requires Avtp.ValidId(r.server) && p.num < 0x1000 && |p.data| <= 0xFF
    ensures var d := DecodeCommon(EncodePiece(r, readSize, p));
            && d.DiscOk?
            && var (h, m) := d.value;
               && h == Avtp.NtscfHeader(true, 0, r.server, r.sequenceNum, 8 + |p.data|)
               && m.info.rsp && !m.info.op && !m.info.err && m.info.txn == r.txn && m.info.busId == 0
               && !m.info.mtv && m.info.evtOp == 0 && !m.info.evtAck && !m.info.hs && !m.info.cs && m.info.pad == 0
  {
    hide EncodeInfo, DecodeInfo, EncodeAbb, DecodeAbb, ComputeLength, Avtp.EncodeNtscf, Avtp.DecodeNtscf;
    var info := NewInfo(BYTE_BUS_ID, false, true, r.txn).(ms := p.ms, readSize := if p.ms then p.num else readSize);
    var acf := EncodeAbb(info, p.data);
    var h := Avtp.NtscfHeader(true, 0, r.server, r.sequenceNum, |acf| % TWO16);
    Avtp.NtscfRoundTrip(h, acf);
    var b := Avtp.EncodeNtscf(h) + acf;
    NtscfSubtype(b);
    assert b[Avtp.NTSCF_LEN..] == acf;
    AbbRoundTrip(info, p.data);
  }

  lemma NtscfSubtype(b: seq<byte>)
    requires Avtp.DecodeNtscf(b).Ok?
    ensures |b| >= 1 && b[0] == Avtp.SUBTYPE_NTSCF
  {
  }

  /** For every read size holding the slice and every workable fragment size, the decoded
      fragments, fed in order with any refused ones in between, first complete at the last
      one and give back the server's registers; every fragment names the same server. */
  lemma FragmentedRoundTrip(m: GeneralMap, r: Route, readSize: byte, maxFragment: Fragment.size,
                            arrivals: seq<Fragment.Arrival>)
    requires Avtp.ValidId(r.server) && Fragment.PlanCount(readSize, maxFragment) > 0
    requires DecodesTo(EncodePieces(r, readSize, PlannedPieces(m, readSize, maxFragment)), r, readSize,
        Fragment.WantedOf(arrivals))
    requires Fragment.NoiseRefused(Fragment.Fresh(Fragment.CAPACITY), arrivals) && arrivals != []
        && arrivals[|arrivals| - 1].Wanted?
    ensures Fragment.FirstCompleteAtEnd(Fragment.Reports(Fragment.Fresh(Fragment.CAPACITY), Fragment.Arrived(arrivals)))
    ensures ParseSlice(Fragment.Run(Fragment.Fresh(Fragment.CAPACITY), Fragment.Arrived(arrivals)).data)
         == if readSize >= SLICE_LEN then DiscOk(m) else DiscErr(ShortFrame)
  {
    hide EncodePiece, DecodeFragment, Payload, Fragment.PlanCount, Fragment.PlanOf, ParseSlice, PlannedPieces;
    hide Fragment.Joined, Fragment.Run, Fragment.Reports, Fragment.NoiseRefused, Fragment.WantedOf, Fragment.Arrived;
    hide DecodesTo, EncodePieces, ReceivedPieces, Fragment.InSequence, Fragment.FirstCompleteAtEnd;
    FragmentsDecode(m, r, readSize, maxFragment);
    var ps := PlannedPieces(m, readSize, maxFragment);
    var ws := ReceivedPieces(ps, readSize);
    SamePieces(EncodePieces(r, readSize, ps), r, readSize, ws, Fragment.WantedOf(arrivals));
    PlannedJoin(m, readSize, maxFragment);
    Fragment.ReassembleFresh(Fragment.CAPACITY, arrivals, ws);
    SliceRoundTrip(m, readSize);
  }

  lemma SamePieces(frames: seq<seq<byte>>, r: Route, readSize: byte, ps: seq<Fragment.Piece>, ws: seq<Fragment.Piece>)
    requires DecodesTo(frames, r, readSize, ps) && DecodesTo(frames, r, readSize, ws)
    ensures ps == ws
  {
    hide DecodeFragment;
    forall i | 0 <= i < |ps|
      ensures ps[i] == ws[i]
    {
      assert DecodeFragment(frames[i]) == DiscOk(Received(r.server, ps[i]));
    }
  }

  lemma PlannedJoin(m: GeneralMap, readSize: byte, maxFragment: Fragment.size)
    requires Fragment.PlanCount(readSize, maxFragment) > 0
    ensures var ws := ReceivedPieces(PlannedPieces(m, readSize, maxFragment), readSize);
            Fragment.InSequence(ws) && Fragment.Joined(ws) == Payload(m, readSize)
  {
    hide Payload, Fragment.PlanCount, Fragment.PlanOf;
    Fragment.PlanCoversPayload(Payload(m, readSize), maxFragment);
    var ps := PlannedPieces(m, readSize, maxFragment);
    SameJoin(ps, ReceivedPieces(ps, readSize));
  }

  lemma {:induction false} SameJoin(ps: seq<Fragment.Piece>, ws: seq<Fragment.Piece>)
    requires |ps| == |ws| && forall i :: 0 <= i < |ps| ==> ws[i].data == ps[i].data
    ensures Fragment.Joined(ws) == Fragment.Joined(ps)
    decreases |ps|
  {
    if ps != [] {
      SameJoin(ps[..|ps| - 1], ws[..|ps| - 1]);
    }
  }

  /** The final piece shows read_size where an intermediate one shows its number. */
  function ReceivedPieces(ps: seq<Fragment.Piece>, readSize: byte): (r: seq<Fragment.Piece>)
    ensures |r| == |ps|
  {
    seq(|ps|, i requires 0 <= i < |ps| => if ps[i].ms then ps[i] else ps[i].(num := readSize))
  }

  ghost predicate DecodesTo(frames: seq<seq<byte>>, r: Route, readSize: byte, ps: seq<Fragment.Piece>) {
    |frames| == |ps| && forall i :: 0 <= i < |ps| ==> DecodeFragment(frames[i]) == DiscOk(Received(r.server, ps[i]))
  }

  lemma FragmentsDecode(m: GeneralMap, r: Route, readSize: byte, maxFragment: Fragment.size)
    requires Avtp.ValidId(r.server) && Fragment.PlanCount(readSize, maxFragment) > 0
    ensures var ps := PlannedPieces(m, readSize, maxFragment);
            DecodesTo(EncodePieces(r, readSize, ps), r, readSize, ReceivedPieces(ps, readSize))
  {
    hide EncodePiece, DecodeCommon, Payload, Fragment.PlanCount, Fragment.PlanOf;
    var ps := PlannedPieces(m, readSize, maxFragment);
    PlannedNumbers(m, readSize, maxFragment);
    forall i | 0 <= i < |ps|
      ensures DecodeFragment(EncodePiece(r, readSize, ps[i]))
          == DiscOk(Received(r.server, ReceivedPieces(ps, readSize)[i]))
    {
      assert ps[i].num < 0x100;
      PieceRoundTrip(r, readSize, ps[i]);
    }
  }

  lemma PlannedNumbers(m: GeneralMap, readSize: byte, maxFragment: Fragment.size)
    requires Fragment.PlanCount(readSize, maxFragment) > 0
    ensures forall p :: p in PlannedPieces(m, readSize, maxFragment) ==> p.num < 0x100
  {
    hide Payload, Fragment.PlanCount;
    AtMost255(readSize, maxFragment);
  }

  lemma AtMost255(readSize: byte, maxFragment: Fragment.size)
    requires Fragment.PlanCount(readSize, maxFragment) > 0
    ensures Fragment.PlanCount(readSize, maxFragment) <= 0x100
  {
    hide Fragment.PlanCount;
    var n := Fragment.PlanCount(readSize, maxFragment);
    Fragment.PlanCountZeroIff(readSize, maxFragment);
    if n > 1 && maxFragment > 0 {
      Fragment.MulMono(1, maxFragment, n - 1);
      assert (n - 1) * maxFragment == maxFragment * (n - 1);
    }
  }

  /** One fragment is the plain response, and decodes in one step. */
  lemma SingleFragmentIsPlain(m: GeneralMap, r: Route, readSize: byte, maxFragment: Fragment.size)
    requires Avtp.ValidId(r.server) && Fragment.PlanCount(readSize, maxFragment) == 1
    ensures EncodePieces(r, readSize, PlannedPieces(m, readSize, maxFragment)) == [EncodeResponse(m, r, readSize)]
    ensures DecodeResponse(EncodeResponse(m, r, readSize))
         == if readSize >= SLICE_LEN then DiscOk((r.server, m)) else DiscErr(ShortFrame)
  {
    hide EncodeAbb, Avtp.EncodeNtscf, DecodeCommon, Payload, ParseSlice, Fragment.PlanCount;
    var c := Payload(m, readSize);
    assert EncodeResponse(m, r, readSize) == EncodePiece(r, readSize, Fragment.Piece(false, 0, c));
    Fragment.PlanCoversPayload(c, maxFragment);
    assert c[0..|c|] == c;
    PieceRoundTrip(r, readSize, Fragment.Piece(false, 0, c));
    SliceRoundTrip(m, readSize);
  }
}
