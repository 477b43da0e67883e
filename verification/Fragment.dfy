/** Splitting one payload over several AVTPDUs and putting it back together
    (include/rcp/fragment.hpp). */
module Fragment {
  import opened Bytes

  const MAX_INTERMEDIATE: nat := 4096
  const CAPACITY: nat := 4096

  type size = x: nat | x < 0x1_0000_0000_0000_0000

  // ---- Planning.

  datatype Segment = Segment(offset: nat, len: nat, ms: bool, num: u16)
  datatype PlanError = NoError | Disabled | TooManySegments | BadSegmentCount

  lemma QuotientFits(x: nat, m: nat)
    requires m > 0
    ensures 0 <= x / m <= x
  {
    QuotientTimes(x, m);
    TimesGrows(x / m, m);
  }

  lemma QuotientTimes(x: nat, m: nat)
    requires m > 0
    ensures x / m >= 0 && x / m * m <= x
  {
  }

  lemma TimesGrows(q: nat, m: nat)
    requires m > 0
    ensures q <= q * m
  {
  }

  /** Unsigned arithmetic as the source does it: the sum can wrap, and so can the
      count of intermediate fragments. */
  function PlanCount(payloadLen: size, maxFragment: size): size {
    if payloadLen == 0 then 1
    else if maxFragment == 0 then 0
    else if payloadLen <= maxFragment then 1
    else
      QuotientFits((payloadLen + maxFragment - 1) % TWO64, maxFragment);
      var count := (payloadLen + maxFragment - 1) % TWO64 / maxFragment;
      if (count + TWO64 - 1) % TWO64 > MAX_INTERMEDIATE then 0 else count
  }

  /** No plan exists exactly when fragmentation is off and needed, or the split needs
      more than 4096 intermediate fragments, or the length sum wraps. */
  lemma PlanCountZeroIff(payloadLen: size, maxFragment: size)
    ensures PlanCount(payloadLen, maxFragment) == 0
       <==> payloadLen > maxFragment
            && (maxFragment == 0 || payloadLen + maxFragment - 1 >= TWO64 || payloadLen > 4097 * maxFragment)
    ensures var n := PlanCount(payloadLen, maxFragment);
            n > 1 ==> (n - 1) * maxFragment < payloadLen <= n * maxFragment && n <= MAX_INTERMEDIATE + 1
    ensures PlanCount(payloadLen, maxFragment) == 1 ==> payloadLen == 0 || payloadLen <= maxFragment
  {
    if payloadLen > maxFragment > 0 {
      if payloadLen + maxFragment - 1 >= TWO64 {
        WrappedCount(payloadLen, maxFragment);
      } else {
        UnwrappedCount(payloadLen, maxFragment);
      }
    }
  }

  lemma WrappedCount(p: size, m: size)
    requires 0 < m < p && p + m - 1 >= TWO64
    ensures PlanCount(p, m) == 0
  {
    var sum := (p + m - 1) % TWO64;
    assert sum == p + m - 1 - TWO64;
    SmallQuotient(sum, m);
  }

  lemma SmallQuotient(x: nat, m: nat)
    requires x < m
    ensures x / m == 0
  {
  }

  lemma UnwrappedCount(p: size, m: size)
    requires 0 < m < p && p + m - 1 < TWO64
    ensures var n := PlanCount(p, m);
            (n == 0 <==> p > 4097 * m) && n != 1 && (n > 1 ==> (n - 1) * m < p <= n * m && n <= MAX_INTERMEDIATE + 1)
  {
    var count := (p + m - 1) / m;
    CeilDiv(p, m, count);
    assert (p + m - 1) % TWO64 == p + m - 1;
    assert (count + TWO64 - 1) % TWO64 == count - 1;
    MulMono(4097, count - 1, m);
    MulMono(4097, count, m);
    MulMono(count, 4097, m);
  }

  lemma CeilDiv(p: nat, m: nat, count: nat)
    requires 0 < m < p && count == (p + m - 1) / m
    ensures (count - 1) * m < p <= count * m && 2 <= count <= p
  {
    var r := (p + m - 1) % m;
    assert p + m - 1 == count * m + r;
    MulMono(1, count, m);
    assert (count - 1) * m == count * m - m;
    MulMono(1, m, count - 1);
    assert (count - 1) * m == m * (count - 1);
  }

  /** Smaller products come from smaller factors. */
  lemma MulMono(a: nat, b: nat, m: nat)
    ensures a <= b ==> a * m <= b * m
    ensures m > 0 && a * m < b * m ==> a < b
  {
    if a <= b {
      assert b * m == a * m + (b - a) * m;
    } else {
      assert a * m == b * m + (a - b) * m;
    }
  }

  function PlanOf(payloadLen: size, maxFragment: size): (p: seq<Segment>)
    requires PlanCount(payloadLen, maxFragment) > 0
    ensures |p| == PlanCount(payloadLen, maxFragment)
  {
    PlanCountZeroIff(payloadLen, maxFragment);
    var n := PlanCount(payloadLen, maxFragment);
    if n == 1 then [Segment(0, payloadLen, false, 0)] else
    seq(n, i requires 0 <= i < n => PlanSegment(payloadLen, maxFragment, n, i))
  }

  /** Where the i-th of equal fragments starts. */
  function Start(i: nat, m: nat): nat { i * m }

  function PlanSegment(payloadLen: size, maxFragment: size, n: nat, i: nat): Segment
    requires i < n <= MAX_INTERMEDIATE + 1 && Start(n - 1, maxFragment) <= payloadLen
  {
    if i < n - 1 then Segment(Start(i, maxFragment), maxFragment, true, i)
    else Segment(Start(n - 1, maxFragment), payloadLen - Start(n - 1, maxFragment), false, 0)
  }

  method Plan(payloadLen: size, maxFragment: size, out: array<Segment>, segmentCount: size) returns (error: PlanError)
    requires segmentCount <= out.Length
    modifies out
    ensures error == if PlanCount(payloadLen, maxFragment) == 0
                     then (if maxFragment == 0 then Disabled else TooManySegments)
                     else if segmentCount != PlanCount(payloadLen, maxFragment) then BadSegmentCount else NoError
    ensures error != NoError ==> out[..] == old(out[..])
    ensures error == NoError ==> out[..segmentCount] == PlanOf(payloadLen, maxFragment)
                                 && out[segmentCount..] == old(out[segmentCount..])
  {
    var expected := PlanCount(payloadLen, maxFragment);
    if expected == 0 {
      return if maxFragment == 0 then Disabled else TooManySegments;
    }
    if segmentCount != expected {
      return BadSegmentCount;
    }
    if expected == 1 {
      out[0] := Segment(0, payloadLen, false, 0);
      assert out[..1] == [out[0]];
      return NoError;
    }
    PlanCountZeroIff(payloadLen, maxFragment);
    var off := 0;
    for i := 0 to expected - 1
      invariant off == i * maxFragment
      invariant forall k :: 0 <= k < i ==> out[k] == PlanSegment(payloadLen, maxFragment, expected, k)
      invariant forall k :: expected <= k < out.Length ==> out[k] == old(out[k])
    {
      out[i] := Segment(off, maxFragment, true, i);
      off := off + maxFragment;
    }
    out[expected - 1] := Segment(off, payloadLen - off, false, 0);
    error := NoError;
  }

  /** The slice of `payload` a planned segment carries. */
  function Slice(payload: seq<byte>, s: Segment): seq<byte>
    requires s.offset + s.len <= |payload|
  {
    payload[s.offset..s.offset + s.len]
  }

  /** A segment as it arrives: its ms bit, the raw segment number and its octets. */
  datatype Piece = Piece(ms: bool, num: u16, data: seq<byte>)

  predicate InPayload(payload: seq<byte>, p: seq<Segment>) {
    forall i :: 0 <= i < |p| ==> p[i].offset + p[i].len <= |payload|
  }

  function Pieces(payload: seq<byte>, p: seq<Segment>): (r: seq<Piece>)
    requires InPayload(payload, p)
    ensures |r| == |p|
  {
    seq(|p|, i requires 0 <= i < |p| => Piece(p[i].ms, p[i].num, Slice(payload, p[i])))
  }

  function Joined(ps: seq<Piece>): seq<byte>
    decreases |ps|
  {
    if ps == [] then [] else Joined(ps[..|ps| - 1]) + ps[|ps| - 1].data
  }

  /** Numbered 0, 1, 2, ... and flagged `more` except on the last piece. */
  ghost predicate InSequence(ps: seq<Piece>) {
    && ps != [] && !ps[|ps| - 1].ms
    && forall i :: 0 <= i < |ps| - 1 ==> ps[i].ms && ps[i].num == i % TWO16
  }

  lemma StartSteps(i: nat, m: nat, n: nat)
    ensures Start(0, m) == 0 && Start(i + 1, m) == Start(i, m) + m
    ensures i <= n ==> Start(i, m) <= Start(n, m)
  {
    MulMono(i, n, m);
  }

  /** A plan cuts the payload into consecutive, correctly numbered slices that join to it. */
  lemma PlanCoversPayload(payload: seq<byte>, maxFragment: size)
    requires |payload| < TWO64 && PlanCount(|payload|, maxFragment) > 0
    ensures InPayload(payload, PlanOf(|payload|, maxFragment))
    ensures InSequence(Pieces(payload, PlanOf(|payload|, maxFragment)))
    ensures Joined(Pieces(payload, PlanOf(|payload|, maxFragment))) == payload
    ensures maxFragment > 0 ==> forall s :: s in PlanOf(|payload|, maxFragment) ==> s.len <= maxFragment
  {
    hide PlanCount, Start, Joined;
    var n := PlanCount(|payload|, maxFragment);
    var p := PlanOf(|payload|, maxFragment);
    CountBounds(|payload|, maxFragment);
    if n == 1 {
      WholePiece(payload, p);
    } else {
      assert forall i :: 0 <= i < n ==> p[i] == PlanSegment(|payload|, maxFragment, n, i);
      PiecesOfPlan(payload, maxFragment, p);
      StartSteps(n - 1, maxFragment, n);
      JoinedPieces(payload, maxFragment, Pieces(payload, p), n - 1);
      var ps := Pieces(payload, p);
      JoinedStep(ps, n - 1);
      assert ps[..n] == ps;
      assert ps[n - 1].data == payload[Start(n - 1, maxFragment)..];
    }
  }

  /** The flags and numbers of a plan, the final segment unnumbered, and its lengths: all full
      but the final one, which is empty only for an empty payload. */
  lemma PlanNumbers(len: size, m: size, i: nat)
    requires PlanCount(len, m) > 0 && i < PlanCount(len, m)
    ensures var p, n := PlanOf(len, m), PlanCount(len, m);
            if i < n - 1 then p[i].ms && p[i].num == i && p[i].len == m && p[i].offset == i * m
            else !p[i].ms && p[i].num == 0 && p[i].offset + p[i].len == len && (p[i].len == 0 <==> len == 0)
  {
    hide PlanCount;
    PlanCountZeroIff(len, m);
  }

  lemma CountBounds(len: size, m: size)
    requires PlanCount(len, m) > 0
    ensures var n := PlanCount(len, m);
            && n <= MAX_INTERMEDIATE + 1
            && (n == 1 ==> len == 0 || len <= m)
            && (n > 1 ==> Start(n - 1, m) <= len <= Start(n, m))
  {
    hide PlanCount;
    PlanCountZeroIff(len, m);
  }

  lemma WholePiece(payload: seq<byte>, p: seq<Segment>)
    requires p == [Segment(0, |payload|, false, 0)]
    ensures InPayload(payload, p) && InSequence(Pieces(payload, p)) && Joined(Pieces(payload, p)) == payload
  {
    assert payload[0..|payload|] == payload;
    assert Pieces(payload, p) == [Piece(false, 0, payload)];
    assert [Piece(false, 0, payload)][..0] == [];
    assert [] + payload == payload;
  }

  /** `data` is the i-th full-length cut of the payload. */
  ghost predicate IsCut(payload: seq<byte>, m: nat, i: nat, data: seq<byte>) {
    Start(i, m) <= Start(i + 1, m) <= |payload| && data == payload[Start(i, m)..Start(i + 1, m)]
  }

  /** The pieces of a several-fragment plan, by position. */
  lemma PiecesOfPlan(payload: seq<byte>, m: size, p: seq<Segment>)
    requires 1 < |p| <= MAX_INTERMEDIATE + 1 && |payload| < TWO64
    requires Start(|p| - 1, m) <= |payload| <= Start(|p|, m)
    requires forall i :: 0 <= i < |p| ==> p[i] == PlanSegment(|payload|, m, |p|, i)
    ensures InPayload(payload, p) && InSequence(Pieces(payload, p))
    ensures forall s :: s in p ==> s.len <= m
    ensures forall i :: 0 <= i < |p| - 1 ==> IsCut(payload, m, i, Pieces(payload, p)[i].data)
    ensures Pieces(payload, p)[|p| - 1].data == payload[Start(|p| - 1, m)..]
  {
    hide Start;
    var n := |p|;
    StartSteps(n - 1, m, n);
    forall i | 0 <= i < n
      ensures p[i].offset + p[i].len <= |payload| && p[i].len <= m
    {
      StartSteps(i, m, n);
      StartSteps(i + 1, m, n - 1);
    }
    var ps := Pieces(payload, p);
    forall i | 0 <= i < n - 1
      ensures IsCut(payload, m, i, ps[i].data)
    {
      StartSteps(i, m, n);
      StartSteps(i + 1, m, n - 1);
    }
    assert forall i :: 0 <= i < n - 1 ==> p[i].num == i && i % TWO16 == i;
  }

  lemma {:induction false} JoinedPieces(payload: seq<byte>, m: size, ps: seq<Piece>, k: nat)
    requires k <= |ps| && Start(k, m) <= |payload|
    requires forall i :: 0 <= i < k ==> IsCut(payload, m, i, ps[i].data)
    ensures Joined(ps[..k]) == payload[..Start(k, m)]
    decreases k
  {
    hide Start, Joined;
    StartSteps(0, m, k);
    if k == 0 {
      assert ps[..0] == [];
      NothingJoined();
    } else {
      assert IsCut(payload, m, k - 1, ps[k - 1].data);
      JoinedPieces(payload, m, ps, k - 1);
      JoinedStep(ps, k - 1);
      assert payload[..Start(k - 1, m)] + payload[Start(k - 1, m)..Start(k, m)] == payload[..Start(k, m)];
    }
  }

  lemma NothingJoined()
    ensures Joined([]) == []
  {
  }

  // ---- Reassembly.

  datatype Outcome = Continue | Complete | OutOfOrder | TooLarge

  datatype State = State(maxTotal: nat, collecting: bool, expected: u16, data: seq<byte>)

  function Cap(s: State): nat { if s.maxTotal < CAPACITY then s.maxTotal else CAPACITY }

  predicate ValidState(s: State) { |s.data| <= Cap(s) }

  function Fresh(maxTotal: nat): State { State(maxTotal, false, 0, []) }

  /** What feeding one fragment reports. */
  function Report(s: State, p: Piece): Outcome {
    if !s.collecting then
      if |s.data| + |p.data| > Cap(s) then TooLarge
      else if !p.ms then Complete
      else if p.num != 0 then OutOfOrder
      else Continue
    else if p.ms && p.num != s.expected then OutOfOrder
    else if |s.data| + |p.data| > Cap(s) then TooLarge
    else if p.ms then Continue else Complete
  }

  predicate Accepts(s: State, p: Piece) { Report(s, p).Continue? || Report(s, p).Complete? }

  function After(s: State, p: Piece): State {
    match Report(s, p)
    case Continue => State(s.maxTotal, true, if s.collecting then (s.expected + 1) % TWO16 else 1, s.data + p.data)
    case Complete => s.(collecting := false, data := s.data + p.data)
    case _ => s
  }

  /** A fragment is taken exactly when it fits both limits and, unless it is the last one,
      carries the number due; which fault is reported when it has both depends on whether a
      message is in progress. A refused fragment changes nothing. */
  lemma RefusalReasons(s: State, p: Piece)
    ensures var fits := |s.data| + |p.data| <= s.maxTotal && |s.data| + |p.data| <= 4096;
            var due := p.ms ==> p.num == if s.collecting then s.expected else 0;
            && (Accepts(s, p) <==> fits && due)
            && (Report(s, p) == TooLarge <==> !fits && (due || !s.collecting))
            && (Report(s, p) == OutOfOrder <==> !due && (fits || s.collecting))
            && (Report(s, p) == Complete <==> fits && !p.ms)
            && (!Accepts(s, p) ==> After(s, p) == s)
  {
  }

  class Reassembler {
    var buf: array<byte>
    var len: nat
    var maxTotal: nat
    var collecting: bool
    var expected: u16

    ghost predicate Valid()
      reads this
    {
      buf.Length == CAPACITY && len <= maxTotal && len <= CAPACITY
    }

    ghost function Abs(): State
      requires Valid()
      reads this, buf
    {
      State(maxTotal, collecting, expected, buf[..len])
    }

    constructor (maxTotalLen: nat)
      ensures Valid() && fresh(buf) && Abs() == Fresh(maxTotalLen)
    {
      buf := new byte[CAPACITY](_ => 0);
      len, maxTotal, collecting, expected := 0, maxTotalLen, false, 0;
    }

    method Reset()
      requires Valid()
      modifies this
      ensures Valid() && buf == old(buf) && Abs() == Fresh(old(maxTotal))
    {
      collecting, expected, len := false, 0, 0;
    }

    method Fits(appendLen: nat) returns (ok: bool)
      requires Valid()
      ensures ok <==> len + appendLen <= Cap(Abs())
    {
      var cap := if maxTotal < CAPACITY then maxTotal else CAPACITY;
      ok := appendLen <= cap - len;
    }

    method Append(payload: seq<byte>)
      requires Valid() && len + |payload| <= Cap(Abs())
      modifies this`len, buf
      ensures Valid() && Abs() == old(Abs()).(data := old(Abs()).data + payload)
    {
      if payload == [] {
        assert old(buf[..len]) + payload == buf[..len];
        return;
      }
      forall i | 0 <= i < |payload| {
        buf[len + i] := payload[i];
      }
      len := len + |payload|;
      assert buf[..len] == old(buf[..len]) + payload;
    }

    method Feed(ms: bool, num: u16, payload: seq<byte>) returns (r: Outcome)
      requires Valid()
      modifies this, buf
      ensures Valid() && buf == old(buf)
      ensures r == Report(old(Abs()), Piece(ms, num, payload))
      ensures Abs() == After(old(Abs()), Piece(ms, num, payload))
    {
      var fits := Fits(|payload|);
      if !collecting {
        if !fits {
          return TooLarge;
        }
        if !ms {
          Append(payload);
          return Complete;
        }
        if num != 0 {
          return OutOfOrder;
        }
        Append(payload);
        collecting, expected := true, 1;
        return Continue;
      }
      if ms && num != expected {
        return OutOfOrder;
      }
      if !fits {
        return TooLarge;
      }
      Append(payload);
      if ms {
        expected := (expected + 1) % TWO16;
        return Continue;
      }
      collecting := false;
      return Complete;
    }
  }

  // ---- Whole runs.

  function Run(s: State, ps: seq<Piece>): State
    decreases |ps|
  {
    if ps == [] then s else Run(After(s, ps[0]), ps[1..])
  }

  function Reports(s: State, ps: seq<Piece>): (r: seq<Outcome>)
    ensures |r| == |ps|
    decreases |ps|
  {
    if ps == [] then [] else [Report(s, ps[0])] + Reports(After(s, ps[0]), ps[1..])
  }

  function AcceptedOf(s: State, ps: seq<Piece>): seq<Piece>
    decreases |ps|
  {
    if ps == [] then []
    else (if Accepts(s, ps[0]) then [ps[0]] else []) + AcceptedOf(After(s, ps[0]), ps[1..])
  }

  /** What one arrival is: the next slice of the message, or a fragment that does not belong. */
  datatype Arrival = Wanted(piece: Piece) | Noise(piece: Piece)

  function Arrived(arrivals: seq<Arrival>): (r: seq<Piece>)
    ensures |r| == |arrivals|
    decreases |arrivals|
  {
    if arrivals == [] then [] else [arrivals[0].piece] + Arrived(arrivals[1..])
  }

  function WantedOf(arrivals: seq<Arrival>): seq<Piece>
    decreases |arrivals|
  {
    if arrivals == [] then []
    else (if arrivals[0].Wanted? then [arrivals[0].piece] else []) + WantedOf(arrivals[1..])
  }

  /** Every interloper is refused at the moment it arrives. */
  predicate NoiseRefused(s: State, arrivals: seq<Arrival>)
    decreases |arrivals|
  {
    arrivals == [] || ((arrivals[0].Noise? ==> !Accepts(s, arrivals[0].piece))
        && NoiseRefused(After(s, arrivals[0].piece), arrivals[1..]))
  }

  /** A run reaches completion first at its last arrival. */
  ghost predicate FirstCompleteAtEnd(r: seq<Outcome>) {
    r != [] && r[|r| - 1].Complete? && forall i :: 0 <= i < |r| - 1 ==> !r[i].Complete?
  }

  /** The state after `k` pieces of a message whose whole is `total` long. */
  ghost predicate Midway(s: State, k: nat, done: seq<byte>) {
    && s.collecting == (k > 0) && s.data == done && (k > 0 ==> s.expected == k % TWO16)
  }

  /** From any idle or midway state: whatever `left` the buffer held before the message
      stays in front of it. */
  lemma {:induction false} ReassembleFrom(s: State, arrivals: seq<Arrival>, left: seq<byte>, ps: seq<Piece>, k: nat)
    requires InSequence(ps) && k < |ps|
    requires |left| + |Joined(ps)| <= Cap(s)
    requires Midway(s, k, left + Joined(ps[..k]))
    requires WantedOf(arrivals) == ps[k..] && NoiseRefused(s, arrivals)
    requires arrivals != [] && arrivals[|arrivals| - 1].Wanted?
    ensures FirstCompleteAtEnd(Reports(s, Arrived(arrivals)))
    ensures Run(s, Arrived(arrivals))
        == s.(collecting := false, expected := Run(s, Arrived(arrivals)).expected, data := left + Joined(ps))
    decreases |arrivals|
  {
    hide Report, After, Joined, Accepts, Cap;
    var a, rest := arrivals[0], arrivals[1..];
    var next := After(s, a.piece);
    assert Arrived(arrivals)[1..] == Arrived(rest);
    if a.Noise? {
      RefusedUnchanged(s, a.piece);
      assert WantedOf(rest) == ps[k..];
      ReassembleFrom(s, rest, left, ps, k);
      CompleteLater(Report(s, a.piece), Reports(next, Arrived(rest)));
    } else {
      assert a.piece == ps[k..][0] == ps[k];
      assert WantedOf(rest) == ps[k..][1..] == ps[k + 1..];
      WantedStep(s, left, ps, k);
      if k == |ps| - 1 {
        if rest != [] {
          LastWanted(rest);
        }
        assert Arrived(arrivals) == [a.piece];
        assert ps[..k + 1] == ps;
        assert Reports(s, [a.piece]) == [Complete];
        assert Run(s, [a.piece]) == next;
      } else {
        ReassembleFrom(next, rest, left, ps, k + 1);
        CompleteLater(Report(s, a.piece), Reports(next, Arrived(rest)));
      }
    }
  }

  /** A fresh reassembler fed any numbered sequence of pieces, refused ones in between,
      completes first at the last one and holds them joined. */
  lemma ReassembleFresh(maxTotal: nat, arrivals: seq<Arrival>, ps: seq<Piece>)
    requires InSequence(ps) && |Joined(ps)| <= Cap(Fresh(maxTotal))
    requires WantedOf(arrivals) == ps && NoiseRefused(Fresh(maxTotal), arrivals)
    requires arrivals != [] && arrivals[|arrivals| - 1].Wanted?
    ensures FirstCompleteAtEnd(Reports(Fresh(maxTotal), Arrived(arrivals)))
    ensures Run(Fresh(maxTotal), Arrived(arrivals)).data == Joined(ps)
  {
    hide Joined, Run, Reports, NoiseRefused, WantedOf, Arrived, FirstCompleteAtEnd;
    assert ps[0..] == ps && ps[..0] == [];
    NothingJoined();
    assert [] + Joined(ps) == Joined(ps);
    ReassembleFrom(Fresh(maxTotal), arrivals, [], ps, 0);
  }

  lemma RefusedUnchanged(s: State, p: Piece)
    requires !Accepts(s, p)
    ensures After(s, p) == s && !Report(s, p).Complete?
  {
  }

  lemma CompleteLater(first: Outcome, rest: seq<Outcome>)
    requires !first.Complete? && FirstCompleteAtEnd(rest)
    ensures FirstCompleteAtEnd([first] + rest)
  {
    var r := [first] + rest;
    assert forall i :: 0 < i < |r| ==> r[i] == rest[i - 1];
  }

  /** The next piece of the message moves the reassembler one step on, if there is room. */
  lemma WantedStep(s: State, left: seq<byte>, ps: seq<Piece>, k: nat)
    requires InSequence(ps) && k < |ps|
    requires |left| + |Joined(ps[..k + 1])| <= Cap(s) || |left| + |Joined(ps)| <= Cap(s)
    requires Midway(s, k, left + Joined(ps[..k]))
    ensures var next := After(s, ps[k]);
            && Report(s, ps[k]) == (if k == |ps| - 1 then Complete else Continue)
            && next.data == left + Joined(ps[..k + 1]) && next.maxTotal == s.maxTotal && Cap(next) == Cap(s)
            && (if k == |ps| - 1 then !next.collecting else Midway(next, k + 1, left + Joined(ps[..k + 1])))
  {
    hide Joined;
    JoinedStep(ps, k);
    JoinedGrows(ps, k + 1);
    assert left + Joined(ps[..k]) + ps[k].data == left + Joined(ps[..k + 1]);
    assert k < |ps| - 1 ==> ps[k].ms && ps[k].num == k % TWO16;
    assert (k % TWO16 + 1) % TWO16 == (k + 1) % TWO16;
  }

  lemma {:induction false} LastWanted(arrivals: seq<Arrival>)
    requires arrivals != [] && arrivals[|arrivals| - 1].Wanted?
    ensures WantedOf(arrivals) != []
    decreases |arrivals|
  {
    if arrivals[0].Noise? {
      LastWanted(arrivals[1..]);
    }
  }

  lemma JoinedStep(ps: seq<Piece>, k: nat)
    requires k < |ps|
    ensures Joined(ps[..k + 1]) == Joined(ps[..k]) + ps[k].data
  {
    assert ps[..k + 1][..k] == ps[..k];
  }

  lemma {:induction false} JoinedGrows(ps: seq<Piece>, k: nat)
    requires k <= |ps|
    ensures |Joined(ps[..k])| <= |Joined(ps)|
    decreases |ps| - k
  {
    if k == |ps| {
      assert ps[..k] == ps;
    } else {
      JoinedStep(ps, k);
      JoinedGrows(ps, k + 1);
    }
  }

  /** A plan's slices, in order and with any refused fragments in between, fed to any
      reassembler between messages that has the room: it first completes at the last slice
      and holds what was left in the buffer followed by the payload. */
  lemma PlanAppends(s: State, payload: seq<byte>, maxFragment: size, arrivals: seq<Arrival>)
    requires |payload| < TWO64 && PlanCount(|payload|, maxFragment) > 0
    requires !s.collecting && |s.data| + |payload| <= Cap(s)
    requires InPayload(payload, PlanOf(|payload|, maxFragment))
    requires WantedOf(arrivals) == Pieces(payload, PlanOf(|payload|, maxFragment))
    requires NoiseRefused(s, arrivals) && arrivals != [] && arrivals[|arrivals| - 1].Wanted?
    ensures FirstCompleteAtEnd(Reports(s, Arrived(arrivals)))
    ensures Run(s, Arrived(arrivals)).data == s.data + payload
    ensures !Run(s, Arrived(arrivals)).collecting && Run(s, Arrived(arrivals)).maxTotal == s.maxTotal
  {
    hide PlanOf, PlanCount, Pieces, InPayload, Joined, Run, Reports, NoiseRefused, WantedOf, Arrived, Cap;
    PlanCoversPayload(payload, maxFragment);
    var ps := Pieces(payload, PlanOf(|payload|, maxFragment));
    assert ps[0..] == ps && ps[..0] == [];
    NothingJoined();
    assert s.data + [] == s.data;
    ReassembleFrom(s, arrivals, s.data, ps, 0);
  }

  /** So a fresh or reset reassembler yields the payload itself. */
  lemma PlanReassembles(payload: seq<byte>, maxFragment: size, maxTotal: nat, arrivals: seq<Arrival>)
    requires |payload| < TWO64 && PlanCount(|payload|, maxFragment) > 0
    requires |payload| <= Cap(Fresh(maxTotal))
    requires InPayload(payload, PlanOf(|payload|, maxFragment))
    requires WantedOf(arrivals) == Pieces(payload, PlanOf(|payload|, maxFragment))
    requires NoiseRefused(Fresh(maxTotal), arrivals) && arrivals != [] && arrivals[|arrivals| - 1].Wanted?
    ensures FirstCompleteAtEnd(Reports(Fresh(maxTotal), Arrived(arrivals)))
    ensures Run(Fresh(maxTotal), Arrived(arrivals)).data == payload
  {
    hide PlanOf, PlanCount, Pieces, InPayload, Run, Reports, NoiseRefused, WantedOf, Arrived, Cap;
    PlanAppends(Fresh(maxTotal), payload, maxFragment, arrivals);
    assert [] + payload == payload;
  }

  /** The converse: whatever is fed to a fresh reassembler, a first completion means the
      accepted fragments were numbered 0, 1, 2, ... (mod 65536) up to a final one, and the
      data is exactly their octets, within both size bounds. */
  lemma CompleteMeansInSequence(maxTotal: nat, ps: seq<Piece>)
    requires FirstCompleteAtEnd(Reports(Fresh(maxTotal), ps))
    ensures InSequence(AcceptedOf(Fresh(maxTotal), ps))
    ensures Run(Fresh(maxTotal), ps).data == Joined(AcceptedOf(Fresh(maxTotal), ps))
    ensures |Run(Fresh(maxTotal), ps).data| <= maxTotal && |Run(Fresh(maxTotal), ps).data| <= CAPACITY
  {
    CompleteFrom(Fresh(maxTotal), ps, []);
    assert [] + AcceptedOf(Fresh(maxTotal), ps) == AcceptedOf(Fresh(maxTotal), ps);
  }

  ghost predicate Leading(done: seq<Piece>) {
    forall i :: 0 <= i < |done| ==> done[i].ms && done[i].num == i % TWO16
  }

  lemma {:induction false} CompleteFrom(s: State, ps: seq<Piece>, done: seq<Piece>)
    requires FirstCompleteAtEnd(Reports(s, ps))
    requires ValidState(s) && Leading(done) && Midway(s, |done|, Joined(done))
    ensures InSequence(done + AcceptedOf(s, ps))
    ensures Run(s, ps).data == Joined(done + AcceptedOf(s, ps)) && ValidState(Run(s, ps))
        && Run(s, ps).maxTotal == s.maxTotal
    decreases |ps|
  {
    hide Report, After, Joined, ValidState, Midway;
    var p, rest := ps[0], ps[1..];
    var next := After(s, p);
    var r := Reports(s, ps);
    assert r[0] == Report(s, p) && r[1..] == Reports(next, rest);
    if rest == [] {
      assert r[0].Complete?;
      AcceptedStep(s, p, done);
      assert AcceptedOf(s, ps) == [p];
      assert Run(s, ps) == next;
    } else {
      assert !r[0].Complete?;
      assert FirstCompleteAtEnd(r[1..]);
      if Accepts(s, p) {
        AcceptedStep(s, p, done);
        CompleteFrom(next, rest, done + [p]);
        assert done + ([p] + AcceptedOf(next, rest)) == done + [p] + AcceptedOf(next, rest);
      } else {
        RefusedUnchanged(s, p);
        CompleteFrom(s, rest, done);
        assert [] + AcceptedOf(next, rest) == AcceptedOf(next, rest);
      }
    }
  }

  /** Accepting one fragment extends the numbered sequence by it. */
  lemma AcceptedStep(s: State, p: Piece, done: seq<Piece>)
    requires Accepts(s, p) && ValidState(s) && Leading(done) && Midway(s, |done|, Joined(done))
    ensures var next := After(s, p);
            && ValidState(next) && next.maxTotal == s.maxTotal && next.data == Joined(done + [p])
            && (Report(s, p).Complete? ==> InSequence(done + [p]))
            && (Report(s, p).Continue? ==> Leading(done + [p]) && Midway(next, |done + [p]|, Joined(done + [p])))
  {
    assert (done + [p])[..|done|] == done;
    var n := |done|;
    assert (n % TWO16 + 1) % TWO16 == (n + 1) % TWO16;
  }

  // ---- Without a reset between messages.

  function AllWanted(ps: seq<Piece>): (arrivals: seq<Arrival>)
    ensures |arrivals| == |ps|
    decreases |ps|
  {
    if ps == [] then [] else [Wanted(ps[0])] + AllWanted(ps[1..])
  }

  lemma {:induction false} AllWantedArrive(s: State, ps: seq<Piece>)
    ensures Arrived(AllWanted(ps)) == ps && WantedOf(AllWanted(ps)) == ps && NoiseRefused(s, AllWanted(ps))
    ensures ps != [] ==> AllWanted(ps)[|ps| - 1].Wanted?
    decreases |ps|
  {
    hide After;
    if ps != [] {
      AllWantedArrive(After(s, ps[0]), ps[1..]);
      assert AllWanted(ps)[1..] == AllWanted(ps[1..]);
    }
  }

  /** The fragments of one message. */
  function Fragments(payload: seq<byte>, maxFragment: size): (ps: seq<Piece>)
    requires |payload| < TWO64 && PlanCount(|payload|, maxFragment) > 0
    ensures ps != []
  {
    PlanCoversPayload(payload, maxFragment);
    Pieces(payload, PlanOf(|payload|, maxFragment))
  }

  ghost predicate AllAccepted(r: seq<Outcome>) {
    forall i :: 0 <= i < |r| ==> r[i].Continue? || r[i].Complete?
  }

  lemma {:induction false} RefusedNever(s: State, ps: seq<Piece>, left: seq<byte>, k: nat)
    requires InSequence(ps) && k < |ps|
    requires |left| + |Joined(ps)| <= Cap(s) && Midway(s, k, left + Joined(ps[..k]))
    ensures AllAccepted(Reports(s, ps[k..]))
    decreases |ps| - k
  {
    hide Report, After, Joined, Cap;
    WantedStep(s, left, ps, k);
    assert ps[k..][1..] == ps[k + 1..];
    if k < |ps| - 1 {
      RefusedNever(After(s, ps[k]), ps, left, k + 1);
    }
  }

  /** Where the room runs out a fragment is refused. */
  lemma {:induction false} NoRoomRefuses(s: State, ps: seq<Piece>, left: seq<byte>, k: nat)
    requires InSequence(ps) && k < |ps|
    requires |left| + |Joined(ps)| > Cap(s) && Midway(s, k, left + Joined(ps[..k]))
    ensures !AllAccepted(Reports(s, ps[k..]))
    decreases |ps| - k
  {
    hide Joined, Cap;
    var r := Reports(s, ps[k..]);
    assert r[0] == Report(s, ps[k]);
    JoinedStep(ps, k);
    if |left| + |Joined(ps[..k + 1])| > Cap(s) {
      assert r[0] == TooLarge;
    } else {
      assert k < |ps| - 1 by { assert ps[..|ps|] == ps; }
      WantedStep(s, left, ps, k);
      var next := After(s, ps[k]);
      NoRoomRefuses(next, ps, left, k + 1);
      assert ps[k..][1..] == ps[k + 1..];
      assert r[1..] == Reports(next, ps[k + 1..]);
      var i :| 0 <= i < |r[1..]| && !(r[1..][i].Continue? || r[1..][i].Complete?);
      assert r[i + 1] == r[1..][i];
    }
  }

  /** Completion does not clear the buffer: for every state between messages, every
      payload within the capacity and every fragment size, the message is taken whole and
      comes out intact exactly when nothing was left from the one before. */
  lemma StaleDataKept(s: State, payload: seq<byte>, maxFragment: size)
    requires !s.collecting && |payload| < TWO64 && PlanCount(|payload|, maxFragment) > 0 && |payload| <= Cap(s)
    ensures AllAccepted(Reports(s, Fragments(payload, maxFragment))) <==> |s.data| + |payload| <= Cap(s)
    ensures |s.data| + |payload| <= Cap(s) ==>
      FirstCompleteAtEnd(Reports(s, Fragments(payload, maxFragment)))
          && Run(s, Fragments(payload, maxFragment)).data == s.data + payload
    ensures AllAccepted(Reports(s, Fragments(payload, maxFragment)))
        && Run(s, Fragments(payload, maxFragment)).data == payload
       <==> s.data == []
  {
    hide PlanOf, PlanCount, Pieces, InPayload, Joined, Run, Reports, NoiseRefused, WantedOf, Arrived, Cap, AllAccepted;
    var ps := Fragments(payload, maxFragment);
    PlanCoversPayload(payload, maxFragment);
    AllWantedArrive(s, ps);
    NothingJoined();
    assert ps[0..] == ps && ps[..0] == [] && s.data + [] == s.data;
    if |s.data| + |payload| <= Cap(s) {
      PlanAppends(s, payload, maxFragment, AllWanted(ps));
      RefusedNever(s, ps, s.data, 0);
      assert |s.data + payload| == |s.data| + |payload|;
      assert s.data == [] ==> s.data + payload == payload;
    } else {
      NoRoomRefuses(s, ps, s.data, 0);
    }
  }

  lemma {:induction false} RunConcat(s: State, a: seq<Piece>, b: seq<Piece>)
    ensures Run(s, a + b) == Run(Run(s, a), b)
    decreases |a|
  {
    hide After;
    if a == [] {
      assert a + b == b;
    } else {
      assert (a + b)[0] == a[0] && (a + b)[1..] == a[1..] + b;
      RunConcat(After(s, a[0]), a[1..], b);
    }
  }

  /** Such a state is reached by any two messages in a row: the second comes out behind
      the first, and is spoiled unless the first was empty. */
  lemma BackToBackMessages(maxTotal: nat, first: seq<byte>, second: seq<byte>, maxFragment: size)
    requires |first| < TWO64 && |second| < TWO64 && PlanCount(|first|, maxFragment) > 0
        && PlanCount(|second|, maxFragment) > 0
    requires |first| + |second| <= Cap(Fresh(maxTotal))
    ensures Run(Fresh(maxTotal), Fragments(first, maxFragment) + Fragments(second, maxFragment)).data == first + second
    ensures Run(Fresh(maxTotal), Fragments(first, maxFragment) + Fragments(second, maxFragment)).data == second
        <==> first == []
  {
    hide PlanOf, PlanCount, Pieces, InPayload, Joined, Run, Reports, NoiseRefused, WantedOf, Arrived;
    var s, a, b := Fresh(maxTotal), Fragments(first, maxFragment), Fragments(second, maxFragment);
    PlanCoversPayload(first, maxFragment);
    PlanCoversPayload(second, maxFragment);
    AllWantedArrive(s, a);
    PlanAppends(s, first, maxFragment, AllWanted(a));
    assert [] + first == first;
    var t := Run(s, a);
    AllWantedArrive(t, b);
    PlanAppends(t, second, maxFragment, AllWanted(b));
    RunConcat(s, a, b);
    assert |first + second| == |first| + |second|;
    assert first == [] ==> first + second == second;
  }
}
