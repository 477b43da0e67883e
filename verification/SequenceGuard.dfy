/** The 8-bit sequence-number check of one request stream (include/rcp/e2e.hpp,
    RxSequenceGuard), compared on the circle as in section 3.2 of RFC 1982. */
module SequenceGuard {
  import opened Bytes
  import opened Wrappers

  /** The two flags of the stream's register block that the check reads. */
  datatype Config = Config(enforceSeq: bool, safestateEnable: bool)

  datatype Verdict = Verdict(accept: bool, discontinuity: bool, enterSafeState: bool)

  /** How far `num` lies ahead of `last`, modulo 256. */
  function Ahead(last: byte, num: byte): byte { (num as int - last as int + 0x100) % 0x100 }

  function Judge(cfg: Config, last: Option<byte>, num: byte): Verdict {
    if last.None? then Verdict(true, false, false)
    else
      var d := Ahead(last.value, num);
      Verdict(!cfg.enforceSeq || 1 <= d <= 127, d != 1, d != 1 && cfg.safestateEnable)
  }

  function Next(cfg: Config, last: Option<byte>, num: byte): Option<byte> {
    if Judge(cfg, last, num).accept then Some(num) else last
  }

  class RxSequenceGuard {
    var hasLast: bool
    var lastSeq: byte

    ghost function Last(): Option<byte>
      reads this
    {
      if hasLast then Some(lastSeq) else None
    }

    constructor ()
      ensures Last() == None
    {
      hasLast, lastSeq := false, 0;
    }

    method Evaluate(cfg: Config, num: byte) returns (v: Verdict)
      modifies this
      ensures v == Judge(cfg, old(Last()), num)
      ensures Last() == Next(cfg, old(Last()), num)
    {
      if !hasLast {
        hasLast, lastSeq := true, num;
        return Verdict(true, false, false);
      }
      var distance: byte := (num as int - lastSeq as int + 0x100) % 0x100;
      v := Verdict(!cfg.enforceSeq || (distance >= 1 && distance <= 127), distance != 1,
                   distance != 1 && cfg.safestateEnable);
      if v.accept {
        lastSeq := num;
      }
    }

    method Check(cfg: Config, num: byte) returns (ok: bool)
      modifies this
      ensures ok == Judge(cfg, old(Last()), num).accept
      ensures Last() == Next(cfg, old(Last()), num)
    {
      var v := Evaluate(cfg, num);
      ok := v.accept;
    }
  }

  // ---- Runs.

  /** The tracked value after a run. */
  function LastAfter(cfg: Config, last: Option<byte>, seqs: seq<byte>): Option<byte>
    decreases |seqs|
  {
    if seqs == [] then last else LastAfter(cfg, Next(cfg, last, seqs[0]), seqs[1..])
  }

  /** The numbers a run accepts, in order. */
  function AcceptedOf(cfg: Config, last: Option<byte>, seqs: seq<byte>): seq<byte>
    decreases |seqs|
  {
    if seqs == [] then []
    else (if Judge(cfg, last, seqs[0]).accept then [seqs[0]] else [])
         + AcceptedOf(cfg, Next(cfg, last, seqs[0]), seqs[1..])
  }

  /** `lift` counts what the 8-bit numbers `s` only show modulo 256, each step being a
      rise of 1 to 127. */
  ghost predicate Lifts(lift: seq<nat>, s: seq<byte>) {
    && |lift| == |s|
    && (forall k :: 0 <= k < |s| ==> lift[k] % 0x100 == s[k])
    && (forall k :: 0 <= k < |s| - 1 ==> lift[k] < lift[k + 1] <= lift[k] + 127)
  }

  function LiftFrom(start: nat, s: seq<byte>): (r: seq<nat>)
    requires s != [] ==> start % 0x100 == s[0]
    ensures |r| == |s|
    decreases |s|
  {
    if s == [] then [] else
    [start] + if |s| == 1 then [] else
      LiftCongruent(start, s[0], s[1]);
      LiftFrom(start + Ahead(s[0], s[1]), s[1..])
  }

  lemma LiftCongruent(start: nat, a: byte, b: byte)
    requires start % 0x100 == a
    ensures (start + Ahead(a, b)) % 0x100 == b
  {
  }

  /** With rx_enforce_seq on, whatever arrives, the accepted numbers are the low octets of
      a counter that rises by 1..127 at every step. */
  lemma AcceptedLift(cfg: Config, seqs: seq<byte>)
    requires cfg.enforceSeq
    ensures var s := AcceptedOf(cfg, None, seqs);
            s != [] ==> Lifts(LiftFrom(s[0], s), s)
  {
    var s := AcceptedOf(cfg, None, seqs);
    if s != [] {
      AcceptedSteps(cfg, None, seqs);
      StepsLift(s[0], s);
    }
  }

  ghost predicate Steps(s: seq<byte>) {
    forall k :: 0 <= k < |s| - 1 ==> 1 <= Ahead(s[k], s[k + 1]) <= 127
  }

  lemma StepsCons(a: byte, t: seq<byte>)
    requires Steps(t) && (t != [] ==> 1 <= Ahead(a, t[0]) <= 127)
    ensures Steps([a] + t)
  {
    var s := [a] + t;
    forall k | 0 <= k < |s| - 1 ensures 1 <= Ahead(s[k], s[k + 1]) <= 127 {
      assert s[k + 1] == t[k];
      if k > 0 {
        assert s[k] == t[k - 1] && t[(k - 1) + 1] == t[k];
      }
    }
  }

  lemma EnforcedJudge(cfg: Config, last: Option<byte>, num: byte)
    requires cfg.enforceSeq
    ensures Judge(cfg, last, num).accept && last.Some? ==> 1 <= Ahead(last.value, num) <= 127
    ensures Next(cfg, last, num) == if Judge(cfg, last, num).accept then Some(num) else last
  {
  }

  lemma NoSteps()
    ensures Steps([])
  {
  }

  lemma {:induction false} AcceptedSteps(cfg: Config, last: Option<byte>, seqs: seq<byte>)
    requires cfg.enforceSeq
    ensures var s := AcceptedOf(cfg, last, seqs);
            Steps(s) && (last.Some? && s != [] ==> 1 <= Ahead(last.value, s[0]) <= 127)
    decreases |seqs|
  {
    hide Ahead, Steps, Judge, Next;
    if seqs == [] {
      NoSteps();
    } else {
      var next := Next(cfg, last, seqs[0]);
      EnforcedJudge(cfg, last, seqs[0]);
      AcceptedSteps(cfg, next, seqs[1..]);
      var t := AcceptedOf(cfg, next, seqs[1..]);
      if Judge(cfg, last, seqs[0]).accept {
        StepsCons(seqs[0], t);
      } else {
        assert [] + t == t;
      }
    }
  }

  lemma StepsTail(s: seq<byte>)
    requires |s| > 1 && Steps(s)
    ensures Steps(s[1..])
  {
    var t := s[1..];
    forall k | 0 <= k < |t| - 1
      ensures 1 <= Ahead(t[k], t[k + 1]) <= 127
    {
      assert t[k] == s[k + 1] && t[k + 1] == s[(k + 1) + 1];
    }
  }

  lemma LiftsCons(start: nat, t: seq<nat>, s: seq<byte>)
    requires |s| > 1 && start % 0x100 == s[0] && Lifts(t, s[1..]) && start < t[0] <= start + 127
    ensures Lifts([start] + t, s)
  {
    var r := [start] + t;
    forall k | 0 <= k < |s| - 1 ensures r[k] < r[k + 1] <= r[k] + 127 {
      assert r[k + 1] == t[k] && (k > 0 ==> r[k] == t[k - 1] && t[(k - 1) + 1] == t[k]);
    }
    forall k | 0 <= k < |s| ensures r[k] % 0x100 == s[k] {
      assert k > 0 ==> r[k] == t[k - 1] && s[k] == s[1..][k - 1];
    }
  }

  lemma {:induction false} StepsLift(start: nat, s: seq<byte>)
    requires s != [] && start % 0x100 == s[0] && Steps(s)
    ensures Lifts(LiftFrom(start, s), s) && LiftFrom(start, s)[0] == start
    decreases |s|
  {
    hide Ahead, Lifts, Steps;
    if |s| == 1 {
      LiftsOne(start, s);
      assert LiftFrom(start, s) == [start];
    } else {
      LiftCongruent(start, s[0], s[1]);
      FirstStep(s);
      var next := start + Ahead(s[0], s[1]);
      StepsTail(s);
      StepsLift(next, s[1..]);
      LiftsCons(start, LiftFrom(next, s[1..]), s);
    }
  }

  lemma LiftsOne(start: nat, s: seq<byte>)
    requires |s| == 1 && start % 0x100 == s[0]
    ensures Lifts([start], s)
  {
  }

  lemma FirstStep(s: seq<byte>)
    requires |s| > 1 && Steps(s)
    ensures 1 <= Ahead(s[0], s[1]) <= 127
  {
    assert s[0 + 1] == s[1];
  }

  /** A replayed or reordered number is refused for exactly half the circle: 0 to 128
      behind the last accepted one. */
  lemma RefusedIffBehind(cfg: Config, last: byte, behind: byte)
    requires cfg.enforceSeq
    ensures !Judge(cfg, Some(last), (last as int - behind as int + 0x100) % 0x100).accept <==> behind <= 128
  {
    var num := (last as int - behind as int + 0x100) % 0x100;
    assert Ahead(last, num) == (0x100 - behind as int) % 0x100;
  }

  /** A sender whose counter only ever rises, losing at most 126 frames in a row, is never
      refused, however often the 8-bit field wraps. */
  lemma {:induction false} HonestSenderAccepted(cfg: Config, counters: seq<nat>, last: Option<byte>)
    requires forall k :: 0 <= k < |counters| - 1 ==> counters[k] < counters[k + 1] <= counters[k] + 127
    requires last.Some? && counters != [] ==> 1 <= Ahead(last.value, counters[0] % 0x100) <= 127
    ensures AcceptedOf(cfg, last, LowOctets(counters)) == LowOctets(counters)
    decreases |counters|
  {
    if counters != [] {
      var s := LowOctets(counters);
      var rest := counters[1..];
      assert s[1..] == LowOctets(rest);
      if rest != [] {
        assert counters[0] < counters[1] <= counters[0] + 127;
        AheadOfCounters(counters[0], counters[1]);
      }
      forall k | 0 <= k < |rest| - 1
        ensures rest[k] < rest[k + 1] <= rest[k] + 127
      {
        assert rest[k + 1] == counters[k + 1 + 1] && rest[k] == counters[k + 1];
      }
      HonestSenderAccepted(cfg, rest, Some(s[0]));
    }
  }

  lemma AheadOfCounters(a: nat, b: nat)
    requires 1 <= b - a <= 127
    ensures Ahead(a % 0x100, b % 0x100) == b - a
  {
  }

  function LowOctets(counters: seq<nat>): (s: seq<byte>)
    ensures |s| == |counters|
  {
    seq(|counters|, i requires 0 <= i < |counters| => counters[i] % 0x100)
  }

  /** Whether any frame of the run is reported as a discontinuity. */
  predicate AnyDiscontinuity(cfg: Config, last: Option<byte>, seqs: seq<byte>)
    decreases |seqs|
  {
    seqs != [] && (Judge(cfg, last, seqs[0]).discontinuity
        || AnyDiscontinuity(cfg, Next(cfg, last, seqs[0]), seqs[1..]))
  }

  ghost predicate Consecutive(seqs: seq<byte>) {
    forall k :: 0 <= k < |seqs| - 1 ==> seqs[k + 1] == (seqs[k] as int + 1) % 0x100
  }

  /** A fresh stream never reports a discontinuity exactly when every number is its
      predecessor plus one, whether or not the gate is on. */
  lemma ContinuousIff(cfg: Config, seqs: seq<byte>)
    ensures !AnyDiscontinuity(cfg, None, seqs) <==> Consecutive(seqs)
  {
    if seqs != [] {
      ContinuousFrom(cfg, seqs[0], seqs[1..]);
      assert [seqs[0]] + seqs[1..] == seqs;
    }
  }

  lemma ConsecutiveFrom(seqs: seq<byte>)
    requires seqs != []
    ensures Consecutive(seqs) <==> ((|seqs| > 1 ==> seqs[1] == (seqs[0] as int + 1) % 0x100) && Consecutive(seqs[1..]))
  {
    var t := seqs[1..];
    assert forall k :: 0 <= k < |t| ==> t[k] == seqs[k + 1];
    if Consecutive(t) && (|seqs| > 1 ==> seqs[1] == (seqs[0] as int + 1) % 0x100) {
      forall k | 0 <= k < |seqs| - 1
        ensures seqs[k + 1] == (seqs[k] as int + 1) % 0x100
      {
        if k > 0 {
          assert t[k - 1 + 1] == (t[k - 1] as int + 1) % 0x100;
        }
      }
    }
    if Consecutive(seqs) {
      forall k | 0 <= k < |t| - 1
        ensures t[k + 1] == (t[k] as int + 1) % 0x100
      {
        assert seqs[k + 1 + 1] == (seqs[k + 1] as int + 1) % 0x100;
      }
    }
  }

  lemma {:induction false} ContinuousFrom(cfg: Config, last: byte, seqs: seq<byte>)
    ensures !AnyDiscontinuity(cfg, Some(last), seqs) <==> Consecutive([last] + seqs)
    decreases |seqs|
  {
    var all := [last] + seqs;
    if seqs != [] {
      ConsecutiveFrom(all);
      assert all[1..] == seqs;
      if Ahead(last, seqs[0]) == 1 {
        assert seqs[0] == (last as int + 1) % 0x100;
        ContinuousFrom(cfg, seqs[0], seqs[1..]);
        assert [seqs[0]] + seqs[1..] == seqs;
      }
    }
  }

  /** With rx_enforce_seq off nothing is ever refused, and each number becomes the one the
      next is measured against. */
  lemma {:induction false} UnenforcedAcceptsAll(cfg: Config, last: Option<byte>, seqs: seq<byte>)
    requires !cfg.enforceSeq
    ensures AcceptedOf(cfg, last, seqs) == seqs
    ensures seqs != [] ==> LastAfter(cfg, last, seqs) == Some(seqs[|seqs| - 1])
    decreases |seqs|
  {
    if seqs != [] {
      UnenforcedAcceptsAll(cfg, Some(seqs[0]), seqs[1..]);
      assert seqs == [seqs[0]] + seqs[1..];
    }
  }

  /** The number the next frame of a run is measured against: the latest accepted one. */
  lemma {:induction false} MeasuredAgainst(cfg: Config, last: Option<byte>, seqs: seq<byte>)
    ensures var s := AcceptedOf(cfg, last, seqs);
            LastAfter(cfg, last, seqs) == if s == [] then last else Some(s[|s| - 1])
    decreases |seqs|
  {
    if seqs != [] {
      MeasuredAgainst(cfg, Next(cfg, last, seqs[0]), seqs[1..]);
    }
  }

  /** The safe state is asked for exactly when the stream enables it and a frame breaks the
      sequence: it is not the first and not the successor of the latest accepted one.
      Whether the frame is accepted makes no difference, and no stream asks for it otherwise. */
  lemma SafeStateIff(cfg: Config, seqs: seq<byte>, num: byte)
    ensures var s, v := AcceptedOf(cfg, None, seqs), Judge(cfg, LastAfter(cfg, None, seqs), num);
            && (v.discontinuity <==> s != [] && num as int != (s[|s| - 1] as int + 1) % 0x100)
            && (v.enterSafeState <==> cfg.safestateEnable && v.discontinuity)
            && (v.accept <==>
                  (s == [] || !cfg.enforceSeq || 1 <= (num as int - s[|s| - 1] as int + 0x100) % 0x100 <= 127))
  {
    MeasuredAgainst(cfg, None, seqs);
  }
}
