/** The pending-request table of the raw-Ethernet client (include/rcp/l2.hpp, Client).
    Each locked section of the source is one step; so is the end of a wait, whose outcome
    is settled before the cleanup takes the lock. */
module L2Client {
  import opened Bytes
  import opened Wrappers

  /** Collision-free correlation key: byte_bus_id above the eight transaction bits. */
  function PendingKey(busId: u16, txn: byte): u32 { busId * 0x100 + txn as int }

  lemma PendingKeyInjective(b1: u16, t1: byte, b2: u16, t2: byte)
    ensures PendingKey(b1, t1) == PendingKey(b2, t2) <==> b1 == b2 && t1 == t2
    ensures PendingKey(b1, t1) / 0x100 == b1 as int && PendingKey(b1, t1) % 0x100 == t1 as int
  {
  }

  datatype Response = Response(busId: u16, txn: byte, payload: seq<byte>)

  datatype Failure = SendFailed | TimedOut

  /** One call of request(): its promise, how its wait failed if it did, and whether its
      cleanup is still to come. */
  datatype Waiter = Waiter(busId: u16, txn: byte, answer: Option<Response>, failure: Option<Failure>, inFlight: bool)

  datatype Table = Table(pending: map<u32, nat>, waiters: map<nat, Waiter>)

  datatype Step =
    | Begin(id: nat, busId: u16, txn: byte)
    | Arrive(resp: Response)
    | Fail(id: nat, failure: Failure)
    | Cleanup(id: nat)

  const EMPTY := Table(map[], map[])

  function KeyOf(w: Waiter): u32 { PendingKey(w.busId, w.txn) }

  /** Every call makes one new promise. Its wait times out only while the promise is not
      kept, and its cleanup follows once its wait has ended in whichever way. */
  predicate Legal(t: Table, s: Step) {
    match s
    case Begin(id, _, _) => id !in t.waiters
    case Arrive(_) => true
    case Fail(id, failure) =>
      id in t.waiters && t.waiters[id].inFlight && t.waiters[id].failure.None?
      && (failure == TimedOut ==> t.waiters[id].answer.None?)
    case Cleanup(id) =>
      id in t.waiters && t.waiters[id].inFlight && (t.waiters[id].answer.Some? || t.waiters[id].failure.Some?)
  }

  ghost predicate Consistent(t: Table) {
    forall k :: k in t.pending ==>
      t.pending[k] in t.waiters && KeyOf(t.waiters[t.pending[k]]) == k && t.waiters[t.pending[k]].answer.None?
  }

  /** Nobody holds a response to somebody else's request. */
  ghost predicate OwnAnswers(t: Table) {
    forall id :: id in t.waiters && t.waiters[id].answer.Some? ==>
      t.waiters[id].answer.value.busId == t.waiters[id].busId && t.waiters[id].answer.value.txn == t.waiters[id].txn
  }

  function Apply(t: Table, s: Step): Table
    requires Legal(t, s) && Consistent(t)
  {
    match s
    case Begin(id, b, n) => Table(t.pending[PendingKey(b, n) := id], t.waiters[id := Waiter(b, n, None, None, true)])
    case Arrive(resp) =>
      var k := PendingKey(resp.busId, resp.txn);
      if k !in t.pending then t else
      var id := t.pending[k];
      Table(t.pending - {k}, t.waiters[id := t.waiters[id].(answer := Some(resp))])
    case Fail(id, failure) => t.(waiters := t.waiters[id := t.waiters[id].(failure := Some(failure))])
    case Cleanup(id) => Table(t.pending - {KeyOf(t.waiters[id])}, t.waiters[id := t.waiters[id].(inFlight := false)])
  }

  datatype Outcome = Answered(resp: Response) | Failed(failure: Failure)

  /** What the caller gets: a failed wait wins over a response that came too late for it. */
  function OutcomeOf(w: Waiter): Outcome
    requires w.answer.Some? || w.failure.Some?
  {
    if w.failure.Some? then Failed(w.failure.value) else Answered(w.answer.value)
  }

  class Client {
    var pending: map<u32, nat>
    var waiters: map<nat, Waiter>

    ghost function Abs(): Table
      reads this
    {
      Table(pending, waiters)
    }

    constructor ()
      ensures Abs() == EMPTY
    {
      pending, waiters := map[], map[];
    }

    /** request(), up to the send: register the promise, replacing any entry under the key. */
    method BeginRequest(id: nat, busId: u16, txn: byte)
      requires Consistent(Abs()) && Legal(Abs(), Begin(id, busId, txn))
      modifies this
      ensures Abs() == Apply(old(Abs()), Begin(id, busId, txn)) && Consistent(Abs())
    {
      StepKeeps(Abs(), Begin(id, busId, txn));
      var key := PendingKey(busId, txn);
      waiters := waiters[id := Waiter(busId, txn, None, None, true)];
      pending := pending[key := id];
    }

    /** read_loop(): hand the frame to the entry under its key, and drop the entry. */
    method OnFrame(resp: Response)
      requires Consistent(Abs())
      modifies this
      ensures Abs() == Apply(old(Abs()), Arrive(resp)) && Consistent(Abs())
    {
      StepKeeps(Abs(), Arrive(resp));
      var key := PendingKey(resp.busId, resp.txn);
      if key in pending {
        var id := pending[key];
        waiters := waiters[id := waiters[id].(answer := Some(resp))];
        pending := pending - {key};
      }
    }

    /** The send failed, or the deadline passed with the promise not kept. The table is not
        touched yet. */
    method FailWait(id: nat, failure: Failure)
      requires Consistent(Abs()) && Legal(Abs(), Fail(id, failure))
      modifies this
      ensures Abs() == Apply(old(Abs()), Fail(id, failure)) && Consistent(Abs()) && pending == old(pending)
    {
      StepKeeps(Abs(), Fail(id, failure));
      waiters := waiters[id := waiters[id].(failure := Some(failure))];
    }

    /** The cleanup closure, erasing whatever is under this call's key, and the return. */
    method EndRequest(id: nat) returns (outcome: Outcome)
      requires Consistent(Abs()) && Legal(Abs(), Cleanup(id))
      modifies this
      ensures Abs() == Apply(old(Abs()), Cleanup(id)) && Consistent(Abs())
      ensures outcome == OutcomeOf(old(waiters[id]))
    {
      StepKeeps(Abs(), Cleanup(id));
      pending := pending - {KeyOf(waiters[id])};
      outcome := OutcomeOf(waiters[id]);
      waiters := waiters[id := waiters[id].(inFlight := false)];
    }
  }

  // ---- What every step keeps.

  lemma StepKeeps(t: Table, s: Step)
    requires Consistent(t) && Legal(t, s)
    ensures Consistent(Apply(t, s))
    ensures OwnAnswers(t) ==> OwnAnswers(Apply(t, s))
  {
    var u := Apply(t, s);
    match s {
      case Begin(id, b, n) =>
        forall k | k in u.pending
          ensures u.pending[k] in u.waiters && KeyOf(u.waiters[u.pending[k]]) == k
              && u.waiters[u.pending[k]].answer.None?
        {
          if k != PendingKey(b, n) {
            assert t.pending[k] in t.waiters;
          }
        }
      case Arrive(resp) =>
        var k0 := PendingKey(resp.busId, resp.txn);
        if k0 in t.pending {
          var w := t.waiters[t.pending[k0]];
          PendingKeyInjective(w.busId, w.txn, resp.busId, resp.txn);
          forall k | k in u.pending
            ensures u.pending[k] in u.waiters && KeyOf(u.waiters[u.pending[k]]) == k
                && u.waiters[u.pending[k]].answer.None?
          {
            assert k in t.pending && k != k0;
          }
        }
      case Fail(id, _) =>
      case Cleanup(id) =>
        forall k | k in u.pending
          ensures u.pending[k] in u.waiters && KeyOf(u.waiters[u.pending[k]]) == k
              && u.waiters[u.pending[k]].answer.None?
        {
          assert k in t.pending;
        }
    }
  }

  /** An arriving frame completes at most one request, the one registered under its pair,
      and no answer is ever replaced. */
  lemma FrameCompletesAtMostOne(t: Table, resp: Response, i: nat, j: nat)
    requires Consistent(t) && i in t.waiters && j in t.waiters
    ensures var u := Apply(t, Arrive(resp));
            && (u.waiters[i] != t.waiters[i] && u.waiters[j] != t.waiters[j] ==> i == j)
            && (t.waiters[i].answer.Some? ==> u.waiters[i] == t.waiters[i])
            && (u.waiters[i] != t.waiters[i] <==> PendingKey(resp.busId, resp.txn) in t.pending
                                                  && t.pending[PendingKey(resp.busId, resp.txn)] == i)
  {
  }

  // ---- Runs.

  ghost predicate LegalRun(t: Table, ss: seq<Step>)
    requires Consistent(t)
    decreases |ss|
  {
    ss == [] || (Legal(t, ss[0]) && (StepKeeps(t, ss[0]); LegalRun(Apply(t, ss[0]), ss[1..])))
  }

  ghost function Run(t: Table, ss: seq<Step>): (u: Table)
    requires Consistent(t) && LegalRun(t, ss)
    ensures Consistent(u)
    decreases |ss|
  {
    if ss == [] then t else (StepKeeps(t, ss[0]); Run(Apply(t, ss[0]), ss[1..]))
  }

  /** Whatever the interleaving, a completed request holds a response with its own pair. */
  lemma {:induction false} AnswersMatch(t: Table, ss: seq<Step>)
    requires Consistent(t) && OwnAnswers(t) && LegalRun(t, ss)
    ensures OwnAnswers(Run(t, ss))
    decreases |ss|
  {
    if ss != [] {
      StepKeeps(t, ss[0]);
      AnswersMatch(Apply(t, ss[0]), ss[1..]);
    }
  }

  lemma AnswersMatchFromEmpty(ss: seq<Step>)
    requires LegalRun(EMPTY, ss)
    ensures OwnAnswers(Run(EMPTY, ss))
  {
    AnswersMatch(EMPTY, ss);
  }

  // ---- When a request loses its entry.

  ghost predicate HasEntry(t: Table, id: nat) {
    id in t.waiters && KeyOf(t.waiters[id]) in t.pending && t.pending[KeyOf(t.waiters[id])] == id
  }

  /** The step touches the table under the key; a cleanup does so under its request's. */
  predicate WorksOn(t: Table, s: Step, key: u32)
    requires Legal(t, s)
  {
    match s
    case Begin(_, b, n) => PendingKey(b, n) == key
    case Arrive(resp) => PendingKey(resp.busId, resp.txn) == key
    case Fail(_, _) => false
    case Cleanup(j) => KeyOf(t.waiters[j]) == key
  }

  /** The entry survives a step exactly when the step works on another pair. */
  lemma EntryKeptIff(t: Table, s: Step, id: nat)
    requires Consistent(t) && Legal(t, s) && HasEntry(t, id)
    ensures HasEntry(Apply(t, s), id) <==> !WorksOn(t, s, KeyOf(t.waiters[id]))
    ensures id in Apply(t, s).waiters && KeyOf(Apply(t, s).waiters[id]) == KeyOf(t.waiters[id])
    ensures Apply(t, s).waiters[id].answer
         == if s.Arrive? && WorksOn(t, s, KeyOf(t.waiters[id])) then Some(s.resp) else t.waiters[id].answer
  {
  }

  /** The first step of the run that works on the key. */
  ghost function FirstOn(t: Table, ss: seq<Step>, key: u32): Option<Step>
    requires Consistent(t) && LegalRun(t, ss)
    decreases |ss|
  {
    if ss == [] then None
    else if WorksOn(t, ss[0], key) then Some(ss[0])
    else (StepKeeps(t, ss[0]); FirstOn(Apply(t, ss[0]), ss[1..], key))
  }

  lemma LostStaysLostStep(t: Table, s: Step, id: nat)
    requires Consistent(t) && Legal(t, s) && id in t.waiters && !HasEntry(t, id)
    ensures id in Apply(t, s).waiters && !HasEntry(Apply(t, s), id)
        && Apply(t, s).waiters[id].answer == t.waiters[id].answer
  {
  }

  /** A request without an entry never gets one again, and never an answer. */
  lemma {:induction false} LostStaysLost(t: Table, ss: seq<Step>, id: nat)
    requires Consistent(t) && LegalRun(t, ss) && id in t.waiters && !HasEntry(t, id)
    ensures id in Run(t, ss).waiters && !HasEntry(Run(t, ss), id)
        && Run(t, ss).waiters[id].answer == t.waiters[id].answer
    decreases |ss|
  {
    hide HasEntry, Apply, Legal, Consistent;
    if ss != [] {
      StepKeeps(t, ss[0]);
      LostStaysLostStep(t, ss[0], id);
      LostStaysLost(Apply(t, ss[0]), ss[1..], id);
    }
  }

  /** The first step on its pair decides a registered request's fate over any run. It keeps
      its entry exactly while there is none -- no other request, frame or cleanup, nor its
      own cleanup -- and it is answered exactly when that step is a frame, and by it. */
  lemma {:induction false} FirstStepDecides(t: Table, ss: seq<Step>, id: nat)
    requires Consistent(t) && LegalRun(t, ss) && HasEntry(t, id)
    ensures HasEntry(Run(t, ss), id) <==> FirstOn(t, ss, KeyOf(t.waiters[id])).None?
    ensures id in Run(t, ss).waiters
    ensures forall r ::
      Run(t, ss).waiters[id].answer == Some(r) <==> FirstOn(t, ss, KeyOf(t.waiters[id])) == Some(Arrive(r))
    decreases |ss|
  {
    hide Apply;
    Unanswered(t, id);
    if ss != [] {
      StepKeeps(t, ss[0]);
      EntryKeptIff(t, ss[0], id);
      var next := Apply(t, ss[0]);
      if HasEntry(next, id) {
        FirstStepDecides(next, ss[1..], id);
      } else {
        LostStaysLost(next, ss[1..], id);
      }
    }
  }

  lemma Unanswered(t: Table, id: nat)
    requires Consistent(t) && HasEntry(t, id)
    ensures t.waiters[id].answer.None?
  {
  }

  /** A call that has returned is over: no step of any later run changes its outcome or can be
      its own, and no table entry of its own making is left behind. */
  lemma {:induction false} EndedStaysEnded(t: Table, ss: seq<Step>, id: nat)
    requires Consistent(t) && Legal(t, Cleanup(id))
    requires LegalRun(Apply(t, Cleanup(id)), (StepKeeps(t, Cleanup(id)); ss))
    ensures Cleanup(id) !in ss && (forall f :: Fail(id, f) !in ss)
  {
    StepKeeps(t, Cleanup(id));
    AfterCleanup(t, id);
    OverForGood(Apply(t, Cleanup(id)), ss, id);
  }

  lemma AfterCleanup(t: Table, id: nat)
    requires Consistent(t) && Legal(t, Cleanup(id))
    ensures id in Apply(t, Cleanup(id)).waiters && !Apply(t, Cleanup(id)).waiters[id].inFlight
  {
  }

  lemma {:induction false} OverForGood(t: Table, ss: seq<Step>, id: nat)
    requires Consistent(t) && LegalRun(t, ss) && id in t.waiters && !t.waiters[id].inFlight
    ensures Cleanup(id) !in ss && (forall f :: Fail(id, f) !in ss)
    decreases |ss|
  {
    if ss != [] {
      StepKeeps(t, ss[0]);
      OverForGood(Apply(t, ss[0]), ss[1..], id);
    }
  }

  // ---- When nobody is lost.

  /** A call that is still waiting: no answer, no failure, no cleanup. */
  predicate Waiting(t: Table, id: nat) {
    id in t.waiters && t.waiters[id].inFlight && t.waiters[id].answer.None? && t.waiters[id].failure.None?
  }

  /** Every call that is still waiting has its entry. */
  ghost predicate Whole(t: Table) {
    forall id :: Waiting(t, id) ==> HasEntry(t, id)
  }

  /** A new request finds no waiting call's entry under its pair, and a cleanup finds no
      other waiting call's. */
  predicate Harmless(t: Table, s: Step)
    requires Legal(t, s)
  {
    match s
    case Begin(_, b, n) => PendingKey(b, n) in t.pending ==> !Waiting(t, t.pending[PendingKey(b, n)])
    case Cleanup(j) =>
      var k := KeyOf(t.waiters[j]);
      k in t.pending && t.pending[k] != j ==> !Waiting(t, t.pending[k])
    case _ => true
  }

  lemma HarmlessKeepsWhole(t: Table, s: Step)
    requires Consistent(t) && Legal(t, s) && Whole(t) && Harmless(t, s)
    ensures Whole(Apply(t, s))
  {
    var u := Apply(t, s);
    forall i | Waiting(u, i) ensures HasEntry(u, i) {
      if i in t.waiters {
        assert Waiting(t, i);
        EntryKeptIff(t, s, i);
      }
    }
  }

  lemma HarmBreaksWhole(t: Table, s: Step)
    requires Consistent(t) && Legal(t, s) && !Harmless(t, s)
    ensures !Whole(Apply(t, s))
  {
    var key := if s.Begin? then PendingKey(s.busId, s.txn) else KeyOf(t.waiters[s.id]);
    var i := t.pending[key];
    assert Waiting(t, i) && HasEntry(t, i);
    EntryKeptIff(t, s, i);
    assert Waiting(Apply(t, s), i);
  }

  ghost predicate AlwaysWhole(t: Table, ss: seq<Step>)
    requires Consistent(t) && LegalRun(t, ss)
    decreases |ss|
  {
    Whole(t) && (ss == [] || (StepKeeps(t, ss[0]); AlwaysWhole(Apply(t, ss[0]), ss[1..])))
  }

  ghost predicate AllHarmless(t: Table, ss: seq<Step>)
    requires Consistent(t) && LegalRun(t, ss)
    decreases |ss|
  {
    ss == [] || (Harmless(t, ss[0]) && (StepKeeps(t, ss[0]); AllHarmless(Apply(t, ss[0]), ss[1..])))
  }

  /** Over any run, no waiting call is ever without its entry exactly when every step is
      harmless: the two ways to lose one are a new request on the pair of a waiting call,
      and the cleanup of an earlier call on that pair. */
  lemma {:induction false} AlwaysWholeIff(t: Table, ss: seq<Step>)
    requires Consistent(t) && LegalRun(t, ss) && Whole(t)
    ensures AlwaysWhole(t, ss) <==> AllHarmless(t, ss)
    decreases |ss|
  {
    hide Whole, Harmless, Consistent, Legal, Apply;
    if ss != [] {
      StepKeeps(t, ss[0]);
      if Harmless(t, ss[0]) {
        HarmlessKeepsWhole(t, ss[0]);
        AlwaysWholeIff(Apply(t, ss[0]), ss[1..]);
      } else {
        HarmBreaksWhole(t, ss[0]);
      }
    }
  }

  // ---- A discipline a caller can follow: never start on a pair in flight.

  ghost predicate DistinctInFlight(t: Table) {
    && (forall i, j :: i in t.waiters && j in t.waiters && i != j && t.waiters[i].inFlight && t.waiters[j].inFlight
                       ==> KeyOf(t.waiters[i]) != KeyOf(t.waiters[j]))
    && (forall k :: k in t.pending ==> t.pending[k] in t.waiters && t.waiters[t.pending[k]].inFlight)
  }

  predicate StartsOnFreePair(t: Table, s: Step) {
    s.Begin? ==>
      forall i :: i in t.waiters && t.waiters[i].inFlight ==> KeyOf(t.waiters[i]) != PendingKey(s.busId, s.txn)
  }

  ghost predicate DistinctRun(t: Table, ss: seq<Step>)
    requires Consistent(t) && LegalRun(t, ss)
    decreases |ss|
  {
    ss == [] || (StartsOnFreePair(t, ss[0]) && (StepKeeps(t, ss[0]); DistinctRun(Apply(t, ss[0]), ss[1..])))
  }

  lemma DistinctStep(t: Table, s: Step)
    requires Consistent(t) && Legal(t, s) && DistinctInFlight(t) && StartsOnFreePair(t, s)
    ensures Harmless(t, s) && DistinctInFlight(Apply(t, s))
  {
  }

  /** While pairs in flight are distinct every step is harmless, so nobody is ever lost. */
  lemma {:induction false} DistinctPairsLoseNothing(t: Table, ss: seq<Step>)
    requires Consistent(t) && LegalRun(t, ss) && DistinctRun(t, ss) && DistinctInFlight(t) && Whole(t)
    ensures AllHarmless(t, ss) && AlwaysWhole(t, ss)
    decreases |ss|
  {
    hide DistinctInFlight, Whole, Harmless, StartsOnFreePair, Consistent, Legal, Apply;
    AlwaysWholeIff(t, ss);
    if ss != [] {
      StepKeeps(t, ss[0]);
      DistinctStep(t, ss[0]);
      HarmlessKeepsWhole(t, ss[0]);
      DistinctPairsLoseNothing(Apply(t, ss[0]), ss[1..]);
    }
  }

  // ---- Runs that show the edges.

  lemma Unroll(t: Table, s: Step, ss: seq<Step>)
    requires Consistent(t) && Legal(t, s)
    ensures Consistent(Apply(t, s))
    ensures LegalRun(Apply(t, s), ss) ==>
      && LegalRun(t, [s] + ss) && Run(t, [s] + ss) == Run(Apply(t, s), ss)
      && (AllHarmless(t, [s] + ss) <==> Harmless(t, s) && AllHarmless(Apply(t, s), ss))
      && (DistinctRun(t, [s] + ss) <==> StartsOnFreePair(t, s) && DistinctRun(Apply(t, s), ss))
  {
    StepKeeps(t, s);
    assert ([s] + ss)[1..] == ss;
  }

  /** A second request on the pair of a waiting one takes over its entry, and the response
      goes to the second. */
  lemma SecondRequestDisplacesFirst(busId: u16, txn: byte, resp: Response)
    requires resp.busId == busId && resp.txn == txn
    ensures var ss := [Begin(0, busId, txn)] + ([Begin(1, busId, txn)] + ([Arrive(resp)] + []));
            && LegalRun(EMPTY, ss) && 0 in Run(EMPTY, ss).waiters && 1 in Run(EMPTY, ss).waiters
            && Run(EMPTY, ss).waiters[0].answer == None && Run(EMPTY, ss).waiters[1].answer == Some(resp)
            && Run(EMPTY, ss).pending == map[] && !AllHarmless(EMPTY, ss)
  {
    var s0, s1, s2 := Begin(0, busId, txn), Begin(1, busId, txn), Arrive(resp);
    StepKeeps(EMPTY, s0);
    var t1 := Apply(EMPTY, s0);
    StepKeeps(t1, s1);
    var t2 := Apply(t1, s1);
    StepKeeps(t2, s2);
    Unroll(t2, s2, []);
    Unroll(t1, s1, [s2] + []);
    Unroll(EMPTY, s0, [s1] + ([s2] + []));
    assert !Harmless(t1, s1);
  }

  /** The discipline is not necessary: a pair may be reused as soon as its first response
      is in, before that call's cleanup, if the second response comes in before it too. */
  lemma ReuseBeforeCleanup(busId: u16, txn: byte, r: Response, q: Response)
    requires r.busId == q.busId == busId && r.txn == q.txn == txn
    ensures var ss := [Begin(0, busId, txn)]
        + ([Arrive(r)] + ([Begin(1, busId, txn)] + ([Arrive(q)] + ([Cleanup(0)] + ([Cleanup(1)] + [])))));
            && LegalRun(EMPTY, ss) && AllHarmless(EMPTY, ss) && !DistinctRun(EMPTY, ss)
            && 0 in Run(EMPTY, ss).waiters && 1 in Run(EMPTY, ss).waiters
            && Run(EMPTY, ss).waiters[0].answer == Some(r) && Run(EMPTY, ss).waiters[1].answer == Some(q)
  {
    var s0, s1, s2, s3, s4, s5 := Begin(0, busId, txn), Arrive(r), Begin(1, busId, txn), Arrive(q), Cleanup(0),
        Cleanup(1);
    StepKeeps(EMPTY, s0);
    var t1 := Apply(EMPTY, s0);
    StepKeeps(t1, s1);
    var t2 := Apply(t1, s1);
    StepKeeps(t2, s2);
    var t3 := Apply(t2, s2);
    StepKeeps(t3, s3);
    var t4 := Apply(t3, s3);
    StepKeeps(t4, s4);
    var t5 := Apply(t4, s4);
    StepKeeps(t5, s5);
    assert !StartsOnFreePair(t2, s2) by { assert 0 in t2.waiters && t2.waiters[0].inFlight; }
    Unroll(t5, s5, []);
    Unroll(t4, s4, [s5] + []);
    Unroll(t3, s3, [s4] + ([s5] + []));
    Unroll(t2, s2, [s3] + ([s4] + ([s5] + [])));
    Unroll(t1, s1, [s2] + ([s3] + ([s4] + ([s5] + []))));
    Unroll(EMPTY, s0, [s1] + ([s2] + ([s3] + ([s4] + ([s5] + [])))));
  }

  /** A response that comes after the wait timed out but before the cleanup is taken out of
      the table for nobody: the call still fails. */
  lemma LateResponseDropped(busId: u16, txn: byte, resp: Response)
    requires resp.busId == busId && resp.txn == txn
    ensures var ss := [Begin(0, busId, txn)] + ([Fail(0, TimedOut)] + ([Arrive(resp)] + []));
            && LegalRun(EMPTY, ss) && Legal(Run(EMPTY, ss), Cleanup(0))
            && Run(EMPTY, ss).waiters[0].answer == Some(resp)
               && OutcomeOf(Run(EMPTY, ss).waiters[0]) == Failed(TimedOut)
  {
    var s0, s1, s2 := Begin(0, busId, txn), Fail(0, TimedOut), Arrive(resp);
    StepKeeps(EMPTY, s0);
    var t1 := Apply(EMPTY, s0);
    StepKeeps(t1, s1);
    var t2 := Apply(t1, s1);
    StepKeeps(t2, s2);
    Unroll(t2, s2, []);
    Unroll(t1, s1, [s2] + []);
    Unroll(EMPTY, s0, [s1] + ([s2] + []));
  }
}
