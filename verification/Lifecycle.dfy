/** The server lifecycle (include/rcp/lifecycle.hpp): plausibility checks, the guarded state
    machine, its state-changed subscribers, and the register locking that hangs off the state. */
module Lifecycle {
  import opened Wrappers

  datatype State = HwUnconfigured | HwConfigured | RcpConfigured

  datatype Outcome = Done | InvalidTransition | HwCfgInconsistent | RcpCfgInconsistent | Unauthorized | EpsNotIdle

  // ---- Plausibility.

  datatype Endpoint = Endpoint(used: bool, pinMapped: bool, hasRequestStream: bool, hasStreamAssoc: bool,
      requestStreamIndex: nat)

  datatype RequestStream = RequestStream(configured: bool, hasResponseStream: bool, responseStreamIndex: nat)

  datatype Snapshot = Snapshot(endpoints: seq<Endpoint>, requestStreams: seq<RequestStream>, responseStreamCount: nat)

  predicate HwConsistent(snap: Snapshot) {
    forall e :: e in snap.endpoints && e.used ==> e.pinMapped && e.hasRequestStream
  }

  predicate Bound(endpoints: seq<Endpoint>, stream: nat) {
    exists e :: e in endpoints && e.used && e.hasStreamAssoc && e.requestStreamIndex == stream
  }

  predicate StreamConsistent(snap: Snapshot, i: nat)
    requires i < |snap.requestStreams|
  {
    var rs := snap.requestStreams[i];
    rs.configured ==>
      rs.hasResponseStream && rs.responseStreamIndex < snap.responseStreamCount && Bound(snap.endpoints, i)
  }

  predicate RcpConsistent(snap: Snapshot) {
    && (forall e :: e in snap.endpoints && e.used ==> e.hasStreamAssoc)
    && (forall i :: 0 <= i < |snap.requestStreams| ==> StreamConsistent(snap, i))
  }

  method RequestStreamsConsistent(snap: Snapshot) returns (ok: bool)
    ensures ok <==> forall i :: 0 <= i < |snap.requestStreams| ==> StreamConsistent(snap, i)
  {
    var i := 0;
    while i < |snap.requestStreams|
      invariant 0 <= i <= |snap.requestStreams|
      invariant forall j :: 0 <= j < i ==> StreamConsistent(snap, j)
    {
      var rs := snap.requestStreams[i];
      if rs.configured {
        var hasBoundEndpoint := false;
        var k := 0;
        while k < |snap.endpoints| && !hasBoundEndpoint
          invariant 0 <= k <= |snap.endpoints|
          invariant hasBoundEndpoint ==> Bound(snap.endpoints, i)
          invariant !hasBoundEndpoint ==> forall m :: 0 <= m < k ==>
            !(snap.endpoints[m].used && snap.endpoints[m].hasStreamAssoc && snap.endpoints[m].requestStreamIndex == i)
        {
          var ep := snap.endpoints[k];
          if ep.used && ep.hasStreamAssoc && ep.requestStreamIndex == i {
            hasBoundEndpoint := true;
          }
          k := k + 1;
        }
        if !rs.hasResponseStream || rs.responseStreamIndex >= snap.responseStreamCount || !hasBoundEndpoint {
          assert !StreamConsistent(snap, i);
          return false;
        }
      }
      i := i + 1;
    }
    ok := true;
  }

  method CheckHwCfg(snap: Snapshot) returns (o: Outcome)
    ensures o == if HwConsistent(snap) then Done else HwCfgInconsistent
  {
    for i := 0 to |snap.endpoints|
      invariant forall j :: 0 <= j < i && snap.endpoints[j].used ==>
        snap.endpoints[j].pinMapped && snap.endpoints[j].hasRequestStream
    {
      var ep := snap.endpoints[i];
      if ep.used && (!ep.pinMapped || !ep.hasRequestStream) {
        return HwCfgInconsistent;
      }
    }
    o := Done;
  }

  method CheckRcpCfg(snap: Snapshot) returns (o: Outcome)
    ensures o == if RcpConsistent(snap) then Done else RcpCfgInconsistent
  {
    for i := 0 to |snap.endpoints|
      invariant forall j :: 0 <= j < i && snap.endpoints[j].used ==> snap.endpoints[j].hasStreamAssoc
    {
      var ep := snap.endpoints[i];
      if ep.used && !ep.hasStreamAssoc {
        return RcpCfgInconsistent;
      }
    }
    var ok := RequestStreamsConsistent(snap);
    o := if ok then Done else RcpCfgInconsistent;
  }

  /** Something wrong with request stream `i`: it answers to no response stream, to one that
      is not there, or no used endpoint belongs to it. */
  predicate Dangling(snap: Snapshot, i: nat)
    requires i < |snap.requestStreams|
  {
    var rs := snap.requestStreams[i];
    rs.configured
    && (!rs.hasResponseStream || rs.responseStreamIndex >= snap.responseStreamCount
        || forall e :: e in snap.endpoints && e.used && e.hasStreamAssoc ==> e.requestStreamIndex != i)
  }

  lemma DanglingIff(snap: Snapshot, i: nat)
    requires i < |snap.requestStreams|
    ensures Dangling(snap, i) <==> !StreamConsistent(snap, i)
  {
  }

  /** What a refused snapshot has wrong with it: a used endpoint without pin or request
      stream; a used endpoint in no stream; or a dangling request stream. */
  lemma InconsistencyNamed(snap: Snapshot)
    ensures !HwConsistent(snap) <==> exists e :: e in snap.endpoints && e.used && !(e.pinMapped && e.hasRequestStream)
    ensures !RcpConsistent(snap)
       <==> || (exists e :: e in snap.endpoints && e.used && !e.hasStreamAssoc)
            || (exists i :: 0 <= i < |snap.requestStreams| && Dangling(snap, i))
  {
    hide Dangling, StreamConsistent;
    forall i | 0 <= i < |snap.requestStreams|
      ensures Dangling(snap, i) <==> !StreamConsistent(snap, i)
    {
      DanglingIff(snap, i);
    }
  }

  // ---- The state machine.

  datatype Writer = Writer(rootClientEp0: bool, owningStream: bool, nonUnicast: bool, discoveryStream: bool,
      validAssociation: bool)

  /** Why a request to enter `target` is refused; Done when it is not. */
  function Guard(state: State, target: State, snap: Snapshot, w: Writer, othersIdle: bool): Outcome {
    var authorized := w.discoveryStream || w.rootClientEp0 || w.validAssociation;
    match (state, target)
    case (HwUnconfigured, HwConfigured) => if HwConsistent(snap) then Done else HwCfgInconsistent
    case (HwConfigured, RcpConfigured) =>
      if !authorized then Unauthorized else if RcpConsistent(snap) then Done else RcpCfgInconsistent
    case (RcpConfigured, HwConfigured) =>
      if !w.rootClientEp0 && !w.validAssociation then Unauthorized else if othersIdle then Done else EpsNotIdle
    case (HwConfigured, HwUnconfigured) =>
      if !authorized then Unauthorized else if othersIdle then Done else EpsNotIdle
    case (RcpConfigured, HwUnconfigured) =>
      if !w.rootClientEp0 then Unauthorized else if othersIdle then Done else EpsNotIdle
    case (HwUnconfigured, RcpConfigured) => InvalidTransition
    case _ => Done
  }

  /** The older two-step entry point, gated by the application's own two verdicts. */
  function AdvanceGuard(state: State, target: State, hwOk: bool, rcpOk: bool): Outcome {
    match (state, target)
    case (HwUnconfigured, HwConfigured) => if hwOk then Done else HwCfgInconsistent
    case (HwConfigured, RcpConfigured) => if rcpOk then Done else RcpCfgInconsistent
    case _ => InvalidTransition
  }

  datatype Change = Change(previous: State, current: State)

  function Notified(logs: seq<seq<Change>>, previous: State, current: State): (r: seq<seq<Change>>)
    ensures |r| == |logs|
  {
    if previous == current then logs
    else seq(|logs|, k requires 0 <= k < |logs| => logs[k] + [Change(previous, current)])
  }

  /** A subscriber is the log of what its callback has been told. */
  class ServerLifecycle {
    var state: State
    var logs: seq<seq<Change>>

    constructor ()
      ensures state == HwUnconfigured && logs == []
    {
      state := HwUnconfigured;
      logs := [];
    }

    method Subscribe()
      modifies this
      ensures state == old(state) && logs == old(logs) + [[]]
    {
      logs := logs + [[]];
    }

    method NotifyStateChanged(previous: State, current: State)
      modifies this`logs
      ensures logs == Notified(old(logs), previous, current)
    {
      if previous == current {
        return;
      }
      var before := logs;
      for k := 0 to |before|
        invariant |logs| == |before|
        invariant forall m :: 0 <= m < |before| ==>
          logs[m] == if m < k then before[m] + [Change(previous, current)] else before[m]
      {
        logs := logs[k := logs[k] + [Change(previous, current)]];
      }
    }

    method Commit(target: State)
      modifies this
      ensures state == target && logs == Notified(old(logs), old(state), target)
    {
      var previous := state;
      state := target;
      NotifyStateChanged(previous, state);
    }

    method Transition(target: State, snap: Snapshot, w: Writer, othersIdle: bool) returns (o: Outcome)
      modifies this
      ensures o == Guard(old(state), target, snap, w, othersIdle)
      ensures state == (if o == Done then target else old(state))
      ensures logs == Notified(old(logs), old(state), state)
    {
      var source := state;
      var authorized := w.discoveryStream || w.rootClientEp0 || w.validAssociation;
      if target == source {
        return Done;
      }
      if source == HwUnconfigured && target == HwConfigured {
        o := CheckHwCfg(snap);
        if o == Done { Commit(target); }
        return;
      }
      if source == HwConfigured && target == RcpConfigured {
        if !authorized { return Unauthorized; }
        o := CheckRcpCfg(snap);
        if o == Done { Commit(target); }
        return;
      }
      if source == RcpConfigured && target == HwConfigured {
        if !w.rootClientEp0 && !w.validAssociation { return Unauthorized; }
        if !othersIdle { return EpsNotIdle; }
        Commit(target);
        return Done;
      }
      if target == HwUnconfigured && source == HwConfigured {
        if !authorized { return Unauthorized; }
        if !othersIdle { return EpsNotIdle; }
        Commit(target);
        return Done;
      }
      if target == HwUnconfigured && source == RcpConfigured {
        if !w.rootClientEp0 { return Unauthorized; }
        if !othersIdle { return EpsNotIdle; }
        Commit(target);
        return Done;
      }
      o := InvalidTransition;
    }

    method Advance(target: State, hwOk: bool, rcpOk: bool) returns (o: Outcome)
      modifies this
      ensures o == AdvanceGuard(old(state), target, hwOk, rcpOk)
      ensures state == (if o == Done then target else old(state))
      ensures logs == Notified(old(logs), old(state), state)
    {
      if state == HwUnconfigured && target == HwConfigured {
        if !hwOk { return HwCfgInconsistent; }
        Commit(HwConfigured);
        return Done;
      }
      if state == HwConfigured && target == RcpConfigured {
        if !rcpOk { return RcpCfgInconsistent; }
        Commit(RcpConfigured);
        return Done;
      }
      o := InvalidTransition;
    }

    method Deconfigure()
      modifies this
      ensures state == HwUnconfigured && logs == Notified(old(logs), old(state), HwUnconfigured)
    {
      Commit(HwUnconfigured);
    }
  }

  // ---- Register locking.

  datatype FieldKind = HwGeneric | FunctionalW | FunctionalWStar | ReadOnly

  predicate FieldWritable(state: State, kind: FieldKind, w: Writer) {
    var authorized := w.rootClientEp0 || w.owningStream;
    var writable :=
      match kind
      case HwGeneric => state == HwUnconfigured && w.discoveryStream
      case FunctionalW =>
        if state == HwUnconfigured then false
        else if state == RcpConfigured then authorized else authorized || w.discoveryStream
      case FunctionalWStar =>
        if state == RcpConfigured then false
        else if state == HwConfigured then authorized || w.discoveryStream else true
      case ReadOnly => false;
    writable && !w.nonUnicast
  }

  datatype WriteError = LockedMemAccess | UnauthorizedAccess

  const BEST := Writer(true, true, false, true, false)

  function FieldWriteError(state: State, kind: FieldKind, w: Writer): Option<WriteError> {
    if FieldWritable(state, kind, w) then None
    else if !FieldWritable(state, kind, BEST) then Some(LockedMemAccess)
    else Some(UnauthorizedAccess)
  }

  /** A denial says "locked" exactly when nobody could have written, and "unauthorized"
      exactly when somebody else could. */
  lemma WriteErrorMeaning(state: State, kind: FieldKind, w: Writer)
    ensures FieldWriteError(state, kind, w) == None <==> FieldWritable(state, kind, w)
    ensures FieldWriteError(state, kind, w) == Some(LockedMemAccess) <==> forall v :: !FieldWritable(state, kind, v)
    ensures FieldWriteError(state, kind, w) == Some(UnauthorizedAccess)
       <==> !FieldWritable(state, kind, w) && exists v :: FieldWritable(state, kind, v)
  {
    if v :| FieldWritable(state, kind, v) {
      assert FieldWritable(state, kind, BEST);
    }
  }

  /** The explicitly lockable kind: the W* rule, unless the field's own lock is set. */
  predicate FieldWritableWPlus(state: State, w: Writer, locked: bool) {
    !locked && FieldWritable(state, FunctionalWStar, w)
  }

  function FieldWriteErrorWPlus(state: State, w: Writer, locked: bool): Option<WriteError> {
    if FieldWritableWPlus(state, w, locked) then None
    else if locked then Some(LockedMemAccess)
    else if !FieldWritableWPlus(state, BEST, false) then Some(LockedMemAccess)
    else Some(UnauthorizedAccess)
  }

  lemma WPlusErrorMeaning(state: State, w: Writer, locked: bool)
    ensures FieldWriteErrorWPlus(state, w, locked) == Some(LockedMemAccess)
        <==> forall v :: !FieldWritableWPlus(state, v, locked)
    ensures FieldWriteErrorWPlus(state, w, locked) == Some(UnauthorizedAccess)
       <==> !FieldWritableWPlus(state, w, locked) && exists v :: FieldWritableWPlus(state, v, locked)
  {
    if v :| FieldWritableWPlus(state, v, locked) {
      assert FieldWritableWPlus(state, BEST, locked);
    }
  }

  /** A lockable field that is not locked is written in HwUnconfigured by anybody, in
      HwConfigured by the root client, the owning stream or the discovery stream, and never
      while live; a locked one never. */
  lemma WPlusWritableIff(state: State, w: Writer, locked: bool)
    ensures FieldWritableWPlus(state, w, locked)
       <==> !locked && !w.nonUnicast && state != RcpConfigured
            && (state == HwUnconfigured || w.rootClientEp0 || w.owningStream || w.discoveryStream)
  {
  }

  // ---- Runs of a server and its registers.

  datatype Field = Field(kind: FieldKind, value: int)

  datatype Server = Server(state: State, logs: seq<seq<Change>>, fields: map<nat, Field>)

  datatype Event =
    | Transition(target: State, snap: Snapshot, writer: Writer, othersIdle: bool)
    | Advance(target: State, hwOk: bool, rcpOk: bool)
    | Deconfigure
    | Subscribe
    | Write(field: nat, value: int, writer: Writer)

  function NextState(state: State, e: Event): State {
    match e
    case Transition(target, snap, w, idle) => if Guard(state, target, snap, w, idle) == Done then target else state
    case Advance(target, hwOk, rcpOk) => if AdvanceGuard(state, target, hwOk, rcpOk) == Done then target else state
    case Deconfigure => HwUnconfigured
    case _ => state
  }

  function NextFields(state: State, fields: map<nat, Field>, e: Event): map<nat, Field> {
    if e.Write? && e.field in fields && FieldWritable(state, fields[e.field].kind, e.writer)
    then fields[e.field := fields[e.field].(value := e.value)]
    else fields
  }

  function Step(s: Server, e: Event): Server {
    var logs := Notified(s.logs, s.state, NextState(s.state, e));
    Server(NextState(s.state, e), if e.Subscribe? then logs + [[]] else logs, NextFields(s.state, s.fields, e))
  }

  function After(s: Server, es: seq<Event>, n: nat): Server
    requires n <= |es|
  {
    if n == 0 then s else Step(After(s, es, n - 1), es[n - 1])
  }

  /** What it takes to go live. */
  predicate Commissions(state: State, e: Event) {
    && state == HwConfigured
    && match e
       case Transition(target, snap, w, _) =>
         target == RcpConfigured && (w.discoveryStream || w.rootClientEp0 || w.validAssociation) && RcpConsistent(snap)
       case Advance(target, _, rcpOk) => target == RcpConfigured && rcpOk
       case _ => false
  }

  ghost predicate SameValues(a: map<nat, Field>, b: map<nat, Field>, kind: FieldKind) {
    && a.Keys == b.Keys
    && forall id :: id in a ==> a[id].kind == b[id].kind && (a[id].kind == kind ==> a[id].value == b[id].value)
  }

  lemma EntersOnlyByCommissioning(state: State, e: Event)
    ensures state != RcpConfigured && NextState(state, e) == RcpConfigured <==> Commissions(state, e)
  {
  }

  /** What it takes to take a live server down: an unconditional deconfigure or, with every
      other endpoint idle, the root client -- or, one step only, a valid stream association.
      The discovery stream never suffices. */
  predicate TakesDown(e: Event) {
    match e
    case Deconfigure => true
    case Transition(HwUnconfigured, _, w, idle) => w.rootClientEp0 && idle
    case Transition(HwConfigured, _, w, idle) => (w.rootClientEp0 || w.validAssociation) && idle
    case _ => false
  }

  lemma LeavesLiveOnly(e: Event)
    ensures NextState(RcpConfigured, e) != RcpConfigured <==> TakesDown(e)
  {
  }

  /** One event's power over the registers, by the state it finds. */
  lemma StepKeeps(s: Server, e: Event)
    ensures s.state == RcpConfigured ==> SameValues(s.fields, Step(s, e).fields, FunctionalWStar)
    ensures s.state != HwUnconfigured ==> SameValues(s.fields, Step(s, e).fields, HwGeneric)
    ensures SameValues(s.fields, Step(s, e).fields, ReadOnly)
  {
    hide Notified, NextState;
  }

  lemma SameTransitive(a: map<nat, Field>, b: map<nat, Field>, c: map<nat, Field>, kind: FieldKind)
    requires SameValues(a, b, kind) && SameValues(b, c, kind)
    ensures SameValues(a, c, kind)
  {
  }

  lemma SameReflexive(a: map<nat, Field>, kind: FieldKind)
    ensures SameValues(a, a, kind)
  {
  }

  lemma StepState(s: Server, e: Event)
    ensures Step(s, e).state == NextState(s.state, e)
  {
  }

  /** A live server was commissioned: some event of its run took it from HwConfigured to
      RcpConfigured on an authorised request with a consistent snapshot, it has stayed live
      since, and no W* field has changed since. */
  lemma {:induction false} LiveSinceCommissioning(s: Server, es: seq<Event>, n: nat) returns (i: nat)
    requires s.state == HwUnconfigured && n <= |es|
    requires After(s, es, n).state == RcpConfigured
    ensures i < n && Commissions(After(s, es, i).state, es[i])
    ensures forall j :: i < j <= n ==> After(s, es, j).state == RcpConfigured
    ensures forall j :: i < j <= n ==> SameValues(After(s, es, i + 1).fields, After(s, es, j).fields, FunctionalWStar)
  {
    hide SameValues, Step, Commissions;
    var before := After(s, es, n - 1);
    StepKeeps(before, es[n - 1]);
    if before.state == RcpConfigured {
      i := LiveSinceCommissioning(s, es, n - 1);
      SameTransitive(After(s, es, i + 1).fields, before.fields, After(s, es, n).fields, FunctionalWStar);
    } else {
      i := n - 1;
      SameReflexive(After(s, es, n).fields, FunctionalWStar);
      StepState(before, es[i]);
      EntersOnlyByCommissioning(before.state, es[i]);
    }
  }

  lemma CommissioningGoesLive(s: Server, es: seq<Event>, i: nat)
    requires i < |es| && Commissions(After(s, es, i).state, es[i])
    ensures After(s, es, i + 1).state == RcpConfigured
  {
    EntersOnlyByCommissioning(After(s, es, i).state, es[i]);
  }

  lemma {:induction false} StaysLive(s: Server, es: seq<Event>, i: nat, n: nat)
    requires i <= n <= |es| && After(s, es, i).state == RcpConfigured
    requires forall j :: i <= j < n ==> !TakesDown(es[j])
    ensures After(s, es, n).state == RcpConfigured
    decreases n
  {
    hide Step, NextState, TakesDown;
    if i < n {
      StaysLive(s, es, i, n - 1);
      StepState(After(s, es, n - 1), es[n - 1]);
      LeavesLiveOnly(es[n - 1]);
    }
  }

  /** Event i commissioned the server and nothing since has taken it down. */
  ghost predicate CommissionedAt(s: Server, es: seq<Event>, i: nat, n: nat)
    requires n <= |es|
  {
    && i < n && Commissions(After(s, es, i).state, es[i])
    && forall j :: i < j < n ==> !TakesDown(es[j])
  }

  /** A server is live exactly when some event commissioned it and nothing since took it down. */
  lemma LiveIff(s: Server, es: seq<Event>, n: nat)
    requires s.state == HwUnconfigured && n <= |es|
    ensures After(s, es, n).state == RcpConfigured <==> exists i: nat :: CommissionedAt(s, es, i, n)
  {
    hide Step, NextState, Commissions, SameValues, TakesDown;
    if After(s, es, n).state == RcpConfigured {
      var i := LiveSinceCommissioning(s, es, n);
      forall j | i < j < n ensures !TakesDown(es[j]) {
        LeavesLiveOnly(es[j]);
        StepState(After(s, es, j), es[j]);
        assert After(s, es, j + 1).state == RcpConfigured;
      }
      assert CommissionedAt(s, es, i, n);
    }
    forall i: nat | CommissionedAt(s, es, i, n) ensures After(s, es, n).state == RcpConfigured {
      CommissioningGoesLive(s, es, i);
      StaysLive(s, es, i + 1, n);
    }
  }

  /** Hardware registers are frozen over every stretch that stays out of HwUnconfigured. */
  lemma {:induction false} HardwareFrozen(s: Server, es: seq<Event>, i: nat, j: nat)
    requires i <= j <= |es|
    requires forall k :: i <= k < j ==> After(s, es, k).state != HwUnconfigured
    ensures SameValues(After(s, es, i).fields, After(s, es, j).fields, HwGeneric)
    decreases j
  {
    hide SameValues, Step;
    SameReflexive(After(s, es, i).fields, HwGeneric);
    if i < j {
      HardwareFrozen(s, es, i, j - 1);
      StepKeeps(After(s, es, j - 1), es[j - 1]);
      SameTransitive(After(s, es, i).fields, After(s, es, j - 1).fields, After(s, es, j).fields, HwGeneric);
    }
  }

  /** Over every stretch whatsoever read-only registers keep their value. */
  lemma {:induction false} ReadOnlyFrozen(s: Server, es: seq<Event>, i: nat, j: nat)
    requires i <= j <= |es|
    ensures SameValues(After(s, es, i).fields, After(s, es, j).fields, ReadOnly)
    decreases j
  {
    hide SameValues, Step;
    SameReflexive(After(s, es, i).fields, ReadOnly);
    if i < j {
      ReadOnlyFrozen(s, es, i, j - 1);
      StepKeeps(After(s, es, j - 1), es[j - 1]);
      SameTransitive(After(s, es, i).fields, After(s, es, j - 1).fields, After(s, es, j).fields, ReadOnly);
    }
  }

  // ---- Who can change a register.

  /** Who may change a field of a kind, state by state; a non-unicast writer never. */
  predicate MayChange(state: State, kind: FieldKind, w: Writer) {
    var owner := w.rootClientEp0 || w.owningStream;
    && !w.nonUnicast
    && (|| (kind == HwGeneric && state == HwUnconfigured && w.discoveryStream)
        || (kind == FunctionalW && state == RcpConfigured && owner)
        || (kind == FunctionalW && state == HwConfigured && (owner || w.discoveryStream))
        || (kind == FunctionalWStar && state == HwConfigured && (owner || w.discoveryStream))
        || (kind == FunctionalWStar && state == HwUnconfigured))
  }

  lemma WritableIff(state: State, kind: FieldKind, w: Writer)
    ensures FieldWritable(state, kind, w) <==> MayChange(state, kind, w)
  {
  }

  /** Event `k` writes `id`, and its writer may. */
  predicate Authored(s: Server, es: seq<Event>, k: nat, id: nat)
    requires k < |es| && id in s.fields
  {
    es[k].Write? && es[k].field == id && MayChange(After(s, es, k).state, s.fields[id].kind, es[k].writer)
  }

  lemma StepField(s: Server, e: Event, id: nat)
    requires id in s.fields
    ensures id in Step(s, e).fields && Step(s, e).fields[id].kind == s.fields[id].kind
    ensures Step(s, e).fields[id].value
        == if e.Write? && e.field == id && MayChange(s.state, s.fields[id].kind, e.writer) then e.value
           else s.fields[id].value
  {
    hide Notified, NextState, FieldWritable, MayChange;
    if e.Write? && e.field in s.fields {
      WritableIff(s.state, s.fields[e.field].kind, e.writer);
    }
  }

  /** Fields are never added, dropped or turned into another kind. */
  lemma {:induction false} FieldStays(s: Server, es: seq<Event>, n: nat, id: nat)
    requires n <= |es| && id in s.fields
    ensures id in After(s, es, n).fields && After(s, es, n).fields[id].kind == s.fields[id].kind
  {
    hide Step;
    if n > 0 {
      FieldStays(s, es, n - 1, id);
      StepField(After(s, es, n - 1), es[n - 1], id);
    }
  }

  /** Event `k` is the latest authorised write to `id` among the first `n`. */
  ghost predicate LatestAuthored(s: Server, es: seq<Event>, k: nat, n: nat, id: nat)
    requires n <= |es| && id in s.fields
  {
    k < n && Authored(s, es, k, id) && forall j :: k < j < n ==> !Authored(s, es, j, id)
  }

  /** After any run a field holds `v` exactly when its latest authorised write put it there
      or, there having been none, it held `v` at the start. */
  lemma {:induction false} FieldValueIff(s: Server, es: seq<Event>, n: nat, id: nat, v: int)
    requires n <= |es| && id in s.fields
    ensures id in After(s, es, n).fields
    ensures After(s, es, n).fields[id].value == v
       <==> || (exists k: nat :: LatestAuthored(s, es, k, n, id) && es[k].value == v)
            || ((forall k :: 0 <= k < n ==> !Authored(s, es, k, id)) && s.fields[id].value == v)
    decreases n
  {
    hide Step, MayChange;
    FieldStays(s, es, n, id);
    if n > 0 {
      FieldValueIff(s, es, n - 1, id, v);
      FieldStays(s, es, n - 1, id);
      StepField(After(s, es, n - 1), es[n - 1], id);
      if Authored(s, es, n - 1, id) {
        assert LatestAuthored(s, es, n - 1, n, id);
        assert forall k: nat :: LatestAuthored(s, es, k, n, id) ==> k == n - 1;
      } else {
        assert forall k: nat :: LatestAuthored(s, es, k, n, id) <==> LatestAuthored(s, es, k, n - 1, id);
      }
    }
  }

  /** Whatever changed over a stretch was changed by a unicast write to that very field:
      of a W field, by the root client or the owning stream while live, by them or the
      discovery stream in HwConfigured, by nobody in HwUnconfigured; of a W* field, by
      anybody in HwUnconfigured, by those three in HwConfigured, by nobody while live; of a
      hardware field, by the discovery stream in HwUnconfigured; of a read-only one, never. */
  lemma {:induction false} ChangeHasAuthor(s: Server, es: seq<Event>, i: nat, j: nat, id: nat) returns (k: nat)
    requires i <= j <= |es| && id in s.fields
    requires id in After(s, es, i).fields && id in After(s, es, j).fields
    requires After(s, es, i).fields[id].value != After(s, es, j).fields[id].value
    ensures i <= k < j && es[k].Write? && es[k].field == id && !es[k].writer.nonUnicast
    ensures var state, kind, w := After(s, es, k).state, s.fields[id].kind, es[k].writer;
            && (kind == FunctionalW && state == RcpConfigured ==> w.rootClientEp0 || w.owningStream)
            && (kind == FunctionalW || kind == FunctionalWStar ==>
                  state == HwConfigured ==> w.rootClientEp0 || w.owningStream || w.discoveryStream)
            && (kind == FunctionalW ==> state != HwUnconfigured)
            && (kind == FunctionalWStar ==> state != RcpConfigured)
            && (kind == HwGeneric ==> state == HwUnconfigured && w.discoveryStream)
            && kind != ReadOnly
    decreases j
  {
    hide Step;
    FieldStays(s, es, j - 1, id);
    StepField(After(s, es, j - 1), es[j - 1], id);
    if After(s, es, j - 1).fields[id].value == After(s, es, j).fields[id].value {
      k := ChangeHasAuthor(s, es, i, j - 1, id);
    } else {
      k := j - 1;
    }
  }

  /** And each of these writers is let in: the field holds what it wrote, and nothing else
      about the server changes. */
  lemma AuthoredTakesEffect(s: Server, id: nat, value: int, w: Writer)
    requires id in s.fields && !w.nonUnicast
    requires var state, kind, owner := s.state, s.fields[id].kind, w.rootClientEp0 || w.owningStream;
             || (kind == FunctionalW && state == RcpConfigured && owner)
             || (kind == FunctionalW && state == HwConfigured && (owner || w.discoveryStream))
             || (kind == FunctionalWStar && state == HwConfigured && (owner || w.discoveryStream))
             || (kind == FunctionalWStar && state == HwUnconfigured)
             || (kind == HwGeneric && state == HwUnconfigured && w.discoveryStream)
    ensures Step(s, Write(id, value, w)) == s.(fields := s.fields[id := s.fields[id].(value := value)])
  {
  }

  /** A write that is not unicast changes nothing at all, in any state and of any kind. */
  lemma NonUnicastChangesNothing(s: Server, id: nat, value: int, w: Writer)
    requires w.nonUnicast
    ensures Step(s, Write(id, value, w)) == s
  {
  }

  // ---- What each transition asks for.

  /** The whole table of real transitions, by request: going up takes consistency (and, to go
      live, authority), going down takes authority and idle endpoints, and a live server
      listens to the root client alone for a full reset. */
  lemma TransitionAllowedIff(state: State, target: State, snap: Snapshot, w: Writer, idle: bool)
    requires state != target
    ensures NextState(state, Transition(target, snap, w, idle)) == target
       <==> (|| (state == HwUnconfigured && target == HwConfigured && HwConsistent(snap))
             || (state == HwConfigured && target == RcpConfigured && RcpConsistent(snap)
                 && (w.discoveryStream || w.rootClientEp0 || w.validAssociation))
             || (state == RcpConfigured && target == HwConfigured && idle && (w.rootClientEp0 || w.validAssociation))
             || (state == HwConfigured && target == HwUnconfigured && idle
                 && (w.discoveryStream || w.rootClientEp0 || w.validAssociation))
             || (state == RcpConfigured && target == HwUnconfigured && idle && w.rootClientEp0))
  {
  }

  /** The older entry point only ever goes one step up, on the application's own verdict. */
  lemma AdvanceAllowedIff(state: State, target: State, hwOk: bool, rcpOk: bool)
    ensures NextState(state, Advance(target, hwOk, rcpOk)) != state
       <==> || (state == HwUnconfigured && target == HwConfigured && hwOk)
            || (state == HwConfigured && target == RcpConfigured && rcpOk)
    ensures AdvanceGuard(state, target, hwOk, rcpOk) == InvalidTransition
       <==> !(state == HwUnconfigured && target == HwConfigured) && !(state == HwConfigured && target == RcpConfigured)
  {
  }

  /** What each refusal tells the requester: only skipping HwConfigured is never possible,
      inconsistency concerns the way up, busy endpoints the way down, and lacking authority
      is reported before either. */
  lemma RefusalMeaning(state: State, target: State, snap: Snapshot, w: Writer, idle: bool)
    ensures var o := Guard(state, target, snap, w, idle);
            && (o == InvalidTransition <==> state == HwUnconfigured && target == RcpConfigured)
            && (o == HwCfgInconsistent <==> state == HwUnconfigured && target == HwConfigured && !HwConsistent(snap))
            && (o == Unauthorized ==> forall snap', idle' :: Guard(state, target, snap', w, idle') == Unauthorized)
            && (o == RcpCfgInconsistent <==>
                  (state == HwConfigured && target == RcpConfigured && !RcpConsistent(snap)
                   && (w.discoveryStream || w.rootClientEp0 || w.validAssociation)))
            && (o == EpsNotIdle ==> !idle && Guard(state, target, snap, w, true) == Done)
            && (state == target ==> o == Done)
  {
  }

  // ---- What a subscriber hears.

  /** The real state changes of events `from` to `n`. */
  function History(s: Server, es: seq<Event>, from: nat, n: nat): seq<Change>
    requires from <= n <= |es|
    decreases n
  {
    if n == from then []
    else
      var a, b := After(s, es, n - 1).state, After(s, es, n).state;
      var earlier := History(s, es, from, n - 1);
      if a == b then earlier else earlier + [Change(a, b)]
  }

  /** A contiguous path of real changes that never skips HwConfigured on the way up. */
  predicate IsPath(log: seq<Change>, a: State, b: State)
    decreases |log|
  {
    if log == [] then a == b
    else
      var last := log[|log| - 1];
      last.current == b && last.previous != b && !(last.previous == HwUnconfigured && b == RcpConfigured)
      && IsPath(log[..|log| - 1], a, last.previous)
  }

  lemma NeverSkips(state: State, e: Event)
    ensures !(state == HwUnconfigured && NextState(state, e) == RcpConfigured)
  {
  }

  lemma {:induction false} HistoryIsPath(s: Server, es: seq<Event>, from: nat, n: nat)
    requires from <= n <= |es|
    ensures IsPath(History(s, es, from, n), After(s, es, from).state, After(s, es, n).state)
    decreases n
  {
    hide Step;
    if from < n {
      HistoryIsPath(s, es, from, n - 1);
      var a, b := After(s, es, n - 1).state, After(s, es, n).state;
      StepState(After(s, es, n - 1), es[n - 1]);
      NeverSkips(a, es[n - 1]);
      var shorter := History(s, es, from, n - 1);
      assert a != b ==> (shorter + [Change(a, b)])[..|shorter|] == shorter;
    }
  }

  lemma SubscribeKeepsState(s: Server)
    ensures Step(s, Subscribe).state == s.state && Step(s, Subscribe).logs == s.logs + [[]]
  {
  }

  /** A subscriber's log is exactly the path of state changes since it subscribed. */
  lemma {:induction false} SubscriberHearsHistory(s: Server, es: seq<Event>, m: nat, n: nat)
    requires m < n <= |es| && es[m] == Subscribe
    ensures var k := |After(s, es, m).logs|;
            k < |After(s, es, n).logs| && After(s, es, n).logs[k] == History(s, es, m + 1, n)
    ensures IsPath(History(s, es, m + 1, n), After(s, es, m).state, After(s, es, n).state)
    decreases n
  {
    hide NextState, NextFields, IsPath;
    HistoryIsPath(s, es, m + 1, n);
    SubscribeKeepsState(After(s, es, m));
    if m + 1 < n {
      SubscriberHearsHistory(s, es, m, n - 1);
    }
  }
}
