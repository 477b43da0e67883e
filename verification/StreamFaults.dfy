/** Which request streams are latched faulty after a CRC error (include/rcp/e2e.hpp,
    RxStreamGuard and StreamFaultTracker): sixteen slots, taken on a stream's first error
    and never given back. */
module StreamFaults {
  import opened Bytes

  const MAX_STREAMS: nat := 16

  /** The latch of every stream tracked so far. */
  type Table = map<u64, bool>

  /** An enforced error latches; a stream that finds sixteen others tracked is not tracked. */
  function OnError(t: Table, id: u64, enforce: bool): (bool, Table) {
    if id in t then (true, t[id := t[id] || enforce])
    else if |t| < MAX_STREAMS then (true, t[id := enforce])
    else (false, t)
  }

  function OnReset(t: Table, id: u64): Table {
    if id in t then t[id := false] else t
  }

  predicate Faulted(t: Table, id: u64) { id in t && t[id] }

  datatype Slot = Slot(streamId: u64, used: bool, latched: bool)

  const UNUSED := Slot(0, false, false)

  /** Slots in use come first; each tracked stream has one, and the table tells its latch. */
  ghost predicate Places(slots: seq<Slot>, table: Table, place: map<u64, nat>) {
    && |slots| == MAX_STREAMS && |table| <= MAX_STREAMS && place.Keys == table.Keys
    && (forall i :: 0 <= i < MAX_STREAMS ==> (slots[i].used <==> i < |table|))
    && (forall i :: 0 <= i < |table| ==> slots[i].streamId in place && place[slots[i].streamId] == i)
    && (forall id :: id in table ==> place[id] < |table| && slots[place[id]] == Slot(id, true, table[id]))
  }

  lemma Sizes(t: Table, id: u64, latched: bool)
    ensures |t[id := latched]| == if id in t then |t| else |t| + 1
  {
    var u := t[id := latched];
    assert u.Keys == t.Keys + {id};
    assert |u| == |u.Keys| && |t| == |t.Keys|;
  }

  lemma LatchPlaces(slots: seq<Slot>, table: Table, place: map<u64, nat>, id: u64, latched: bool)
    requires Places(slots, table, place) && id in table
    ensures place[id] < MAX_STREAMS && slots[place[id]] == Slot(id, true, table[id])
    ensures Places(slots[place[id] := Slot(id, true, latched)], table[id := latched], place)
  {
    Sizes(table, id, latched);
    var k, s, t := place[id], slots[place[id] := Slot(id, true, latched)], table[id := latched];
    forall o | o in t ensures place[o] < |t| && s[place[o]] == Slot(o, true, t[o]) {
      if o != id {
        assert slots[place[o]] == Slot(o, true, table[o]);
      }
    }
    forall i | 0 <= i < MAX_STREAMS ensures s[i].used <==> i < |t| {
      assert slots[i].used <==> i < |table|;
    }
    forall i | 0 <= i < |t| ensures s[i].streamId in place && place[s[i].streamId] == i {
      assert slots[i].streamId in place && place[slots[i].streamId] == i;
    }
  }

  lemma NewPlace(slots: seq<Slot>, table: Table, place: map<u64, nat>, id: u64, latched: bool)
    requires Places(slots, table, place) && id !in table && |table| < MAX_STREAMS
    ensures Places(slots[|table| := Slot(id, true, latched)], table[id := latched], place[id := |table|])
  {
    Sizes(table, id, latched);
    var n := |table|;
    var s, t, p := slots[n := Slot(id, true, latched)], table[id := latched], place[id := n];
    forall o | o in t ensures p[o] < |t| && s[p[o]] == Slot(o, true, t[o]) {
      if o != id {
        assert slots[place[o]] == Slot(o, true, table[o]);
      }
    }
    forall i | 0 <= i < MAX_STREAMS ensures s[i].used <==> i < |t| {
      assert slots[i].used <==> i < n;
    }
    forall i | 0 <= i < |t| ensures s[i].streamId in p && p[s[i].streamId] == i {
      if i < n {
        assert slots[i].streamId in place && place[slots[i].streamId] == i;
      }
    }
  }

  class StreamFaultTracker {
    const slots: array<Slot>
    ghost var table: Table
    ghost var place: map<u64, nat>

    ghost predicate Valid()
      reads this, slots
    {
      slots.Length == MAX_STREAMS && Places(slots[..], table, place)
    }

    constructor ()
      ensures Valid() && table == map[] && fresh(slots)
    {
      slots := new Slot[MAX_STREAMS](_ => UNUSED);
      table, place := map[], map[];
    }

    /** The index of the stream's slot, or the number of slots. */
    method Find(id: u64) returns (k: nat)
      requires Valid()
      ensures k <= MAX_STREAMS && (k < MAX_STREAMS <==> id in table)
      ensures id in table ==> id in place && k == place[id]
    {
      for i := 0 to MAX_STREAMS
        invariant forall j :: 0 <= j < i ==> !(slots[j].used && slots[j].streamId == id)
      {
        if slots[i].used && slots[i].streamId == id {
          return i;
        }
      }
      k := MAX_STREAMS;
    }

    method FindFree() returns (k: nat)
      requires Valid()
      ensures k == |table| <= MAX_STREAMS
    {
      for i := 0 to MAX_STREAMS
        invariant i <= |table|
      {
        if !slots[i].used {
          return i;
        }
      }
      k := MAX_STREAMS;
    }

    method OnCrcError(id: u64, enforce: bool) returns (ok: bool)
      requires Valid()
      modifies this, slots
      ensures Valid() && (ok, table) == OnError(old(table), id, enforce)
    {
      hide Places;
      ghost var before := slots[..];
      var k := Find(id);
      if k == MAX_STREAMS {
        k := FindFree();
        if k == MAX_STREAMS {
          return false;
        }
        NewPlace(before, table, place, id, enforce);
        slots[k] := Slot(id, true, false);
        slots[k] := slots[k].(latched := slots[k].latched || enforce);
        assert slots[..] == before[k := Slot(id, true, enforce)];
        place := place[id := k];
      } else {
        LatchPlaces(before, table, place, id, table[id] || enforce);
        slots[k] := slots[k].(latched := slots[k].latched || enforce);
        assert slots[..] == before[k := Slot(id, true, table[id] || enforce)];
      }
      table := table[id := slots[k].latched];
      ok := true;
    }

    method IsFaulted(id: u64) returns (yes: bool)
      requires Valid()
      ensures yes <==> Faulted(table, id)
    {
      var k := Find(id);
      yes := k < MAX_STREAMS && slots[k].latched;
    }

    method Reset(id: u64)
      requires Valid()
      modifies this, slots
      ensures Valid() && table == OnReset(old(table), id)
    {
      hide Places;
      ghost var before := slots[..];
      var k := Find(id);
      if k < MAX_STREAMS {
        LatchPlaces(before, table, place, id, false);
        slots[k] := slots[k].(latched := false);
        assert slots[..] == before[k := Slot(id, true, false)];
        table := table[id := false];
      }
    }
  }

  // ---- Runs.

  datatype Event = CrcError(id: u64, enforce: bool) | Reset(id: u64)

  function Next(t: Table, e: Event): Table {
    match e
    case CrcError(id, enforce) => OnError(t, id, enforce).1
    case Reset(id) => OnReset(t, id)
  }

  function After(es: seq<Event>, n: nat): Table
    requires n <= |es|
  {
    if n == 0 then map[] else Next(After(es, n - 1), es[n - 1])
  }

  /** The streams that have had an error. */
  function Erring(es: seq<Event>, n: nat): set<u64>
    requires n <= |es|
  {
    if n == 0 then {}
    else if es[n - 1].CrcError? then Erring(es, n - 1) + {es[n - 1].id} else Erring(es, n - 1)
  }

  /** The tracked streams are those that have erred, or sixteen of them if they are more. */
  lemma {:induction false} TrackedAreErring(es: seq<Event>, n: nat)
    requires n <= |es|
    ensures |Erring(es, n)| <= 16 ==> After(es, n).Keys == Erring(es, n)
    ensures |Erring(es, n)| > 16 ==> After(es, n).Keys <= Erring(es, n) && |After(es, n)| == 16
  {
    if n > 0 {
      TrackedAreErring(es, n - 1);
      NextTracks(After(es, n - 1), Erring(es, n - 1), es[n - 1]);
    }
  }

  lemma NextTracks(t: Table, erring: set<u64>, e: Event)
    requires |erring| <= MAX_STREAMS ==> t.Keys == erring
    requires |erring| > MAX_STREAMS ==> t.Keys <= erring && |t| == MAX_STREAMS
    ensures var next := if e.CrcError? then erring + {e.id} else erring;
            && (|next| <= MAX_STREAMS ==> Next(t, e).Keys == next)
            && (|next| > MAX_STREAMS ==> Next(t, e).Keys <= next && |Next(t, e)| == MAX_STREAMS)
  {
    KeyCount(t);
    KeyCount(Next(t, e));
    if e.Reset? {
      assert Next(t, e).Keys == t.Keys;
    } else if e.id in t {
      assert erring + {e.id} == erring && Next(t, e).Keys == t.Keys;
    } else if e.id in erring {
      assert erring + {e.id} == erring;
    } else {
      assert |erring + {e.id}| == |erring| + 1;
      if |t| < MAX_STREAMS {
        assert Next(t, e).Keys == t.Keys + {e.id};
      }
    }
  }

  lemma KeyCount(t: Table)
    ensures |t| == |t.Keys|
  {
  }

  /** Some error on the stream found fewer than sixteen other streams to have erred. */
  predicate TrackedBy(es: seq<Event>, n: nat, id: u64)
    requires n <= |es|
  {
    exists j :: 0 <= j < n && ErrorInTime(es, j, id)
  }

  predicate ErrorInTime(es: seq<Event>, j: nat, id: u64)
    requires j < |es|
  {
    es[j].CrcError? && es[j].id == id && |Erring(es, j) - {id}| < 16
  }

  lemma NoneTracked(es: seq<Event>, id: u64)
    ensures !TrackedBy(es, 0, id)
  {
  }

  lemma TrackedByStep(es: seq<Event>, n: nat, id: u64)
    requires 0 < n <= |es|
    ensures TrackedBy(es, n, id) <==> TrackedBy(es, n - 1, id) || ErrorInTime(es, n - 1, id)
  {
    hide ErrorInTime;
    if TrackedBy(es, n - 1, id) {
      var j :| 0 <= j < n - 1 && ErrorInTime(es, j, id);
      assert 0 <= j < n && ErrorInTime(es, j, id);
    }
  }

  /** Which streams are tracked is settled by the events alone: the first sixteen to err. */
  lemma {:induction false} TrackedIff(es: seq<Event>, n: nat, id: u64)
    requires n <= |es|
    ensures id in After(es, n) <==> TrackedBy(es, n, id)
  {
    hide Erring, Next, TrackedBy;
    if n == 0 {
      NoneTracked(es, id);
    } else {
      TrackedIff(es, n - 1, id);
      TrackedAreErring(es, n - 1);
      NewlyTracked(After(es, n - 1), Erring(es, n - 1), es[n - 1], id);
      TrackedByStep(es, n, id);
    }
  }

  lemma NewlyTracked(t: Table, erring: set<u64>, e: Event, id: u64)
    requires |erring| <= MAX_STREAMS ==> t.Keys == erring
    requires |erring| > MAX_STREAMS ==> t.Keys <= erring && |t| == MAX_STREAMS
    ensures id in Next(t, e) <==> id in t || (e.CrcError? && e.id == id && |erring - {id}| < MAX_STREAMS)
  {
    KeyCount(t);
    if id in erring {
      assert erring == (erring - {id}) + {id};
    } else {
      assert erring - {id} == erring;
    }
  }

  /** Event k is an enforced error on a stream that is, or gets, tracked. */
  predicate Latches(es: seq<Event>, k: nat, id: u64)
    requires k < |es|
  {
    es[k] == CrcError(id, true) && TrackedBy(es, k + 1, id)
  }

  lemma LatchesIff(es: seq<Event>, k: nat, id: u64)
    requires k < |es|
    ensures Latches(es, k, id) <==> es[k] == CrcError(id, true) && OnError(After(es, k), id, true).0
  {
    hide TrackedBy;
    TrackedIff(es, k + 1, id);
  }

  lemma ErrorLatches(t: Table, id: u64)
    requires OnError(t, id, true).0
    ensures Faulted(OnError(t, id, true).1, id)
  {
  }

  lemma ErrorKeeps(t: Table, e: Event, id: u64)
    requires Faulted(t, id) && e != Reset(id)
    ensures Faulted(Next(t, e), id)
  {
  }

  lemma NothingFaulted(id: u64)
    ensures !Faulted(map[], id)
  {
  }

  lemma FaultCause(t: Table, e: Event, id: u64)
    requires Faulted(Next(t, e), id)
    ensures e != Reset(id)
    ensures !Faulted(t, id) ==> e == CrcError(id, true) && OnError(t, id, true).0
  {
  }

  lemma {:induction false} LatchPersists(es: seq<Event>, k: nat, n: nat, id: u64)
    requires k < n <= |es| && Latches(es, k, id)
    requires forall j :: k < j < n ==> es[j] != Reset(id)
    ensures Faulted(After(es, n), id)
    decreases n
  {
    hide OnError, TrackedBy;
    LatchesIff(es, k, id);
    if k < n - 1 {
      LatchPersists(es, k, n - 1, id);
      ErrorKeeps(After(es, n - 1), es[n - 1], id);
    } else {
      ErrorLatches(After(es, k), id);
    }
  }

  lemma {:induction false} FaultHasCause(es: seq<Event>, n: nat, id: u64) returns (k: nat)
    requires n <= |es| && Faulted(After(es, n), id)
    ensures k < n && Latches(es, k, id) && forall j :: k < j < n ==> es[j] != Reset(id)
  {
    hide OnError, OnReset, Faulted, TrackedBy;
    assert n > 0 by { NothingFaulted(id); }
    FaultCause(After(es, n - 1), es[n - 1], id);
    if Faulted(After(es, n - 1), id) {
      k := FaultHasCause(es, n - 1, id);
    } else {
      k := n - 1;
      LatchesIff(es, k, id);
    }
  }

  /** A stream is faulted exactly when it is one of the first sixteen to err and some
      enforced error on it has not been followed by its own reset -- whatever happened on
      other streams in between. */
  lemma FaultedIff(es: seq<Event>, n: nat, id: u64)
    requires n <= |es|
    ensures Faulted(After(es, n), id)
       <==> exists k :: 0 <= k < n && Latches(es, k, id) && forall j :: k < j < n ==> es[j] != Reset(id)
  {
    hide After, Latches, Faulted;
    if Faulted(After(es, n), id) {
      var k := FaultHasCause(es, n, id);
    }
    forall k | 0 <= k < n && Latches(es, k, id) && forall j :: k < j < n ==> es[j] != Reset(id)
      ensures Faulted(After(es, n), id)
    {
      LatchPersists(es, k, n, id);
    }
  }

  lemma StepTracks(t: Table, e: Event)
    requires |t| <= MAX_STREAMS
    ensures |Next(t, e)| <= MAX_STREAMS && t.Keys <= Next(t, e).Keys
  {
    Sizes(t, e.id, false);
    if e.CrcError? {
      Sizes(t, e.id, e.enforce);
      if e.id in t {
        Sizes(t, e.id, t[e.id] || e.enforce);
      }
    }
  }

  /** Once tracked a stream stays tracked, so an error goes unrecorded only on a
      seventeenth stream. */
  lemma {:induction false} UntrackedOnlyWhenFull(es: seq<Event>, m: nat, n: nat, id: u64, enforce: bool)
    requires m <= n <= |es|
    ensures |After(es, n)| <= 16 && After(es, m).Keys <= After(es, n).Keys
    ensures !OnError(After(es, n), id, enforce).0 <==> id !in After(es, n) && |After(es, n)| == 16
    decreases n
  {
    if n > 0 {
      UntrackedOnlyWhenFull(es, if m < n then m else n - 1, n - 1, id, enforce);
      StepTracks(After(es, n - 1), es[n - 1]);
    }
  }
}
