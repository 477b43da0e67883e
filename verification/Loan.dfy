/** The buffer pool (include/rcp/loan.hpp): a fixed array of reusable buffers, loans that may
    outlive the pool object, and storage that dies with its last owner. Buffers are addresses
    into a heap the pool alone allocates from. */
module Loan {
  import opened Bytes

  const MAX_ENTRIES: nat := 64

  /** `alive`: the pool object itself still exists; `next`: the first address never allocated. */
  datatype Pool = Pool(closed: bool, alive: bool, free: seq<nat>, heap: map<nat, seq<byte>>, lent: set<nat>, next: nat)

  const EMPTY := Pool(false, true, [], map[], {}, 0)

  datatype Result = Lent(address: nat, payload: seq<byte>) | Closed | InvalidArgument | AllocationFailure

  datatype Event = Take(size: int, allocFails: bool) | Return(address: nat) | Close | Destroy

  /** A destroyed pool object is not called again; a loan is returned once. */
  predicate Legal(p: Pool, e: Event) {
    match e
    case Return(a) => a in p.lent
    case _ => p.alive
  }

  function Zeros(n: nat): (z: seq<byte>)
    ensures |z| == n
  {
    seq(n, _ => 0)
  }

  predicate Fits(p: Pool, i: nat, size: int)
    requires i < |p.free|
  {
    p.free[i] in p.heap && |p.heap[p.free[i]]| >= size
  }

  /** The first buffer that fits, from position `i` on; the length of the list if none does. */
  function FirstFit(p: Pool, size: int, i: nat): (k: nat)
    requires i <= |p.free|
    ensures i <= k <= |p.free|
    ensures k < |p.free| ==> Fits(p, k, size)
    ensures forall j :: i <= j < k ==> !Fits(p, j, size)
    decreases |p.free| - i
  {
    if i == |p.free| then i else if Fits(p, i, size) then i else FirstFit(p, size, i + 1)
  }

  /** The list's way to remove an entry: the last one moves into its place. */
  function SwapRemove(free: seq<nat>, i: nat): (r: seq<nat>)
    requires i < |free|
    ensures |r| == |free| - 1
  {
    free[i := free[|free| - 1]][..|free| - 1]
  }

  function TakeResult(p: Pool, size: int, allocFails: bool): Result {
    if p.closed then Closed
    else if size < 0 then InvalidArgument
    else
      var i := FirstFit(p, size, 0);
      if i < |p.free| then Lent(p.free[i], Zeros(size))
      else if allocFails then AllocationFailure
      else Lent(p.next, Zeros(size))
  }

  function TakeStep(p: Pool, size: int, allocFails: bool): Pool {
    if p.closed || size < 0 then p
    else
      var i := FirstFit(p, size, 0);
      if i < |p.free| then
        p.(free := SwapRemove(p.free, i), heap := p.heap[p.free[i] := Zeros(size)], lent := p.lent + {p.free[i]})
      else if allocFails then p
      else p.(heap := p.heap[p.next := Zeros(size)], lent := p.lent + {p.next}, next := p.next + 1)
  }

  function Members(free: seq<nat>): set<nat> {
    set a | a in free
  }

  lemma MembersSnoc(free: seq<nat>, a: nat)
    ensures Members(free + [a]) == Members(free) + {a}
  {
  }

  /** The storage goes when neither the pool object nor any loan owns it. */
  function Torn(p: Pool): Pool {
    if p.alive || p.lent != {} then p
    else p.(free := [], heap := p.heap - Members(p.free))
  }

  function Returned(p: Pool, a: nat): Pool {
    if |p.free| < MAX_ENTRIES then p.(free := p.free + [a], lent := p.lent - {a})
    else p.(heap := p.heap - {a}, lent := p.lent - {a})
  }

  function Step(p: Pool, e: Event): Pool {
    match e
    case Take(size, allocFails) => TakeStep(p, size, allocFails)
    case Return(a) => Torn(Returned(p, a))
    case Close => p.(closed := true)
    case Destroy => Torn(p.(closed := true, alive := false))
  }

  // ---- Ownership: every address ever allocated is in exactly one place.

  predicate Distinct(free: seq<nat>) {
    forall i, j :: 0 <= i < j < |free| ==> free[i] != free[j]
  }

  /** Everything but the end of the storage's life. */
  ghost predicate Placed(p: Pool) {
    && Distinct(p.free) && |p.free| <= MAX_ENTRIES
    && (forall a :: a in p.free ==> a in p.heap && a !in p.lent)
    && (forall a :: a in p.lent ==> a in p.heap)
    && (forall a :: a in p.heap ==> a < p.next && (a in p.free || a in p.lent))
    && (!p.alive ==> p.closed)
  }

  ghost predicate Owned(p: Pool) {
    Placed(p) && (!p.alive && p.lent == {} ==> p.heap == map[])
  }

  lemma SwapRemoveKeepsRest(free: seq<nat>, i: nat)
    requires i < |free| && Distinct(free)
    ensures Distinct(SwapRemove(free, i))
    ensures forall a :: a in SwapRemove(free, i) <==> a in free && a != free[i]
  {
    var r := SwapRemove(free, i);
    forall a | a in free && a != free[i] ensures a in r {
      var k :| 0 <= k < |free| && free[k] == a;
      if k == |free| - 1 {
        assert r[i] == a;
      } else {
        assert r[k] == a;
      }
    }
  }

  lemma SwapRemoved(free: seq<nat>, i: nat, r: seq<nat>)
    requires i < |free| == |r| + 1
    requires forall k :: 0 <= k < |r| ==> r[k] == if k == i then free[|r|] else free[k]
    ensures r == SwapRemove(free, i)
  {
  }

  lemma TakeKeepsOwned(p: Pool, size: int, allocFails: bool)
    requires Owned(p) && p.alive
    ensures Owned(TakeStep(p, size, allocFails))
  {
    hide Distinct, SwapRemove;
    if !p.closed && size >= 0 {
      var i := FirstFit(p, size, 0);
      if i < |p.free| {
        SwapRemoveKeepsRest(p.free, i);
        assert p.free[i] in p.free;
      }
    }
  }

  lemma TornOwned(p: Pool)
    requires Placed(p)
    ensures Owned(Torn(p))
  {
    if !p.alive && p.lent == {} {
      assert forall a :: a in p.heap ==> a in Members(p.free);
      assert Torn(p).heap == map[];
    }
  }

  lemma ReturnedPlaced(p: Pool, a: nat)
    requires Placed(p) && a in p.lent
    ensures Placed(Returned(p, a))
  {
  }

  lemma StepKeepsOwned(p: Pool, e: Event)
    requires Owned(p) && Legal(p, e)
    ensures Owned(Step(p, e))
  {
    hide Placed, TakeStep, Torn, Returned;
    match e
    case Take(size, allocFails) =>
      TakeKeepsOwned(p, size, allocFails);
    case Return(a) =>
      ReturnedPlaced(p, a);
      TornOwned(Returned(p, a));
    case Close =>
      ClosePlaced(p);
    case Destroy =>
      ClosePlaced(p);
      TornOwned(p.(closed := true, alive := false));
  }

  lemma ClosePlaced(p: Pool)
    requires Placed(p)
    ensures Placed(p.(closed := true)) && Placed(p.(closed := true, alive := false))
  {
  }

  function After(p: Pool, es: seq<Event>, n: nat): Pool
    requires n <= |es|
  {
    if n == 0 then p else Step(After(p, es, n - 1), es[n - 1])
  }

  ghost predicate LegalRun(p: Pool, es: seq<Event>) {
    forall k :: 0 <= k < |es| ==> Legal(After(p, es, k), es[k])
  }

  lemma {:induction false} RunKeepsOwned(es: seq<Event>, n: nat)
    requires LegalRun(EMPTY, es) && n <= |es|
    ensures Owned(After(EMPTY, es, n))
  {
    hide Step, Legal;
    if n > 0 {
      RunKeepsOwned(es, n - 1);
      StepKeepsOwned(After(EMPTY, es, n - 1), es[n - 1]);
    }
  }

  lemma NoMembers()
    ensures Members([]) == {}
  {
  }

  lemma DistinctSnoc(free: seq<nat>, a: nat)
    requires Distinct(free + [a])
    ensures Distinct(free) && a !in Members(free)
  {
    var all := free + [a];
    assert forall i :: 0 <= i < |free| ==> all[i] == free[i];
    assert all[|free|] == a;
  }

  lemma {:induction false} DistinctCount(free: seq<nat>)
    requires Distinct(free)
    ensures |Members(free)| == |free|
    decreases |free|
  {
    hide Members, Distinct;
    if free == [] {
      NoMembers();
    } else {
      var init, last := free[..|free| - 1], free[|free| - 1];
      assert free == init + [last];
      DistinctSnoc(init, last);
      DistinctCount(init);
      MembersSnoc(init, last);
    }
  }

  lemma LiveCount(p: Pool)
    requires Owned(p)
    ensures |p.heap| == |p.free| + |p.lent|
  {
    DistinctCount(p.free);
    assert p.heap.Keys == Members(p.free) + p.lent && Members(p.free) !! p.lent;
    assert |p.heap| == |p.heap.Keys|;
  }

  /** In every run every buffer ever allocated is free for reuse, or lent, or deleted --
      one of the three -- and the free list has no repeats and room for 64; the live buffers
      number the free ones plus the lent ones; and once the last owner is gone all are
      deleted. */
  lemma EveryBufferInOnePlace(es: seq<Event>, n: nat)
    requires LegalRun(EMPTY, es) && n <= |es|
    ensures var p := After(EMPTY, es, n);
            && (forall a :: a in p.heap <==> (a in p.free || a in p.lent))
            && (forall a :: !(a in p.free && a in p.lent))
            && (forall a :: a in p.heap ==> a < p.next)
            && Distinct(p.free) && |p.free| <= 64
            && |p.heap| == |p.free| + |p.lent|
            && (!p.alive && p.lent == {} ==> p.heap == map[])
  {
    hide After;
    RunKeepsOwned(es, n);
    LiveCount(After(EMPTY, es, n));
  }

  // ---- What one step may do.

  /** A loan is exactly `size` zero octets at an address nobody else holds; it reuses a
      buffer exactly when a free one is large enough. */
  lemma LoanIsFreshAndZero(p: Pool, size: int, allocFails: bool)
    requires Owned(p)
    ensures var r := TakeResult(p, size, allocFails);
            r.Lent? ==>
              && |r.payload| == size && (forall i :: 0 <= i < size ==> r.payload[i] == 0)
              && r.address !in p.lent && TakeStep(p, size, allocFails).lent == p.lent + {r.address}
              && TakeStep(p, size, allocFails).heap == p.heap[r.address := r.payload]
              && (r.address in p.heap <==> exists a :: a in p.free && |p.heap[a]| >= size)
    ensures var r := TakeResult(p, size, allocFails);
            !r.Lent? ==> TakeStep(p, size, allocFails) == p
    ensures TakeResult(p, size, allocFails) == AllocationFailure
       <==> !p.closed && size >= 0 && allocFails && forall a :: a in p.free ==> |p.heap[a]| < size
  {
    var k := FirstFit(p, size, 0);
    if k < |p.free| {
      assert p.free[k] in p.free && Fits(p, k, size);
    } else {
      forall a | a in p.free ensures |p.heap[a]| < size {
        var j :| 0 <= j < |p.free| && p.free[j] == a;
        assert !Fits(p, j, size);
      }
    }
  }

  lemma LentBufferStep(p: Pool, e: Event, a: nat)
    requires Owned(p) && Legal(p, e) && a in p.lent && e != Return(a)
    ensures a in Step(p, e).lent && a in Step(p, e).heap && Step(p, e).heap[a] == p.heap[a]
  {
    match e
    case Take(size, allocFails) =>
      var k := FirstFit(p, size, 0);
      if k < |p.free| {
        assert p.free[k] in p.free;
      }
    case Return(b) =>
    case Close =>
    case Destroy =>
  }

  /** A lent buffer is out of the pool's reach: over any stretch of any run in which it is
      not returned, nothing frees it, hands it out again or writes to it. */
  lemma {:induction false} LentBufferUntouched(es: seq<Event>, i: nat, n: nat, a: nat)
    requires LegalRun(EMPTY, es) && i <= n <= |es| && a in After(EMPTY, es, i).lent
    requires forall k :: i <= k < n ==> es[k] != Return(a)
    ensures a in After(EMPTY, es, n).lent && a in After(EMPTY, es, n).heap && a in After(EMPTY, es, i).heap
    ensures After(EMPTY, es, n).heap[a] == After(EMPTY, es, i).heap[a]
    decreases n
  {
    hide Step, Legal, Placed;
    RunKeepsOwned(es, i);
    OwnedHeld(After(EMPTY, es, i), a);
    if i < n {
      LentBufferUntouched(es, i, n - 1, a);
      RunKeepsOwned(es, n - 1);
      LentBufferStep(After(EMPTY, es, n - 1), es[n - 1], a);
    }
  }

  lemma OwnedHeld(p: Pool, a: nat)
    requires Owned(p) && a in p.lent
    ensures a in p.heap
  {
  }

  /** Only two things delete: returning a loan to a full list,
      and the departure of the last owner. */
  lemma DeletionIff(p: Pool, e: Event, a: nat)
    requires Owned(p) && Legal(p, e) && a in p.heap
    ensures a !in Step(p, e).heap
       <==> (e == Return(a) && |p.free| == 64)
            || (e == Destroy && p.lent == {})
            || (e.Return? && !p.alive && p.lent == {e.address})
  {
    match e
    case Take(size, allocFails) =>
    case Return(b) =>
      assert p.lent - {b} == {} <==> p.lent == {b};
    case Close =>
    case Destroy =>
  }

  lemma DeletedStep(p: Pool, e: Event, a: nat)
    requires Owned(p) && Legal(p, e) && a < p.next && a !in p.heap
    ensures a < Step(p, e).next && a !in Step(p, e).heap
  {
    if e.Take? {
      var k := FirstFit(p, e.size, 0);
    }
  }

  /** Deleted is for ever: over every stretch of every run. */
  lemma {:induction false} DeletedStaysDeleted(es: seq<Event>, i: nat, n: nat, a: nat)
    requires LegalRun(EMPTY, es) && i <= n <= |es| && a < After(EMPTY, es, i).next && a !in After(EMPTY, es, i).heap
    ensures a < After(EMPTY, es, n).next && a !in After(EMPTY, es, n).heap
    decreases n
  {
    hide Step, Legal, Owned;
    if i < n {
      DeletedStaysDeleted(es, i, n - 1, a);
      RunKeepsOwned(es, n - 1);
      DeletedStep(After(EMPTY, es, n - 1), es[n - 1], a);
    }
  }

  /** Once closed, for good: after any run the pool is closed exactly when some event of it
      closed or destroyed the pool, and then lends nothing, whatever is on its free list. */
  lemma {:induction false} ClosedIff(es: seq<Event>, n: nat, size: int, allocFails: bool)
    requires n <= |es|
    ensures After(EMPTY, es, n).closed <==> exists k :: 0 <= k < n && (es[k] == Close || es[k] == Destroy)
    ensures var p := After(EMPTY, es, n);
            && (p.closed <==> TakeResult(p, size, allocFails) == Result.Closed)
            && (p.closed ==> TakeStep(p, size, allocFails) == p)
            && (TakeResult(p, size, allocFails) == InvalidArgument <==> !p.closed && size < 0)
            && (TakeResult(p, size, allocFails).Lent? ==> !p.closed && size >= 0)
  {
    hide TakeStep;
    ClosedLends(After(EMPTY, es, n), size, allocFails);
    if n > 0 {
      ClosedIff(es, n - 1, size, allocFails);
      ClosedStep(After(EMPTY, es, n - 1), es[n - 1]);
    }
  }

  lemma ClosedLends(p: Pool, size: int, allocFails: bool)
    ensures p.closed <==> TakeResult(p, size, allocFails) == Result.Closed
    ensures p.closed ==> TakeStep(p, size, allocFails) == p
    ensures TakeResult(p, size, allocFails) == InvalidArgument <==> !p.closed && size < 0
  {
  }

  lemma ClosedStep(p: Pool, e: Event)
    ensures Step(p, e).closed <==> p.closed || e == Close || e == Destroy
  {
  }

  // ---- The pool object with its fixed array of entries.

  class BufferPool {
    var closed: bool
    var alive: bool
    const entries: array<nat>
    var entriesLen: nat
    var heap: map<nat, seq<byte>>
    var lent: set<nat>
    var next: nat

    ghost predicate Valid()
      reads this, entries
    {
      entries.Length == MAX_ENTRIES && entriesLen <= MAX_ENTRIES && Owned(Abs())
    }

    ghost function Abs(): Pool
      reads this, entries
    {
      Pool(closed, alive, if entriesLen <= entries.Length then entries[..entriesLen] else [], heap, lent, next)
    }

    constructor ()
      ensures Valid() && Abs() == EMPTY && fresh(entries)
    {
      closed, alive := false, true;
      entries := new nat[MAX_ENTRIES](_ => 0);
      entriesLen, heap, lent, next := 0, map[], {}, 0;
    }

    method Take(size: int, allocFails: bool) returns (r: Result)
      requires Valid() && alive
      modifies this, entries
      ensures Valid() && r == TakeResult(old(Abs()), size, allocFails)
      ensures Abs() == Step(old(Abs()), Event.Take(size, allocFails))
    {
      hide Owned;
      ghost var p := Abs();
      StepKeepsOwned(p, Event.Take(size, allocFails));
      if closed {
        return Result.Closed;
      }
      if size < 0 {
        return InvalidArgument;
      }
      var raw, hit := SearchAndRemove(size);
      if !hit {
        if allocFails {
          return AllocationFailure;
        }
        raw := next;
        next := next + 1;
      }
      heap := heap[raw := Zeros(size)];
      lent := lent + {raw};
      r := Lent(raw, Zeros(size));
    }

    method SearchAndRemove(size: int) returns (raw: nat, hit: bool)
      requires Valid()
      modifies this`entriesLen, entries
      ensures entriesLen <= MAX_ENTRIES
      ensures var p, i := old(Abs()), FirstFit(old(Abs()), size, 0);
              && (hit <==> i < |p.free|)
              && (hit ==> raw == p.free[i])
              && Abs() == p.(free := if hit then SwapRemove(p.free, i) else p.free)
    {
      hide SwapRemove;
      ghost var p := Abs();
      var i := 0;
      while i < entriesLen
        invariant i <= entriesLen == |p.free| && Abs() == p
        invariant FirstFit(p, size, 0) == FirstFit(p, size, i)
      {
        assert entries[i] == p.free[i] && p.free[i] in p.free;
        if |heap[entries[i]]| >= size {
          assert Fits(p, i, size);
          raw := entries[i];
          entries[i] := entries[entriesLen - 1];
          entriesLen := entriesLen - 1;
          SwapRemoved(p.free, i, entries[..entriesLen]);
          return raw, true;
        }
        assert !Fits(p, i, size);
        i := i + 1;
      }
      raw, hit := 0, false;
    }

    /** The closure a loan runs when it is returned; the loan's share in the storage goes
        with it. */
    method ReturnLoan(raw: nat)
      requires Valid() && raw in lent
      modifies this, entries
      ensures Valid() && Abs() == Step(old(Abs()), Return(raw))
    {
      hide Owned, TakeStep, Torn;
      StepKeepsOwned(Abs(), Return(raw));
      ghost var p := Abs();
      if entriesLen < MAX_ENTRIES {
        entries[entriesLen] := raw;
        entriesLen := entriesLen + 1;
        lent := lent - {raw};
        assert entries[..entriesLen] == p.free + [raw];
      } else {
        heap := heap - {raw};
        lent := lent - {raw};
      }
      assert Abs() == Returned(p, raw);
      DropIfLastOwner();
    }

    method CloseDown()
      requires Valid() && alive
      modifies this
      ensures Valid() && Abs() == Step(old(Abs()), Close)
    {
      StepKeepsOwned(Abs(), Close);
      closed := true;
    }

    /** The pool object's destructor. */
    method DestroyPool()
      requires Valid() && alive
      modifies this
      ensures Valid() && Abs() == Step(old(Abs()), Destroy)
    {
      StepKeepsOwned(Abs(), Destroy);
      closed := true;
      alive := false;
      DropIfLastOwner();
    }

    /** The shared storage's destructor, run by whoever leaves last. */
    method DropIfLastOwner()
      requires entries.Length == MAX_ENTRIES && entriesLen <= MAX_ENTRIES
      modifies this`entriesLen, this`heap
      ensures entriesLen <= MAX_ENTRIES && Abs() == Torn(old(Abs()))
    {
      if alive || lent != {} {
        return;
      }
      ghost var before := heap;
      for i := 0 to entriesLen
        invariant entriesLen == old(entriesLen)
        invariant heap == before - Members(entries[..i])
      {
        MembersSnoc(entries[..i], entries[i]);
        assert entries[..i + 1] == entries[..i] + [entries[i]];
        heap := heap - {entries[i]};
      }
      entriesLen := 0;
    }
  }
}
