/** Who may configure an unconfigured server: the claim a first discovery request takes and
    configuration writes keep alive (include/rcp/discovery.hpp, DiscoveryClaim). */
module DiscoveryClaims {
  import opened Wrappers
  import L = Lifecycle

  datatype ClaimOutcome = NotEligible | Claimed | AlreadyHeld | HeldByOther

  datatype Claim = Claim(timeout: int, holder: Option<nat>, claimedAt: int)

  predicate Lapsed(c: Claim, now: int) {
    c.holder.None? || now - c.claimedAt >= c.timeout
  }

  predicate MayConfigure(c: Claim, client: nat, now: int) {
    c.holder == Some(client) && !Lapsed(c, now)
  }

  function Judge(c: Claim, client: nat, state: L.State, now: int): ClaimOutcome {
    if state == L.RcpConfigured then NotEligible
    else if Lapsed(c, now) then Claimed
    else if c.holder == Some(client) then AlreadyHeld else HeldByOther
  }

  class DiscoveryClaim {
    var timeout: int
    var holder: Option<nat>
    var claimedAt: int

    ghost function Abs(): Claim
      reads this
    {
      Claim(timeout, holder, claimedAt)
    }

    constructor (t: int)
      ensures Abs() == Claim(t, None, 0)
    {
      timeout, holder, claimedAt := t, None, 0;
    }

    method OnDiscoveryRequest(client: nat, state: L.State, now: int) returns (o: ClaimOutcome)
      modifies this
      ensures o == Judge(old(Abs()), client, state, now)
      ensures Abs() == Next(old(Abs()), Discover(client, state, now))
      ensures o != Claimed ==> Abs() == old(Abs())
    {
      if state != L.HwUnconfigured && state != L.HwConfigured {
        return NotEligible;
      }
      if holder.Some? && now - claimedAt < timeout {
        return if holder.value == client then AlreadyHeld else HeldByOther;
      }
      holder := Some(client);
      claimedAt := now;
      o := Claimed;
    }

    method OnConfigurationRequest(client: nat, now: int) returns (ok: bool)
      modifies this
      ensures ok <==> MayConfigure(old(Abs()), client, now)
      ensures Abs() == Next(old(Abs()), Configure(client, now))
      ensures !ok ==> Abs() == old(Abs())
    {
      if holder.None? || holder.value != client || now - claimedAt >= timeout {
        return false;
      }
      claimedAt := now;
      ok := true;
    }

    method Release()
      modifies this
      ensures Abs() == Next(old(Abs()), Drop)
    {
      holder := None;
    }

    method SetTimeout(t: int)
      modifies this
      ensures Abs() == Next(old(Abs()), Retime(t))
    {
      timeout := t;
    }
  }

  // ---- Runs.

  datatype Event =
    | Discover(client: nat, state: L.State, now: int)
    | Configure(client: nat, now: int)
    | Drop
    | Retime(timeout: int)

  predicate Grants(c: Claim, e: Event) { e.Discover? && Judge(c, e.client, e.state, e.now) == Claimed }

  predicate Accepts(c: Claim, e: Event) { e.Configure? && MayConfigure(c, e.client, e.now) }

  function Next(c: Claim, e: Event): Claim {
    if Grants(c, e) then c.(holder := Some(e.client), claimedAt := e.now)
    else if Accepts(c, e) then c.(claimedAt := e.now)
    else if e.Drop? then c.(holder := None)
    else if e.Retime? then c.(timeout := e.timeout)
    else c
  }

  function After(c: Claim, es: seq<Event>, n: nat): Claim
    requires n <= |es|
  {
    if n == 0 then c else Next(After(c, es, n - 1), es[n - 1])
  }

  predicate GrantedAt(c: Claim, es: seq<Event>, k: nat)
    requires k < |es|
  {
    Grants(After(c, es, k), es[k])
  }

  predicate AcceptedAt(c: Claim, es: seq<Event>, k: nat)
    requires k < |es|
  {
    Accepts(After(c, es, k), es[k])
  }

  /** When the claim granted at g was last confirmed before event n: at the grant itself or at
      the latest accepted write since. */
  function Confirmed(c: Claim, es: seq<Event>, g: nat, n: nat): int
    requires g < n <= |es| && GrantedAt(c, es, g)
    decreases n
  {
    if n == g + 1 then es[g].now
    else if AcceptedAt(c, es, n - 1) then es[n - 1].now
    else Confirmed(c, es, g, n - 1)
  }

  /** The grant at g still covers its client at event n: nobody released or re-granted the
      claim, only that client wrote, and no write came a full timeout after the claim was
      last confirmed. The timeout is the one in force when the write arrived. */
  ghost predicate Unbroken(c: Claim, es: seq<Event>, g: nat, n: nat) {
    && g < n <= |es| && GrantedAt(c, es, g)
    && (forall k :: g < k < n ==> !es[k].Drop? && !GrantedAt(c, es, k))
    && (forall k :: g < k < n && AcceptedAt(c, es, k) ==>
          es[k].client == es[g].client && es[k].now - Confirmed(c, es, g, k) < After(c, es, k).timeout)
  }

  lemma NextCases(c: Claim, e: Event)
    ensures Grants(c, e) ==> Next(c, e).holder == Some(e.client) && Next(c, e).claimedAt == e.now
    ensures Accepts(c, e)
        ==> Next(c, e) == c.(claimedAt := e.now) && c.holder == Some(e.client) && e.now - c.claimedAt < c.timeout
    ensures !Grants(c, e) && !Accepts(c, e) && !e.Drop?
        ==> Next(c, e).holder == c.holder && Next(c, e).claimedAt == c.claimedAt
    ensures !Grants(c, e) && Next(c, e).holder.Some? ==> !e.Drop? && c.holder.Some?
  {
  }

  lemma {:induction false} UnbrokenHolds(c: Claim, es: seq<Event>, g: nat, n: nat)
    requires Unbroken(c, es, g, n)
    ensures After(c, es, n).holder == Some(es[g].client) && After(c, es, n).claimedAt == Confirmed(c, es, g, n)
    decreases n
  {
    hide Next, MayConfigure, Judge;
    NextCases(After(c, es, n - 1), es[n - 1]);
    if n > g + 1 {
      UnbrokenHolds(c, es, g, n - 1);
      assert !es[n - 1].Drop? && !GrantedAt(c, es, n - 1);
    }
  }

  /** Only a release or another grant ends a grant's story: writes cannot. */
  lemma {:induction false} Undisturbed(c: Claim, es: seq<Event>, g: nat, n: nat)
    requires g < n <= |es| && GrantedAt(c, es, g)
    requires forall k :: g < k < n ==> !es[k].Drop? && !GrantedAt(c, es, k)
    ensures Unbroken(c, es, g, n)
    decreases n
  {
    hide After, Confirmed, Grants;
    if n > g + 1 {
      Undisturbed(c, es, g, n - 1);
      UnbrokenHolds(c, es, g, n - 1);
    }
  }

  lemma {:induction false} HolderStory(c: Claim, es: seq<Event>, n: nat) returns (g: nat)
    requires c.holder == None && n <= |es| && After(c, es, n).holder.Some?
    ensures Unbroken(c, es, g, n)
  {
    hide Next, MayConfigure, Judge, Confirmed;
    var before := After(c, es, n - 1);
    NextCases(before, es[n - 1]);
    if Grants(before, es[n - 1]) {
      g := n - 1;
    } else {
      g := HolderStory(c, es, n - 1);
    }
    Undisturbed(c, es, g, n);
  }

  /** A client may configure exactly when some grant to it is unbroken and was confirmed
      less than a timeout ago. No order of the clock readings is needed. */
  lemma MayConfigureIff(c: Claim, es: seq<Event>, n: nat, client: nat, now: int)
    requires c.holder == None && n <= |es|
    ensures MayConfigure(After(c, es, n), client, now)
       <==> exists g: nat ::
              Unbroken(c, es, g, n) && es[g].client == client && now - Confirmed(c, es, g, n) < After(c, es, n).timeout
  {
    hide After, Confirmed;
    if MayConfigure(After(c, es, n), client, now) {
      var g := HolderStory(c, es, n);
      UnbrokenHolds(c, es, g, n);
      assert Unbroken(c, es, g, n) && es[g].client == client;
    }
    forall g: nat | Unbroken(c, es, g, n)
      ensures After(c, es, n).holder == Some(es[g].client) && After(c, es, n).claimedAt == Confirmed(c, es, g, n)
    {
      UnbrokenHolds(c, es, g, n);
    }
  }

  /** While a grant is neither released nor replaced, the next discovery request is granted
      exactly when it finds the server unconfigured and a full timeout has passed since the
      grant was last confirmed -- whoever asks. So two successive grants are separated by a
      release or by such a gap. */
  lemma NextGrantIff(c: Claim, es: seq<Event>, g: nat, n: nat)
    requires g < n < |es| && GrantedAt(c, es, g)
    requires forall k :: g < k < n ==> !es[k].Drop? && !GrantedAt(c, es, k)
    ensures GrantedAt(c, es, n)
       <==> es[n].Discover? && es[n].state != L.RcpConfigured
            && es[n].now - Confirmed(c, es, g, n) >= After(c, es, n).timeout
  {
    hide After, Confirmed, Unbroken;
    Undisturbed(c, es, g, n);
    UnbrokenHolds(c, es, g, n);
  }

  /** A timeout change acts on the claim in flight, at once. Made at `at`, it leaves the
      holder's standing alone at every later moment exactly when it changes nothing or the
      claim has run out under both timeouts by then; where it does not, the standing flips
      just while the claim's age lies between the two. */
  lemma RetimeKeepsIff(c: Claim, timeout: int, client: nat, at: int)
    requires c.holder == Some(client)
    ensures (forall now :: now >= at ==>
               MayConfigure(Next(c, Retime(timeout)), client, now) == MayConfigure(c, client, now))
       <==> timeout == c.timeout || (at - c.claimedAt >= timeout && at - c.claimedAt >= c.timeout)
    ensures forall now :: MayConfigure(Next(c, Retime(timeout)), client, now) != MayConfigure(c, client, now)
                     <==> c.timeout <= now - c.claimedAt < timeout || timeout <= now - c.claimedAt < c.timeout
  {
    var lower := if timeout < c.timeout then timeout else c.timeout;
    var moment := if at > c.claimedAt + lower then at else c.claimedAt + lower;
    if timeout != c.timeout && !(at - c.claimedAt >= timeout && at - c.claimedAt >= c.timeout) {
      assert MayConfigure(Next(c, Retime(timeout)), client, moment) != MayConfigure(c, client, moment);
    }
  }

  /** So a deadline granted under one timeout is not kept under the next. */
  lemma RetimeCutsShort()
    ensures var granted := Next(Claim(20, None, 0), Discover(1, L.HwUnconfigured, 0));
            MayConfigure(granted, 1, 15) && !MayConfigure(Next(granted, Retime(10)), 1, 15)
  {
  }

  /** Every request is answered by one of four outcomes. A live server hears none; otherwise
      a requester holding an unlapsed claim is told so, one finding another's is told that,
      and whoever finds none gets it. Only the last changes anything. */
  lemma OutcomeMeaning(c: Claim, client: nat, state: L.State, now: int)
    ensures var o, after := Judge(c, client, state, now), Next(c, Discover(client, state, now));
            && (o == NotEligible <==> state == L.RcpConfigured)
            && (o == AlreadyHeld <==> state != L.RcpConfigured && MayConfigure(c, client, now))
            && (o == HeldByOther <==>
                  state != L.RcpConfigured && exists other: nat :: other != client && MayConfigure(c, other, now))
            && (o == Claimed <==> state != L.RcpConfigured && forall any: nat :: !MayConfigure(c, any, now))
            && (o == Claimed ==> c.timeout > 0 ==> MayConfigure(after, client, now))
            && (o != Claimed ==> after == c)
  {
    if c.holder.Some? && now - c.claimedAt < c.timeout {
      assert MayConfigure(c, c.holder.value, now);
    }
  }
}
