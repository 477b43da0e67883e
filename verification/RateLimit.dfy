/** Admission control (include/rcp/ratelimit.hpp): one token bucket per domain. Tokens are
    exact reals; clock readings are 64-bit and their difference wraps, as in the source. */
module RateLimit {
  import opened Bytes

  datatype Config = Config(rate: real, burst: int, exemptSafetyTagged: bool)

  datatype Bucket = Bucket(hasLast: bool, last: u64, tokens: real)

  function Fresh(cfg: Config): Bucket { Bucket(false, 0, cfg.burst as real) }

  /** What `ms` milliseconds are worth. */
  function Refill(cfg: Config, ms: nat): real { ms as real / 1000.0 * cfg.rate }

  lemma RefillAdds(cfg: Config, a: nat, b: nat)
    ensures Refill(cfg, a + b) == Refill(cfg, a) + Refill(cfg, b) && Refill(cfg, 0) == 0.0
  {
    var r := cfg.rate;
    assert (a + b) as real / 1000.0 == a as real / 1000.0 + b as real / 1000.0;
    Distribute(a as real / 1000.0, b as real / 1000.0, r);
  }

  lemma Distribute(x: real, y: real, r: real)
    ensures (x + y) * r == x * r + y * r
  {
  }

  lemma RefillNonNegative(cfg: Config, ms: nat)
    requires cfg.rate >= 0.0
    ensures Refill(cfg, ms) >= 0.0
  {
    assert ms as real / 1000.0 >= 0.0;
  }

  function Min(a: real, b: real): real { if a > b then b else a }

  function Refilled(cfg: Config, b: Bucket, now: u64): real {
    if b.hasLast then Min(b.tokens + Refill(cfg, (now - b.last) % TWO64), cfg.burst as real) else b.tokens
  }

  predicate Takes(cfg: Config, b: Bucket, now: u64) { Refilled(cfg, b, now) >= 1.0 }

  function Taken(cfg: Config, b: Bucket, now: u64): Bucket {
    Bucket(true, now, Refilled(cfg, b, now) - if Takes(cfg, b, now) then 1.0 else 0.0)
  }

  class TokenBucket {
    const cfg: Config
    var hasLast: bool
    var last: u64
    var tokens: real

    ghost function Abs(): Bucket
      reads this
    {
      Bucket(hasLast, last, tokens)
    }

    constructor (c: Config)
      ensures cfg == c && Abs() == Fresh(c)
    {
      cfg := c;
      hasLast, last, tokens := false, 0, c.burst as real;
    }

    method Take(now: u64) returns (ok: bool)
      modifies this
      ensures ok <==> Takes(cfg, old(Abs()), now)
      ensures Abs() == Taken(cfg, old(Abs()), now)
    {
      hide Refill;
      if hasLast {
        tokens := tokens + Refill(cfg, (now - last) % TWO64);
        if tokens > cfg.burst as real {
          tokens := cfg.burst as real;
        }
      }
      hasLast := true;
      last := now;
      if tokens < 1.0 {
        return false;
      }
      tokens := tokens - 1.0;
      ok := true;
    }
  }

  // ---- One bucket over any run of calls.

  /** After the first `n` calls, at times `ts`. */
  function After(cfg: Config, ts: seq<u64>, n: nat): Bucket
    requires n <= |ts|
  {
    if n == 0 then Fresh(cfg) else Taken(cfg, After(cfg, ts, n - 1), ts[n - 1])
  }

  predicate Succeeds(cfg: Config, ts: seq<u64>, k: nat)
    requires k < |ts|
  {
    Takes(cfg, After(cfg, ts, k), ts[k])
  }

  /** How many of calls i to j - 1 succeed. */
  function Successes(cfg: Config, ts: seq<u64>, i: nat, j: nat): nat
    requires i <= j <= |ts|
    decreases j
  {
    if i == j then 0 else Successes(cfg, ts, i, j - 1) + if Succeeds(cfg, ts, j - 1) then 1 else 0
  }

  predicate Sane(cfg: Config) { cfg.rate >= 0.0 && cfg.burst >= 0 }

  /** Whatever the clock does, the level never leaves [0, burst]. */
  lemma {:induction false} TokensBounded(cfg: Config, ts: seq<u64>, n: nat)
    requires Sane(cfg) && n <= |ts|
    ensures 0.0 <= After(cfg, ts, n).tokens <= cfg.burst as real
  {
    hide Refill;
    if n > 0 {
      TokensBounded(cfg, ts, n - 1);
      RefillNonNegative(cfg, (ts[n - 1] - After(cfg, ts, n - 1).last) % TWO64);
    }
  }

  lemma Remembers(cfg: Config, ts: seq<u64>, n: nat)
    requires 0 < n <= |ts|
    ensures After(cfg, ts, n).hasLast && After(cfg, ts, n).last == ts[n - 1]
  {
  }

  ghost predicate NonDecreasing(ts: seq<u64>) {
    forall i, j :: 0 <= i <= j < |ts| ==> ts[i] <= ts[j]
  }

  lemma {:induction false} Potential(cfg: Config, ts: seq<u64>, i: nat, j: nat)
    requires Sane(cfg) && NonDecreasing(ts) && i < j <= |ts|
    ensures Successes(cfg, ts, i, j) as real + After(cfg, ts, j).tokens <= cfg.burst as real
        + Refill(cfg, ts[j - 1] - ts[i])
    decreases j
  {
    hide Refill;
    TokensBounded(cfg, ts, j - 1);
    var b := After(cfg, ts, j - 1);
    if j == i + 1 {
      RefillAdds(cfg, 0, 0);
      assert Successes(cfg, ts, i, i) == 0;
      assert Refilled(cfg, b, ts[i]) <= cfg.burst as real;
    } else {
      Potential(cfg, ts, i, j - 1);
      Remembers(cfg, ts, j - 1);
      var gap := ts[j - 1] - ts[j - 2];
      assert gap % TWO64 == gap;
      RefillAdds(cfg, ts[j - 2] - ts[i], gap);
    }
  }

  /** In any window of calls the successes number at most the burst plus what the window's
      length refills. */
  lemma WindowBound(cfg: Config, ts: seq<u64>, i: nat, j: nat)
    requires Sane(cfg) && NonDecreasing(ts) && i < j <= |ts|
    ensures Successes(cfg, ts, i, j) as real <= cfg.burst as real + Refill(cfg, ts[j - 1] - ts[i])
  {
    hide Refill, After, Successes;
    Potential(cfg, ts, i, j);
    TokensBounded(cfg, ts, j);
  }

  /** And a caller that spaces its calls so that each gap refills a token is never refused. */
  lemma {:induction false} SpacedNeverRefused(cfg: Config, ts: seq<u64>, n: nat)
    requires Sane(cfg) && cfg.burst >= 1 && n < |ts|
    requires forall k :: 0 < k < |ts| ==> ts[k - 1] <= ts[k] && Refill(cfg, ts[k] - ts[k - 1]) >= 1.0
    ensures Succeeds(cfg, ts, n)
  {
    hide Refill;
    if n > 0 {
      TokensBounded(cfg, ts, n);
      Remembers(cfg, ts, n);
      var gap := ts[n] - ts[n - 1];
      assert gap % TWO64 == gap;
      assert Refill(cfg, gap) >= 1.0;
    }
  }

  /** A fresh bucket admits exactly its burst at one instant. */
  lemma {:induction false} FreshBurst(cfg: Config, ts: seq<u64>, n: nat)
    requires Sane(cfg) && n <= |ts| && forall k :: 0 <= k < |ts| ==> ts[k] == ts[0]
    ensures After(cfg, ts, n).tokens == (if n < cfg.burst then cfg.burst - n else 0) as real
    ensures forall k :: 0 <= k < n ==> (Succeeds(cfg, ts, k) <==> k < cfg.burst)
  {
    hide Refill;
    if n > 0 {
      FreshBurst(cfg, ts, n - 1);
      RefillAdds(cfg, 0, 0);
      if n > 1 {
        Remembers(cfg, ts, n - 1);
      }
    }
  }

  /** The rate counts tokens per second: a bucket empty at `last` admits a call `ms`
      milliseconds later exactly when a token's worth has come in and it may hold one. */
  lemma RefillIsPerSecond(cfg: Config, last: u64, ms: nat)
    requires last as int + ms < TWO64
    ensures Takes(cfg, Bucket(true, last, 0.0), last + ms) <==> ms as real * cfg.rate >= 1000.0 && cfg.burst >= 1
  {
    var gain := Refill(cfg, ms);
    assert (last as int + ms - last as int) % TWO64 == ms;
    assert gain == ms as real * cfg.rate / 1000.0 by {
      Scale(ms as real, cfg.rate);
    }
  }

  lemma Scale(x: real, r: real)
    ensures x / 1000.0 * r == x * r / 1000.0
  {
  }

  // ---- Many domains.

  datatype Key = Key(stream: u64, busId: u16)

  datatype Event = Admit(key: Key, safetyTagged: bool, now: u64) | Reset(key: Key)

  /** The bucket a domain has, or would be given. */
  function Lookup(cfg: Config, buckets: map<Key, Bucket>, key: Key): Bucket {
    if key in buckets then buckets[key] else Fresh(cfg)
  }

  predicate Exempt(cfg: Config, safetyTagged: bool) { cfg.exemptSafetyTagged && safetyTagged }

  predicate Admits(cfg: Config, buckets: map<Key, Bucket>, key: Key, safetyTagged: bool, now: u64) {
    Exempt(cfg, safetyTagged) || Takes(cfg, Lookup(cfg, buckets, key), now)
  }

  function Next(cfg: Config, buckets: map<Key, Bucket>, e: Event): map<Key, Bucket> {
    match e
    case Admit(key, safe, now) =>
      if Exempt(cfg, safe) then buckets else buckets[key := Taken(cfg, Lookup(cfg, buckets, key), now)]
    case Reset(key) => buckets - {key}
  }

  /** Holds its buckets by value, made on first use. */
  class Manager {
    const cfg: Config
    var buckets: map<Key, Bucket>

    constructor (c: Config)
      ensures cfg == c && buckets == map[]
    {
      cfg := c;
      buckets := map[];
    }

    method AdmitRequest(key: Key, safetyTagged: bool, now: u64) returns (ok: bool)
      modifies this
      ensures ok <==> Admits(cfg, old(buckets), key, safetyTagged, now)
      ensures buckets == Next(cfg, old(buckets), Admit(key, safetyTagged, now))
    {
      hide Taken, Takes;
      if cfg.exemptSafetyTagged && safetyTagged {
        return true;
      }
      if key !in buckets {
        buckets := buckets[key := Fresh(cfg)];
      }
      ok := Takes(cfg, buckets[key], now);
      buckets := buckets[key := Taken(cfg, buckets[key], now)];
    }

    method ResetDomain(key: Key)
      modifies this
      ensures buckets == Next(cfg, old(buckets), Reset(key))
    {
      buckets := buckets - {key};
    }
  }

  function Run(cfg: Config, es: seq<Event>): map<Key, Bucket>
    decreases |es|
  {
    if es == [] then map[] else Next(cfg, Run(cfg, es[..|es| - 1]), es[|es| - 1])
  }

  /** When one domain's metered requests came, since its last reset. Nothing here depends
      on any other domain. */
  function Metered(cfg: Config, es: seq<Event>, key: Key): seq<u64>
    decreases |es|
  {
    if es == [] then []
    else
      var earlier := Metered(cfg, es[..|es| - 1], key);
      match es[|es| - 1]
      case Admit(k, safe, now) => if k == key && !Exempt(cfg, safe) then earlier + [now] else earlier
      case Reset(k) => if k == key then [] else earlier
  }

  lemma {:induction false} AfterPrefix(cfg: Config, ts: seq<u64>, t: u64, n: nat)
    requires n <= |ts|
    ensures After(cfg, ts + [t], n) == After(cfg, ts, n)
  {
    hide Taken;
    if n > 0 {
      AfterPrefix(cfg, ts, t, n - 1);
    }
  }

  /** After any interleaving each domain's bucket is a token bucket of its own, run on its
      own requests since its own last reset -- so every bound above holds domain by domain. */
  lemma {:induction false} DomainIsOwnBucket(cfg: Config, es: seq<Event>, key: Key)
    ensures Lookup(cfg, Run(cfg, es), key) == After(cfg, Metered(cfg, es, key), |Metered(cfg, es, key)|)
    decreases |es|
  {
    hide Taken, Exempt;
    if es != [] {
      var init, ts := es[..|es| - 1], Metered(cfg, es[..|es| - 1], key);
      DomainIsOwnBucket(cfg, init, key);
      var e := es[|es| - 1];
      if e.Admit? && e.key == key && !Exempt(cfg, e.safetyTagged) {
        AfterPrefix(cfg, ts, e.now, |ts|);
      }
    }
  }

  /** One domain's events out of a run. */
  function Domain(es: seq<Event>, key: Key): seq<Event>
    decreases |es|
  {
    if es == [] then []
    else
      var earlier := Domain(es[..|es| - 1], key);
      if es[|es| - 1].key == key then earlier + [es[|es| - 1]] else earlier
  }

  lemma {:induction false} MeteredOfDomain(cfg: Config, es: seq<Event>, key: Key)
    ensures Metered(cfg, Domain(es, key), key) == Metered(cfg, es, key)
    decreases |es|
  {
    hide Exempt;
    if es != [] {
      var earlier, e := Domain(es[..|es| - 1], key), es[|es| - 1];
      MeteredOfDomain(cfg, es[..|es| - 1], key);
      if e.key == key {
        assert (earlier + [e])[..|earlier|] == earlier;
      }
    }
  }

  /** Two runs that agree on a domain's own events answer that domain alike, whatever the
      traffic elsewhere. */
  lemma Isolation(cfg: Config, es: seq<Event>, fs: seq<Event>, key: Key, safetyTagged: bool, now: u64)
    requires Domain(es, key) == Domain(fs, key)
    ensures Admits(cfg, Run(cfg, es), key, safetyTagged, now) <==> Admits(cfg, Run(cfg, fs), key, safetyTagged, now)
  {
    hide Run, Takes, After, Metered, Domain, Lookup;
    DomainIsOwnBucket(cfg, es, key);
    DomainIsOwnBucket(cfg, fs, key);
    MeteredOfDomain(cfg, es, key);
    MeteredOfDomain(cfg, fs, key);
  }

  /** A safety-tagged request of a manager that exempts them is admitted and touches no
      bucket; every other request is metered, and its answer is its own bucket's. */
  lemma ExemptIff(cfg: Config, es: seq<Event>, key: Key, safetyTagged: bool, now: u64)
    ensures var before, after := Run(cfg, es), Run(cfg, es + [Admit(key, safetyTagged, now)]);
            && (cfg.exemptSafetyTagged && safetyTagged ==>
                  Admits(cfg, before, key, safetyTagged, now) && after == before)
            && (!(cfg.exemptSafetyTagged && safetyTagged) ==>
                  && key in after && after[key].hasLast && after[key].last == now
                  && (forall k :: k != key ==> (k in after <==> k in before))
                  && (forall k :: k != key && k in before ==> after[k] == before[k])
                  && var ts := Metered(cfg, es, key);
                     Admits(cfg, before, key, safetyTagged, now) <==> Takes(cfg, After(cfg, ts, |ts|), now))
  {
    hide After, Metered, Refilled;
    var e := Admit(key, safetyTagged, now);
    assert (es + [e])[..|es|] == es;
    DomainIsOwnBucket(cfg, es, key);
  }

  /** A domain that was never seen, or was reset, starts with a full bucket. */
  lemma StartsFull(cfg: Config, es: seq<Event>, key: Key)
    requires (forall e :: e in es ==> e.key != key) || (es != [] && es[|es| - 1] == Reset(key))
    ensures Lookup(cfg, Run(cfg, es), key) == Bucket(false, 0, cfg.burst as real)
  {
    hide Taken, Exempt;
    if forall e :: e in es ==> e.key != key {
      Untouched(cfg, es, key);
    }
  }

  lemma {:induction false} Untouched(cfg: Config, es: seq<Event>, key: Key)
    requires forall e :: e in es ==> e.key != key
    ensures key !in Run(cfg, es)
    decreases |es|
  {
    hide Taken, Exempt;
    if es != [] {
      assert es[|es| - 1] in es;
      Untouched(cfg, es[..|es| - 1], key);
    }
  }
}
