/** The ADC's averaging pipeline (include/rcp/adc.hpp): raw samples are averaged per
    interval, averages wait in a bounded buffer, responses take them out in order. */
module Adc {
  import opened Bytes
  import opened Wrappers

  const NO_SIGNAL: u16 := 0xFFFF
  const MAX_COMBINE_VALUES: nat := 255

  datatype Sample = Sample(value: u16, timestamp: u64)

  datatype Average = Average(value: u16, timestamp: u64)

  // ---- One averaging interval.

  /** The samples that were captured in time. */
  function Usable(samples: seq<Sample>): (u: seq<Sample>)
    ensures forall i :: 0 <= i < |u| ==> u[i] in samples && u[i].value < NO_SIGNAL
    decreases |samples|
  {
    if samples == [] then []
    else
      var n := |samples| - 1;
      var u := Usable(samples[..n]);
      if samples[n].value == NO_SIGNAL then u else u + [samples[n]]
  }

  function Sum(samples: seq<Sample>): nat
    decreases |samples|
  {
    if samples == [] then 0 else Sum(samples[..|samples| - 1]) + samples[|samples| - 1].value
  }

  function Times(a: nat, n: nat): nat { a * n }

  lemma TimesMono(a: nat, b: nat, n: nat)
    requires a <= b
    ensures Times(a, n) <= Times(b, n)
  {
  }

  lemma TimesSucc(a: nat, n: nat)
    ensures Times(a, n + 1) == Times(a, n) + a && Times(n + 1, a) == Times(n, a) + a && Times(a, 0) == 0
  {
  }

  lemma {:induction false} SumBounds(samples: seq<Sample>, lo: nat, hi: nat)
    requires forall i :: 0 <= i < |samples| ==> lo <= samples[i].value <= hi
    ensures Times(lo, |samples|) <= Sum(samples) <= Times(hi, |samples|)
    decreases |samples|
  {
    hide Times;
    if samples == [] {
      TimesSucc(lo, 0);
      TimesSucc(hi, 0);
    } else {
      var n := |samples| - 1;
      SumBounds(samples[..n], lo, hi);
      TimesSucc(lo, n);
      TimesSucc(hi, n);
    }
  }

  lemma Quotient(s: nat, n: nat) returns (q: nat)
    requires n > 0
    ensures q == s / n && Times(q, n) <= s < Times(q + 1, n)
  {
    q := s / n;
    TimesSucc(n, q);
  }

  lemma MeanBounds(s: nat, n: nat, lo: nat, hi: nat)
    requires n > 0 && Times(lo, n) <= s <= Times(hi, n)
    ensures lo <= s / n <= hi
  {
    hide Times;
    var q := Quotient(s, n);
    if q < lo {
      TimesMono(q + 1, lo, n);
    }
    if q > hi {
      TimesMono(hi + 1, q, n);
      TimesSucc(n, hi);
    }
  }

  function Mean(u: seq<Sample>): (m: u16)
    requires u != [] && forall i :: 0 <= i < |u| ==> u[i].value < NO_SIGNAL
    ensures m < NO_SIGNAL
  {
    SumBounds(u, 0, NO_SIGNAL - 1);
    MeanBounds(Sum(u), |u|, 0, NO_SIGNAL - 1);
    Sum(u) / |u|
  }

  function Averaged(samples: seq<Sample>): Average {
    var u := Usable(samples);
    if samples == [] then Average(NO_SIGNAL, 0)
    else if u == [] then Average(NO_SIGNAL, samples[|samples| - 1].timestamp)
    else Average(Mean(u), u[|u| - 1].timestamp)
  }

  method AverageInterval(samples: seq<Sample>) returns (r: Average)
    ensures r == Averaged(samples)
  {
    hide Usable, Sum;
    if samples == [] {
      return Average(NO_SIGNAL, 0);
    }
    NoneUsable();
    var sum, counted := 0, 0;
    for i := 0 to |samples|
      invariant counted == |Usable(samples[..i])| && sum == Sum(Usable(samples[..i]))
    {
      UsableSnoc(samples[..i], samples[i]);
      assert samples[..i + 1] == samples[..i] + [samples[i]];
      if samples[i].value != NO_SIGNAL {
        sum := sum + samples[i].value;
        counted := counted + 1;
      }
    }
    assert samples[..|samples|] == samples;
    var timestamp := samples[|samples| - 1].timestamp;
    var i := |samples|;
    while i > 0
      invariant 0 <= i <= |samples| && Usable(samples) == Usable(samples[..i])
    {
      assert samples[..i] == samples[..i - 1] + [samples[i - 1]];
      UsableSnoc(samples[..i - 1], samples[i - 1]);
      if samples[i - 1].value != NO_SIGNAL {
        timestamp := samples[i - 1].timestamp;
        break;
      }
      i := i - 1;
    }
    if counted == 0 {
      return Average(NO_SIGNAL, timestamp);
    }
    assert Mean(Usable(samples)) == sum / counted;
    r := Average(sum / counted, timestamp);
  }

  lemma NoneUsable()
    ensures Usable([]) == [] && Sum([]) == 0
  {
  }

  lemma UsableSnoc(samples: seq<Sample>, s: Sample)
    ensures Usable(samples + [s]) == if s.value == NO_SIGNAL then Usable(samples) else Usable(samples) + [s]
    ensures s.value != NO_SIGNAL ==> Sum(Usable(samples + [s])) == Sum(Usable(samples)) + s.value
  {
    assert (samples + [s])[..|samples|] == samples;
    var u := Usable(samples);
    assert (u + [s])[..|u|] == u;
  }

  lemma {:induction false} NoneUsableIff(samples: seq<Sample>)
    ensures Usable(samples) == [] <==> forall s :: s in samples ==> s.value == NO_SIGNAL
    decreases |samples|
  {
    if samples != [] {
      var n := |samples| - 1;
      NoneUsableIff(samples[..n]);
      assert samples == samples[..n] + [samples[n]];
    }
  }

  /** An interval reads "no signal" exactly when none of its samples was usable. */
  lemma NoSignalIff(samples: seq<Sample>)
    ensures Averaged(samples).value == NO_SIGNAL <==> forall s :: s in samples ==> s.value == NO_SIGNAL
  {
    hide Usable, Mean;
    NoneUsableIff(samples);
  }

  /** Otherwise it lies between two of its usable samples. */
  lemma AverageBetween(samples: seq<Sample>)
    requires Averaged(samples).value != NO_SIGNAL
    ensures exists s :: s in samples && s.value <= Averaged(samples).value
    ensures exists s :: s in samples && s.value != NO_SIGNAL && Averaged(samples).value <= s.value
  {
    hide Usable;
    var u, v := Usable(samples), Averaged(samples).value;
    if forall i :: 0 <= i < |u| ==> v < u[i].value {
      SumBounds(u, v + 1, NO_SIGNAL);
      MeanBounds(Sum(u), |u|, v + 1, NO_SIGNAL);
      assert false;
    }
    if forall i :: 0 <= i < |u| ==> u[i].value < v {
      SumBounds(u, 0, v - 1);
      MeanBounds(Sum(u), |u|, 0, v - 1);
      assert false;
    }
  }

  /** The usable samples are all those, each as often as it was returned, that do not read
      "no signal". */
  lemma {:induction false} UsableAreAll(samples: seq<Sample>, s: Sample)
    ensures multiset(Usable(samples))[s] == if s.value == 0xFFFF then 0 else multiset(samples)[s]
    decreases |samples|
  {
    if samples != [] {
      var n := |samples| - 1;
      UsableAreAll(samples[..n], s);
      assert samples == samples[..n] + [samples[n]];
    }
  }

  /** The average is the arithmetic mean of the usable samples, rounded down. */
  lemma AverageIsMean(samples: seq<Sample>)
    requires exists s :: s in samples && s.value != NO_SIGNAL
    ensures var u, v := Usable(samples), Averaged(samples).value;
            u != [] && v * |u| <= Sum(u) < (v as int + 1) * |u|
  {
    hide Usable, Sum;
    NoneUsableIff(samples);
    var q := Quotient(Sum(Usable(samples)), |Usable(samples)|);
  }

  /** It is stamped with the moment of the last usable sample or, none being usable, of the
      last sample taken; an interval without samples is stamped 0. */
  lemma {:induction false} CaptureMoment(samples: seq<Sample>)
    ensures samples == [] ==> Averaged(samples).timestamp == 0
    ensures samples != [] && (forall s :: s in samples ==> s.value == NO_SIGNAL) ==>
      Averaged(samples).timestamp == samples[|samples| - 1].timestamp
    ensures (exists s :: s in samples && s.value != NO_SIGNAL) ==>
      exists k :: 0 <= k < |samples| && LastUsable(samples, k) && Averaged(samples).timestamp == samples[k].timestamp
  {
    hide Usable, Mean;
    NoneUsableIff(samples);
    if Usable(samples) != [] {
      var k := LastOfUsable(samples);
    }
  }

  /** Sample `k` is usable and no later one is. */
  ghost predicate LastUsable(samples: seq<Sample>, k: nat)
    requires k < |samples|
  {
    samples[k].value != NO_SIGNAL && forall j :: k < j < |samples| ==> samples[j].value == NO_SIGNAL
  }

  lemma {:induction false} LastOfUsable(samples: seq<Sample>) returns (k: nat)
    requires Usable(samples) != []
    ensures k < |samples| && LastUsable(samples, k) && samples[k] == Usable(samples)[|Usable(samples)| - 1]
    decreases |samples|
  {
    var n := |samples| - 1;
    if samples[n].value != NO_SIGNAL {
      k := n;
    } else {
      k := LastOfUsable(samples[..n]);
      assert forall j :: k < j < n ==> samples[j] == samples[..n][j];
    }
  }

  // ---- The pending buffer.

  class PendingBuffer {
    const data: array<Average>
    var size: nat

    ghost predicate Valid()
      reads this, data
    {
      data.Length == MAX_COMBINE_VALUES && size <= MAX_COMBINE_VALUES
    }

    ghost function Contents(): (s: seq<Average>)
      reads this, data
      requires Valid()
    {
      data[..size]
    }

    constructor ()
      ensures Valid() && Contents() == [] && fresh(data)
    {
      data := new Average[MAX_COMBINE_VALUES](_ => Average(0, 0));
      size := 0;
    }

    method PushBack(v: Average) returns (ok: bool)
      requires Valid()
      modifies this, data
      ensures Valid() && (ok <==> old(size) < MAX_COMBINE_VALUES)
      ensures Contents() == if ok then old(Contents()) + [v] else old(Contents())
    {
      if size >= MAX_COMBINE_VALUES {
        return false;
      }
      data[size] := v;
      size := size + 1;
      ok := true;
    }

    /** Drops the first `n` entries and shifts the rest down. */
    method PopFrontN(n: nat)
      requires Valid()
      modifies this, data
      ensures Valid()
      ensures Contents() == old(Contents())[if n < old(size) then n else old(size)..]
    {
      var k := if n < size then n else size;
      ghost var before := data[..size];
      for i := 0 to size - k
        invariant size == old(size)
        invariant forall j :: 0 <= j < i ==> data[j] == before[k + j]
        invariant forall j :: i + k <= j < size ==> data[j] == before[j]
      {
        data[i] := data[i + k];
      }
      size := size - k;
    }
  }

  datatype Response = Response(values: seq<u16>, timestamp: u64)

  function Values(a: seq<Average>): (v: seq<u16>)
    ensures |v| == |a|
  {
    seq(|a|, k requires 0 <= k < |a| => a[k].value)
  }

  /** A response carries the first `c` averages verbatim and the moment of the first. */
  function Packed(front: seq<Average>): Response {
    Response(Values(front), if front == [] then 0 else front[0].timestamp)
  }

  class AdcEndpoint {
    const pending: PendingBuffer

    ghost predicate Valid()
      reads this, pending, pending.data
    {
      pending.Valid()
    }

    ghost function Contents(): seq<Average>
      reads this, pending, pending.data
      requires Valid()
    {
      pending.Contents()
    }

    constructor ()
      ensures Valid() && Contents() == [] && fresh(pending) && fresh(pending.data)
    {
      pending := new PendingBuffer();
    }

    /** `samples`: what the sampling callback returned, one by one. */
    method ExecuteMeasurementCycle(samples: seq<Sample>) returns (ok: bool)
      requires Valid()
      modifies pending, pending.data
      ensures Valid() && (ok <==> |old(Contents())| < MAX_COMBINE_VALUES)
      ensures Contents() == Run(old(Contents()), Cycle(samples)).0
    {
      var avg := AverageInterval(samples);
      ok := pending.PushBack(avg);
    }

    method CollectResponse(combine: byte) returns (r: Option<Response>)
      requires Valid()
      modifies pending, pending.data
      ensures Valid()
      ensures (Contents(), r) == Run(old(Contents()), Collect(combine))
    {
      if pending.size < combine {
        return None;
      }
      ghost var before := Contents();
      var front: seq<Average> := [];
      for i := 0 to combine
        invariant front == pending.data[..i]
      {
        front := front + [pending.data[i]];
      }
      var values: seq<u16> := [];
      for i := 0 to combine
        invariant values == Values(front[..i])
      {
        values := values + [front[i].value];
      }
      assert front == before[..combine] && front[..combine] == front;
      r := Some(Response(values, if front == [] then 0 else front[0].timestamp));
      pending.PopFrontN(combine);
    }
  }

  // ---- Runs.

  datatype Event = Cycle(samples: seq<Sample>) | Collect(combine: byte)

  /** The new pending averages, and the response if one came out. */
  function Run(pending: seq<Average>, e: Event): (seq<Average>, Option<Response>) {
    match e
    case Cycle(samples) => (if |pending| < MAX_COMBINE_VALUES then pending + [Averaged(samples)] else pending, None)
    case Collect(c) => if |pending| < c then (pending, None) else (pending[c..], Some(Packed(pending[..c])))
  }

  datatype History = History(pending: seq<Average>, collected: seq<Response>, successes: seq<Average>)

  const START := History([], [], [])

  function Step(h: History, e: Event): History {
    var (pending, r) := Run(h.pending, e);
    History(pending,
            if r.Some? then h.collected + [r.value] else h.collected,
            if e.Cycle? && |h.pending| < MAX_COMBINE_VALUES then h.successes + [Averaged(e.samples)] else h.successes)
  }

  function After(h: History, es: seq<Event>): History
    decreases |es|
  {
    if es == [] then h else Step(After(h, es[..|es| - 1]), es[|es| - 1])
  }

  function AllValues(rs: seq<Response>): seq<u16>
    decreases |rs|
  {
    if rs == [] then [] else AllValues(rs[..|rs| - 1]) + rs[|rs| - 1].values
  }

  /** Nothing is lost, repeated, reordered or invented: the responses collected so far,
      laid end to end and followed by what is pending, are the averages of the successful
      cycles in order; and each response is stamped with its own first average's moment. */
  ghost predicate Conserved(h: History) {
    && AllValues(h.collected) + Values(h.pending) == Values(h.successes)
    && |h.pending| <= |h.successes| && h.successes[|h.successes| - |h.pending|..] == h.pending
    && (forall j :: 0 <= j < |h.collected| ==> Stamped(h, j))
  }

  ghost predicate Stamped(h: History, j: nat)
    requires j < |h.collected|
  {
    var at := |AllValues(h.collected[..j])|;
    if h.collected[j].values == [] then h.collected[j].timestamp == 0
    else at < |h.successes| && h.collected[j].timestamp == h.successes[at].timestamp
  }

  lemma StampedMonotone(h: History, k: History, j: nat)
    requires j < |h.collected| && Stamped(h, j)
    requires h.collected <= k.collected && h.successes <= k.successes
    ensures Stamped(k, j)
  {
    assert k.collected[..j] == h.collected[..j];
  }

  lemma ValuesConcat(a: seq<Average>, b: seq<Average>)
    ensures Values(a + b) == Values(a) + Values(b)
  {
  }

  lemma CycleConserves(h: History, samples: seq<Sample>)
    requires Conserved(h)
    ensures Conserved(Step(h, Cycle(samples)))
  {
    hide Averaged, AllValues, Values, Stamped;
    var k, a := Step(h, Cycle(samples)), Averaged(samples);
    if |h.pending| < MAX_COMBINE_VALUES {
      ValuesConcat(h.pending, [a]);
      ValuesConcat(h.successes, [a]);
      assert AllValues(k.collected) + Values(k.pending) == (AllValues(h.collected) + Values(h.pending)) + Values([a]);
      var n := |h.successes| - |h.pending|;
      assert k.successes[n..] == h.successes[n..] + [a];
      forall j | 0 <= j < |k.collected| ensures Stamped(k, j) {
        StampedMonotone(h, k, j);
      }
    }
  }

  lemma AllValuesSnoc(rs: seq<Response>, r: Response)
    ensures AllValues(rs + [r]) == AllValues(rs) + r.values
  {
    assert (rs + [r])[..|rs|] == rs;
  }

  lemma CollectedStamped(h: History, k: History, front: seq<Average>)
    requires k == h.(collected := h.collected + [Packed(front)], pending := k.pending)
    requires |AllValues(h.collected)| + |front| <= |h.successes|
    requires front != [] ==> front[0] == h.successes[|AllValues(h.collected)|]
    ensures Stamped(k, |h.collected|)
  {
    hide AllValues;
    assert k.collected[..|h.collected|] == h.collected;
  }

  lemma CollectConserves(h: History, c: byte)
    requires Conserved(h)
    ensures Conserved(Step(h, Collect(c)))
  {
    hide Averaged, AllValues, Values, Stamped, Packed;
    if |h.pending| >= c {
      var front, rest := h.pending[..c], h.pending[c..];
      var k, r := Step(h, Collect(c)), Packed(front);
      assert r.values == Values(front) by { PackedValues(front); }
      assert h.pending == front + rest;
      ValuesConcat(front, rest);
      AllValuesSnoc(h.collected, r);
      assert AllValues(k.collected) + Values(k.pending) == AllValues(h.collected) + (Values(front) + Values(rest));
      var n := |h.successes| - |h.pending|;
      assert h.successes[n..][c..] == h.successes[n + c..];
      CollectedStamped(h, k, front);
      forall j | 0 <= j < |h.collected| ensures Stamped(k, j) {
        StampedMonotone(h, k, j);
      }
    }
  }

  lemma PackedValues(front: seq<Average>)
    ensures Packed(front).values == Values(front)
  {
  }

  lemma {:induction false} ResponsesConserve(es: seq<Event>)
    ensures Conserved(After(START, es))
    decreases |es|
  {
    hide Conserved, Step;
    if es == [] {
      StartConserved();
    } else {
      ResponsesConserve(es[..|es| - 1]);
      match es[|es| - 1]
      case Cycle(samples) => CycleConserves(After(START, es[..|es| - 1]), samples);
      case Collect(c) => CollectConserves(After(START, es[..|es| - 1]), c);
    }
  }

  lemma StartConserved()
    ensures Conserved(START)
  {
  }

  function Averages(cycles: seq<seq<Sample>>): (a: seq<Average>)
    ensures |a| == |cycles|
  {
    seq(|cycles|, k requires 0 <= k < |cycles| => Averaged(cycles[k]))
  }

  function Cycles(cycles: seq<seq<Sample>>): (es: seq<Event>)
    ensures |es| == |cycles|
  {
    seq(|cycles|, k requires 0 <= k < |cycles| => Cycle(cycles[k]))
  }

  /** Left alone, the endpoint keeps the first 255 averages and refuses every later one. */
  lemma {:induction false} UncollectedFills(cycles: seq<seq<Sample>>)
    ensures var h, n := After(START, Cycles(cycles)), if |cycles| < 255 then |cycles| else 255;
            h.pending == Averages(cycles)[..n] && h.collected == []
    decreases |cycles|
  {
    hide Averaged;
    if cycles != [] {
      var init := cycles[..|cycles| - 1];
      UncollectedFills(init);
      assert Cycles(cycles)[..|init|] == Cycles(init);
      assert Averages(cycles)[..|init|] == Averages(init);
      assert forall n :: 0 <= n <= |init| ==> Averages(cycles)[..n] == Averages(init)[..n];
    }
  }

  // ---- Collecting whenever a response is ready, at a constant combine count.

  function Drained(h: History, c: byte): History
    requires c > 0
    decreases |h.pending|
  {
    if |h.pending| < c then h else Drained(Step(h, Collect(c)), c)
  }

  function Eager(cycles: seq<seq<Sample>>, c: byte): History
    requires c > 0
    decreases |cycles|
  {
    if cycles == [] then START
    else Drained(Step(Eager(cycles[..|cycles| - 1], c), Cycle(cycles[|cycles| - 1])), c)
  }

  /** Response i is made of the i-th batch of `c` averages. */
  ghost predicate Batch(h: History, c: byte, i: nat)
    requires i < |h.collected|
  {
    Times(i, c) + c <= |h.successes| && h.collected[i] == Packed(h.successes[Times(i, c)..Times(i, c) + c])
  }

  ghost predicate Batched(h: History, c: byte) {
    && |h.pending| < c
    && Times(|h.collected|, c) + |h.pending| == |h.successes|
    && h.pending == h.successes[Times(|h.collected|, c)..]
    && (forall i :: 0 <= i < |h.collected| ==> Batch(h, c, i))
  }

  lemma BatchMonotone(h: History, k: History, c: byte, i: nat)
    requires i < |h.collected| && Batch(h, c, i)
    requires h.collected <= k.collected && h.successes <= k.successes
    ensures Batch(k, c, i)
  {
    hide Times, Packed;
    assert k.successes[Times(i, c)..Times(i, c) + c] == h.successes[Times(i, c)..Times(i, c) + c];
  }

  /** The batch that a cycle completes. */
  lemma BatchCompletes(h: History, a: Average, c: byte)
    requires c > 0 && Batched(h, c) && |h.pending| + 1 == c
    ensures Batched(History([], h.collected + [Packed(h.pending + [a])], h.successes + [a]), c)
  {
    hide Times, Packed, Batch;
    var k := History([], h.collected + [Packed(h.pending + [a])], h.successes + [a]);
    var at := Times(|h.collected|, c);
    TimesSucc(c, |h.collected|);
    assert k.successes[at..at + c] == h.successes[at..] + [a];
    BatchAt(k, c, |h.collected|);
    forall i | 0 <= i < |h.collected| ensures Batch(k, c, i) {
      BatchMonotone(h, k, c, i);
    }
  }

  lemma BatchGrows(h: History, a: Average, c: byte)
    requires c > 0 && Batched(h, c) && |h.pending| + 1 < c
    ensures Batched(History(h.pending + [a], h.collected, h.successes + [a]), c)
  {
    hide Times, Packed, Batch;
    var k := History(h.pending + [a], h.collected, h.successes + [a]);
    assert k.successes[Times(|h.collected|, c)..] == h.successes[Times(|h.collected|, c)..] + [a];
    forall i | 0 <= i < |h.collected| ensures Batch(k, c, i) {
      BatchMonotone(h, k, c, i);
    }
  }

  lemma CycleBatches(h: History, samples: seq<Sample>, c: byte)
    requires c > 0 && Batched(h, c)
    ensures var k := Drained(Step(h, Cycle(samples)), c);
            Batched(k, c) && k.successes == h.successes + [Averaged(samples)]
  {
    hide Times, Packed, Averaged, Batch;
    var a := Averaged(samples);
    var g := Step(h, Cycle(samples));
    if |g.pending| == c {
      BatchCompletes(h, a, c);
      assert g.pending[..c] == h.pending + [a] && g.pending[c..] == [];
    } else {
      BatchGrows(h, a, c);
    }
  }

  lemma BatchAt(k: History, c: byte, i: nat)
    requires i < |k.collected| && Times(i, c) + c <= |k.successes|
    requires k.collected[i] == Packed(k.successes[Times(i, c)..Times(i, c) + c])
    ensures Batch(k, c, i)
  {
  }

  lemma {:induction false} EagerBatches(cycles: seq<seq<Sample>>, c: byte)
    requires c > 0
    ensures Batched(Eager(cycles, c), c) && Eager(cycles, c).successes == Averages(cycles)
    decreases |cycles|
  {
    hide Averaged, Drained, Step, Batch, Packed;
    if cycles == [] {
      TimesSucc(c, 0);
    } else {
      var init, last := cycles[..|cycles| - 1], cycles[|cycles| - 1];
      EagerBatches(init, c);
      CycleBatches(Eager(init, c), last, c);
      assert Averages(cycles) == Averages(init) + [Averaged(last)];
    }
  }

  lemma FloorIs(s: nat, n: nat, k: nat)
    requires n > 0 && Times(k, n) <= s < Times(k, n) + n
    ensures k == s / n
  {
    hide Times;
    var q := Quotient(s, n);
    TimesSucc(n, k);
    if k < q {
      TimesMono(k + 1, q, n);
    }
    if q < k {
      TimesMono(q + 1, k, n);
    }
  }

  /** Nothing is ever refused, and after any number of cycles exactly floor(cycles / c)
      responses are out, the i-th of them carrying the i-th batch of c averages. */
  lemma EagerCollection(cycles: seq<seq<Sample>>, c: byte)
    requires c > 0
    ensures var h := Eager(cycles, c);
            && |h.collected| == |cycles| / c
            && h.successes == Averages(cycles)
            && (forall i :: 0 <= i < |h.collected| ==> Batch(h, c, i))
  {
    hide Times, Eager, Averages, Batch;
    EagerBatches(cycles, c);
    FloorIs(|cycles|, c, |Eager(cycles, c).collected|);
  }
}
