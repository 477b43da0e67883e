/** The per-pin debounce filter (include/rcp/gpio.hpp, debounce_sample). */
module Debounce {
  import opened Bytes
  import opened Wrappers

  datatype Filter = Filter(settled: Option<bool>, candidate: Option<bool>, count: byte)

  const FRESH := Filter(None, None, 0)

  function Counted(f: Filter, raw: bool): Filter {
    if f.candidate != Some(raw) then f.(candidate := Some(raw), count := 1)
    else if f.count < 0xFF then f.(count := f.count + 1)
    else f
  }

  function Sampled(f: Filter, raw: bool, n: byte): Filter {
    if n == 0 then f.(candidate := None, settled := Some(raw))
    else
      var g := Counted(f, raw);
      if g.count >= n then g.(settled := g.candidate) else g
  }

  class DebounceState {
    var settled: Option<bool>
    var candidate: Option<bool>
    var count: byte

    ghost function Abs(): Filter
      reads this
    {
      Filter(settled, candidate, count)
    }

    constructor ()
      ensures Abs() == FRESH
    {
      settled, candidate, count := None, None, 0;
    }

    /** `changed` reports a real change of an output that had settled before. */
    method Sample(raw: bool, n: byte) returns (value: bool, changed: bool)
      modifies this
      ensures Abs() == Sampled(old(Abs()), raw, n)
      ensures value == (settled == Some(true))
      ensures changed <==> old(settled).Some? && settled != old(settled)
    {
      if n == 0 {
        candidate := None;
        changed := settled.Some? && settled.value != raw;
        settled := Some(raw);
        return raw, changed;
      }
      if candidate != Some(raw) {
        candidate := Some(raw);
        count := 1;
      } else if count < 0xFF {
        count := count + 1;
      }
      changed := false;
      if count >= n && settled != candidate {
        changed := settled.Some?;
        settled := candidate;
      }
      value := settled.Some? && settled.value;
    }
  }

  // ---- What the filter computes, over any samples at a fixed setting.

  function After(raw: seq<bool>, n: byte): Filter
    decreases |raw|
  {
    if raw == [] then FRESH else Sampled(After(raw[..|raw| - 1], n), raw[|raw| - 1], n)
  }

  /** `n` samples in a row, ending just before `end`, all read `v`. */
  ghost predicate Window(raw: seq<bool>, n: nat, end: nat, v: bool) {
    n <= end <= |raw| && forall k :: end - n <= k < end ==> raw[k] == v
  }

  /** The most recent value that `n` samples in a row agreed on. */
  ghost function LastAgreed(raw: seq<bool>, n: nat): Option<bool>
    decreases |raw|
  {
    if raw == [] then None
    else if Window(raw, n, |raw|, raw[|raw| - 1]) then Some(raw[|raw| - 1])
    else LastAgreed(raw[..|raw| - 1], n)
  }

  /** The length of the run of equal samples at the end. */
  function Run(raw: seq<bool>): nat
    decreases |raw|
  {
    if raw == [] then 0
    else if |raw| > 1 && raw[|raw| - 2] == raw[|raw| - 1] then Run(raw[..|raw| - 1]) + 1
    else 1
  }

  lemma {:induction false} RunIsWindow(raw: seq<bool>, n: nat)
    requires raw != [] && n > 0
    ensures Window(raw, n, |raw|, raw[|raw| - 1]) <==> n <= Run(raw)
    decreases |raw|
  {
    var init, v := raw[..|raw| - 1], raw[|raw| - 1];
    if |raw| > 1 && raw[|raw| - 2] == v && n > 1 {
      RunIsWindow(init, n - 1);
      if Window(init, n - 1, |init|, v) {
        assert forall k :: |raw| - n <= k < |raw| - 1 ==> raw[k] == init[k];
        assert Window(raw, n, |raw|, v);
      }
      if Window(raw, n, |raw|, v) {
        assert forall k :: |init| - (n - 1) <= k < |init| ==> init[k] == raw[k];
        assert Window(init, n - 1, |init|, v);
      }
    } else if n > 1 && |raw| > 1 {
      assert raw[|raw| - 2] != v;
    }
  }

  lemma {:induction false} CountIsRun(raw: seq<bool>, n: byte)
    requires n > 0
    ensures raw == [] ==> After(raw, n).candidate == None
    ensures raw != [] ==> After(raw, n).candidate == Some(raw[|raw| - 1])
    ensures raw != [] ==> After(raw, n).count == if Run(raw) < 0xFF then Run(raw) else 0xFF
    decreases |raw|
  {
    if raw != [] {
      var init := raw[..|raw| - 1];
      CountIsRun(init, n);
      if init != [] {
        assert init[|init| - 1] == raw[|raw| - 2];
      }
    }
  }

  lemma ZeroPassesThrough(raw: seq<bool>)
    requires raw != []
    ensures After(raw, 0).settled == Some(raw[|raw| - 1]) == LastAgreed(raw, 1)
  {
    assert Window(raw, 1, |raw|, raw[|raw| - 1]);
  }

  /** The settled output is always the value the last full window agreed on, and there is
      none before the first: shorter glitches never reach it, whatever the counter's
      saturation. A setting of zero is a window of one sample. */
  lemma {:induction false} SettledIsLastAgreed(raw: seq<bool>, n: byte)
    ensures After(raw, n).settled == LastAgreed(raw, if n == 0 then 1 else n)
    decreases |raw|
  {
    hide Window, Run;
    if raw != [] {
      if n == 0 {
        ZeroPassesThrough(raw);
      } else {
        SettledIsLastAgreed(raw[..|raw| - 1], n);
        CountIsRun(raw, n);
        RunIsWindow(raw, n);
      }
    }
  }

  // ---- When the setting changes.

  /** `k` samples of one value at one setting. */
  function Fed(f: Filter, v: bool, n: byte, k: nat): Filter {
    if k == 0 then f else Sampled(Fed(f, v, n, k - 1), v, n)
  }

  /** A sample at setting zero passes straight through and forgets the run in progress, so
      that from any history the next value needs a full window of its own. */
  lemma {:induction false} ZeroForgets(f: Filter, raw: bool, v: bool, n: byte, k: nat)
    requires n > 0
    ensures var g := Fed(Sampled(f, raw, 0), v, n, k);
            && g.settled == Some(if k >= n then v else raw)
            && (k > 0 ==> g.candidate == Some(v) && g.count as int == if k < 0xFF then k else 0xFF)
  {
    if k > 0 {
      ZeroForgets(f, raw, v, n, k - 1);
    }
  }
}
