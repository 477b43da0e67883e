/** GPIO writes and the edges they raise (include/rcp/gpio.hpp, with the saturating
    arithmetic and trigger registry of include/rcp/endpoint.hpp). A pin mask is its 32 bits,
    pin 0 first. */
module Gpio {
  import opened Bytes

  const MAX_PINS: nat := 32

  type Mask = b: seq<bool> | |b| == MAX_PINS witness seq(MAX_PINS, _ => false)

  const NONE_SET: Mask := seq(MAX_PINS, _ => false)

  datatype Semantics = Replace | Or | And | Xor | Reserved | Add | Subtract | Reconfigure

  datatype Outcome = Done | ReservedSemantics | NonCombinable

  // ---- Saturating arithmetic on 32-bit words.

  function SaturatingAdd(a: u32, b: u32): (r: u32)
    ensures r as int == if a + b < TWO32 then a + b else TWO32 - 1
  {
    var sum := (a + b) % TWO32;
    if sum < a then TWO32 - 1 else sum
  }

  /** The least word that, added back, covers `a`. */
  function SaturatingSubtract(a: u32, b: u32): (r: u32)
    ensures r as int + b as int >= a && (r > 0 ==> r as int + b as int == a)
  {
    if b > a then 0 else a - b
  }

  function Word(m: Mask): u32 {
    ValueBound(m);
    Pow2Values();
    ValueOf(m)
  }

  function MaskOf(v: u32): Mask { BitsOf(v, MAX_PINS) }

  lemma MaskOfWord(v: u32)
    ensures Word(MaskOf(v)) == v
  {
    Pow2Values();
    ValueOfBits(v, MAX_PINS);
  }

  function Zip(f: (bool, bool) -> bool, a: Mask, b: Mask): Mask {
    seq(MAX_PINS, k requires 0 <= k < MAX_PINS => f(a[k], b[k]))
  }

  /** The combinator shared with the PWM outputs. */
  function Combined(op: Semantics, current: Mask, operand: Mask): (Outcome, Mask) {
    match op
    case Replace => (Done, operand)
    case Or => (Done, Zip((x, y) => x || y, current, operand))
    case And => (Done, Zip((x, y) => x && y, current, operand))
    case Xor => (Done, Zip((x, y) => x != y, current, operand))
    case Add => (Done, MaskOf(SaturatingAdd(Word(current), Word(operand))))
    case Subtract => (Done, MaskOf(SaturatingSubtract(Word(current), Word(operand))))
    case Reserved => (ReservedSemantics, current)
    case Reconfigure => (NonCombinable, current)
  }

  function Clamped(v: int): u32 { if v < 0 then 0 else if v < TWO32 then v else TWO32 - 1 }

  /** The shared combinator as numbers: Replace, Add and Subtract give the operand, and the
      clamped sum and difference of the current value and it; Or, And and Xor go pin by pin;
      the two remaining semantics are refused and keep the current value. */
  lemma CombinedMeaning(current: Mask, operand: Mask)
    ensures Word(Combined(Replace, current, operand).1) == Word(operand)
    ensures Word(Combined(Add, current, operand).1) == Clamped(Word(current) + Word(operand))
    ensures Word(Combined(Subtract, current, operand).1) == Clamped(Word(current) as int - Word(operand))
    ensures forall k :: 0 <= k < MAX_PINS ==>
      && Combined(Or, current, operand).1[k] == (current[k] || operand[k])
      && Combined(And, current, operand).1[k] == (current[k] && operand[k])
      && Combined(Xor, current, operand).1[k] == (current[k] != operand[k])
    ensures Combined(Reserved, current, operand) == (ReservedSemantics, current)
        && Combined(Reconfigure, current, operand) == (NonCombinable, current)
    ensures forall op :: Combined(op, current, operand).0 == Done <==> op != Reserved && op != Reconfigure
  {
    hide Word, MaskOf;
    MaskOfWord(SaturatingAdd(Word(current), Word(operand)));
    MaskOfWord(SaturatingSubtract(Word(current), Word(operand)));
  }

  datatype Pins = Pins(values: Mask, directions: Mask)

  /** What a write drives the pins to, were they all outputs. Subtraction takes the current
      value from the operand. */
  function Driven(op: Semantics, current: Mask, operand: Mask): (Outcome, Mask) {
    if op == Subtract then (Done, MaskOf(SaturatingSubtract(Word(operand), Word(current))))
    else Combined(op, current, operand)
  }

  function Masked(driven: Mask, p: Pins): Mask {
    seq(MAX_PINS, k requires 0 <= k < MAX_PINS => if p.directions[k] then driven[k] else p.values[k])
  }

  function Written(op: Semantics, p: Pins, operand: Mask): (Outcome, Pins) {
    if op == Reconfigure then (Done, p.(directions := operand))
    else
      var (o, driven) := Driven(op, p.values, operand);
      if o != Done then (o, p) else (Done, p.(values := Masked(driven, p)))
  }

  // ---- Trigger signals.

  const CHANGE: nat := 0
  const RISING: nat := 1
  const FALLING: nat := 2

  function SignalId(pin: nat, edge: nat): nat { 4 * pin + edge }

  function Armed(enabled: set<nat>, id: nat): seq<nat> { if id in enabled then [id] else [] }

  /** The signals one pin raises. */
  function PinSignals(enabled: set<nat>, was: bool, now: bool, pin: nat): seq<nat> {
    if was == now then []
    else Armed(enabled, SignalId(pin, CHANGE)) + Armed(enabled, SignalId(pin, if now then RISING else FALLING))
  }

  /** The signals the first `n` pins raise, in pin order. */
  function Fired(enabled: set<nat>, was: Mask, now: Mask, n: nat): seq<nat>
    requires n <= MAX_PINS
  {
    if n == 0 then [] else Fired(enabled, was, now, n - 1) + PinSignals(enabled, was[n - 1], now[n - 1], n - 1)
  }

  class TriggerRegistry {
    var enabled: set<nat>
    var pending: seq<nat>

    constructor ()
      ensures enabled == {} && pending == []
    {
      enabled, pending := {}, [];
    }

    method Enable(id: nat)
      modifies this
      ensures enabled == old(enabled) + {id} && pending == old(pending)
    {
      enabled := enabled + {id};
    }

    method Disable(id: nat)
      modifies this
      ensures enabled == old(enabled) - {id} && pending == old(pending)
    {
      enabled := enabled - {id};
    }

    method Notify(id: nat) returns (queued: bool)
      modifies this
      ensures queued == (id in enabled) && enabled == old(enabled)
      ensures pending == old(pending) + Armed(enabled, id)
    {
      if id !in enabled {
        return false;
      }
      pending := pending + [id];
      queued := true;
    }

    method Drain() returns (out: seq<nat>)
      modifies this
      ensures out == old(pending) && pending == [] && enabled == old(enabled)
    {
      out := pending;
      pending := [];
    }
  }

  method EvaluateTriggers(triggers: TriggerRegistry, was: Mask, now: Mask) returns (fired: seq<nat>)
    modifies triggers
    ensures fired == Fired(old(triggers.enabled), was, now, MAX_PINS)
    ensures triggers.enabled == old(triggers.enabled) && triggers.pending == old(triggers.pending) + fired
  {
    fired := [];
    for pin := 0 to MAX_PINS
      invariant triggers.enabled == old(triggers.enabled)
      invariant fired == Fired(triggers.enabled, was, now, pin)
      invariant triggers.pending == old(triggers.pending) + fired
    {
      ghost var before := fired;
      if was[pin] != now[pin] {
        var queued := triggers.Notify(SignalId(pin, CHANGE));
        if queued {
          fired := fired + [SignalId(pin, CHANGE)];
        }
        var edge := if now[pin] then RISING else FALLING;
        queued := triggers.Notify(SignalId(pin, edge));
        if queued {
          fired := fired + [SignalId(pin, edge)];
        }
        Associate(before, Armed(triggers.enabled, SignalId(pin, CHANGE)), Armed(triggers.enabled, SignalId(pin, edge)));
        Associate(old(triggers.pending), before, PinSignals(triggers.enabled, was[pin], now[pin], pin));
        Associate(old(triggers.pending) + before, Armed(triggers.enabled, SignalId(pin, CHANGE)),
            Armed(triggers.enabled, SignalId(pin, edge)));
      }
    }
  }

  lemma Associate(a: seq<nat>, b: seq<nat>, c: seq<nat>)
    ensures (a + b) + c == a + (b + c) && a + [] == a
  {
  }

  datatype Endpoint = Endpoint(pins: Pins, enabled: set<nat>, pending: seq<nat>)

  class GpioEndpoint {
    var pins: Pins
    const triggers: TriggerRegistry

    ghost function Abs(): Endpoint
      reads this, triggers
    {
      Endpoint(pins, triggers.enabled, triggers.pending)
    }

    constructor ()
      ensures Abs() == FRESH && fresh(triggers)
    {
      pins := Pins(NONE_SET, NONE_SET);
      triggers := new TriggerRegistry();
    }

    method HandleWrite(op: Semantics, operand: Mask) returns (o: Outcome, value: Mask)
      modifies this, triggers
      ensures o == Written(op, old(pins), operand).0
      ensures Abs() == Handled(old(Abs()), op, operand)
      ensures o == Done ==> value == pins.values
      ensures o != Done ==> Abs() == old(Abs())
    {
      hide Driven;
      var before := pins.values;
      var (outcome, written) := Written(op, pins, operand);
      o, value := outcome, before;
      if o != Done {
        NothingFires(triggers.enabled, before, MAX_PINS);
        return;
      }
      pins := written;
      var _ := EvaluateTriggers(triggers, before, pins.values);
      value := pins.values;
    }
  }

  // ---- Runs.

  const FRESH := Endpoint(Pins(NONE_SET, NONE_SET), {}, [])

  function Handled(e: Endpoint, op: Semantics, operand: Mask): Endpoint {
    var after := Written(op, e.pins, operand).1;
    Endpoint(after, e.enabled, e.pending + Fired(e.enabled, e.pins.values, after.values, MAX_PINS))
  }

  datatype Event = Write(op: Semantics, operand: Mask) | Enable(id: nat) | Disable(id: nat) | Drain

  /** An endpoint together with everything drained from it so far. */
  datatype Watched = Watched(e: Endpoint, drained: seq<nat>)

  function Step(w: Watched, ev: Event): Watched {
    match ev
    case Write(op, operand) => w.(e := Handled(w.e, op, operand))
    case Enable(id) => w.(e := w.e.(enabled := w.e.enabled + {id}))
    case Disable(id) => w.(e := w.e.(enabled := w.e.enabled - {id}))
    case Drain => Watched(w.e.(pending := []), w.drained + w.e.pending)
  }

  function After(w: Watched, evs: seq<Event>, n: nat): Watched
    requires n <= |evs|
  {
    if n == 0 then w else Step(After(w, evs, n - 1), evs[n - 1])
  }

  function Delivered(w: Watched): seq<nat> { w.drained + w.e.pending }

  predicate IsEdge(id: nat, pin: nat) { id == SignalId(pin, RISING) || id == SignalId(pin, FALLING) }

  /** The edges of one pin among a list of signals. */
  function EdgesOf(s: seq<nat>, pin: nat): seq<nat>
    decreases |s|
  {
    if s == [] then []
    else EdgesOf(s[..|s| - 1], pin) + if IsEdge(s[|s| - 1], pin) then [s[|s| - 1]] else []
  }

  lemma {:induction false} EdgesOfConcat(a: seq<nat>, b: seq<nat>, pin: nat)
    ensures EdgesOf(a + b, pin) == EdgesOf(a, pin) + EdgesOf(b, pin)
    decreases |b|
  {
    hide IsEdge;
    if b == [] {
      assert a + b == a;
    } else {
      assert (a + b)[..|a + b| - 1] == a + b[..|b| - 1];
      EdgesOfConcat(a, b[..|b| - 1], pin);
    }
  }

  predicate BothArmed(enabled: set<nat>, pin: nat) {
    SignalId(pin, RISING) in enabled && SignalId(pin, FALLING) in enabled
  }

  function OwnEdge(was: bool, now: bool, pin: nat): seq<nat> {
    if was == now then [] else [SignalId(pin, if now then RISING else FALLING)]
  }

  lemma ArmedEdges(enabled: set<nat>, id: nat, pin: nat)
    ensures EdgesOf(Armed(enabled, id), pin) == if id in enabled && IsEdge(id, pin) then [id] else []
  {
    assert EdgesOf([], pin) == [];
    assert [id][..0] == [];
  }

  lemma PinEdges(enabled: set<nat>, was: bool, now: bool, q: nat, pin: nat)
    requires BothArmed(enabled, pin)
    ensures EdgesOf(PinSignals(enabled, was, now, q), pin) == if q == pin then OwnEdge(was, now, pin) else []
  {
    hide EdgesOf, Armed;
    if was == now {
      NoEdges(pin);
    } else {
      var c, e := SignalId(q, CHANGE), SignalId(q, if now then RISING else FALLING);
      EdgesOfConcat(Armed(enabled, c), Armed(enabled, e), pin);
      ArmedEdges(enabled, c, pin);
      ArmedEdges(enabled, e, pin);
    }
  }

  lemma NoEdges(pin: nat)
    ensures EdgesOf([], pin) == []
  {
  }

  lemma {:induction false} FiredEdges(enabled: set<nat>, was: Mask, now: Mask, n: nat, pin: nat)
    requires n <= MAX_PINS && pin < MAX_PINS && BothArmed(enabled, pin)
    ensures EdgesOf(Fired(enabled, was, now, n), pin) == if pin < n then OwnEdge(was[pin], now[pin], pin) else []
  {
    hide EdgesOf, PinSignals, BothArmed, OwnEdge;
    if n == 0 {
      NoEdges(pin);
    } else {
      FiredEdges(enabled, was, now, n - 1, pin);
      PinEdges(enabled, was[n - 1], now[n - 1], n - 1, pin);
      EdgesOfConcat(Fired(enabled, was, now, n - 1), PinSignals(enabled, was[n - 1], now[n - 1], n - 1), pin);
    }
  }

  lemma {:induction false} NothingFires(enabled: set<nat>, m: Mask, n: nat)
    requires n <= MAX_PINS
    ensures Fired(enabled, m, m, n) == []
  {
    if n > 0 {
      NothingFires(enabled, m, n - 1);
    }
  }

  /** An armed signal of a pin that flipped: its change, or the edge of its new value. */
  predicate Raises(enabled: set<nat>, was: Mask, now: Mask, id: nat) {
    && id in enabled && id / 4 < MAX_PINS && was[id / 4] != now[id / 4]
    && (id % 4 == 0 || (id % 4 == 1 && now[id / 4]) || (id % 4 == 2 && was[id / 4]))
  }

  ghost predicate Ascending(s: seq<nat>) {
    forall i, j :: 0 <= i < j < |s| ==> s[i] < s[j]
  }

  /** The signals numbered from `lo` to below `hi` that a change raises, and only those. */
  ghost predicate ExactlyRaised(s: seq<nat>, enabled: set<nat>, was: Mask, now: Mask, lo: nat, hi: nat) {
    forall id: nat :: id in s <==> lo <= id < hi && Raises(enabled, was, now, id)
  }

  /** The signals of one write are settled by the two values alone: an armed signal is
      raised exactly when its pin flipped and, for an edge, flipped its way; and a write
      raises them in ascending order, so each once, lower pins first and a pin's change
      before its edge. */
  lemma {:induction false} FiredExactly(enabled: set<nat>, was: Mask, now: Mask, n: nat)
    requires n <= MAX_PINS
    ensures Ascending(Fired(enabled, was, now, n))
    ensures ExactlyRaised(Fired(enabled, was, now, n), enabled, was, now, 0, 4 * n)
  {
    hide PinSignals, Ascending, ExactlyRaised;
    if n == 0 {
      NothingRaised(enabled, was, now);
    } else {
      FiredExactly(enabled, was, now, n - 1);
      PinExactly(enabled, was, now, n - 1);
      RaisedConcat(Fired(enabled, was, now, n - 1), PinSignals(enabled, was[n - 1], now[n - 1], n - 1),
          enabled, was, now, 4 * (n - 1), 4 * n);
    }
  }

  lemma NothingRaised(enabled: set<nat>, was: Mask, now: Mask)
    ensures Ascending([]) && ExactlyRaised([], enabled, was, now, 0, 0)
  {
  }

  lemma RaisedConcat(a: seq<nat>, b: seq<nat>, enabled: set<nat>, was: Mask, now: Mask, mid: nat, hi: nat)
    requires mid <= hi && Ascending(a) && Ascending(b)
    requires ExactlyRaised(a, enabled, was, now, 0, mid) && ExactlyRaised(b, enabled, was, now, mid, hi)
    ensures Ascending(a + b) && ExactlyRaised(a + b, enabled, was, now, 0, hi)
  {
    hide Raises;
    assert forall i :: 0 <= i < |a| ==> a[i] in a;
    assert forall i :: 0 <= i < |b| ==> b[i] in b;
    assert forall id: nat :: id in a + b <==> id in a || id in b;
  }

  lemma PinExactly(enabled: set<nat>, was: Mask, now: Mask, pin: nat)
    requires pin < MAX_PINS
    ensures Ascending(PinSignals(enabled, was[pin], now[pin], pin))
    ensures ExactlyRaised(PinSignals(enabled, was[pin], now[pin], pin), enabled, was, now, 4 * pin, 4 * (pin + 1))
  {
    var f := PinSignals(enabled, was[pin], now[pin], pin);
    forall id: nat
      ensures id in f <==> 4 * pin <= id < 4 * (pin + 1) && Raises(enabled, was, now, id)
    {
      if 4 * pin <= id < 4 * pin + 4 {
        PinOf(id, pin);
      }
    }
  }

  lemma PinOf(id: nat, pin: nat)
    requires 4 * pin <= id < 4 * pin + 4
    ensures id / 4 == pin && id % 4 == id - 4 * pin
  {
  }

  /** Event `k` armed the signal and nothing since has disarmed it. */
  ghost predicate ArmedAt(evs: seq<Event>, k: nat, n: nat, id: nat)
    requires n <= |evs|
  {
    k < n && evs[k] == Enable(id) && forall j :: k < j < n ==> evs[j] != Disable(id)
  }

  lemma ArmedLonger(evs: seq<Event>, m: nat, n: nat, id: nat)
    requires n == m + 1 <= |evs| && evs[m] != Enable(id) && evs[m] != Disable(id)
    ensures (exists k: nat :: ArmedAt(evs, k, n, id)) <==> (exists k: nat :: ArmedAt(evs, k, m, id))
  {
    if k: nat :| ArmedAt(evs, k, n, id) {
      assert ArmedAt(evs, k, m, id);
    }
    if k: nat :| ArmedAt(evs, k, m, id) {
      assert ArmedAt(evs, k, n, id);
    }
  }

  lemma StepArms(w: Watched, ev: Event, id: nat)
    ensures id in Step(w, ev).e.enabled <==> ev == Enable(id) || (id in w.e.enabled && ev != Disable(id))
  {
    hide Written, Fired;
  }

  /** After any run from the start a signal is armed exactly when some event armed it and none
      since has disarmed it; writes and draining have no say. */
  lemma {:induction false} ArmedIff(evs: seq<Event>, n: nat, id: nat)
    requires n <= |evs|
    ensures id in After(Watched(FRESH, []), evs, n).e.enabled <==> exists k: nat :: ArmedAt(evs, k, n, id)
    decreases n
  {
    hide Step;
    if n > 0 {
      ArmedIff(evs, n - 1, id);
      StepArms(After(Watched(FRESH, []), evs, n - 1), evs[n - 1], id);
      if evs[n - 1] == Enable(id) {
        assert ArmedAt(evs, n - 1, n, id);
      } else if evs[n - 1] == Disable(id) {
        assert forall k: nat :: !ArmedAt(evs, k, n, id);
      } else {
        ArmedLonger(evs, n - 1, n, id);
      }
    }
  }

  /** From the start: arm a pin's rising edge, make the pin an output, drive it high, and
      that edge is pending, alone. */
  lemma FirstEdge(pin: nat)
    requires pin < MAX_PINS
    ensures var evs := [Enable(4 * pin + 1), Write(Reconfigure, NONE_SET[pin := true]),
                        Write(Replace, NONE_SET[pin := true])];
            var w := After(Watched(FRESH, []), evs, 3);
            w.e.pending == [4 * pin + 1] && w.e.pins.values == NONE_SET[pin := true]
  {
    hide Fired, Raises;
    var m: Mask := NONE_SET[pin := true];
    var evs := [Enable(4 * pin + 1), Write(Reconfigure, m), Write(Replace, m)];
    var w0 := Watched(FRESH, []);
    var w1, w2 := After(w0, evs, 1), After(w0, evs, 2);
    assert w1 == Step(After(w0, evs, 0), evs[0]) == w0.(e := FRESH.(enabled := {4 * pin + 1}));
    assert w2 == Step(w1, evs[1]);
    OnlyReconfigureTurns(w1.e, Reconfigure, m);
    assert Written(Replace, w2.e.pins, m).1.values == m;
    OneSignal(pin);
  }

  lemma OneSignal(pin: nat)
    requires pin < MAX_PINS
    ensures Fired({4 * pin + 1}, NONE_SET, NONE_SET[pin := true], MAX_PINS) == [4 * pin + 1]
  {
    hide Fired;
    var f, m: Mask := Fired({4 * pin + 1}, NONE_SET, NONE_SET[pin := true], MAX_PINS), NONE_SET[pin := true];
    FiredExactly({4 * pin + 1}, NONE_SET, m, MAX_PINS);
    PinOf(4 * pin + 1, pin);
    assert m[pin] && Raises({4 * pin + 1}, NONE_SET, m, 4 * pin + 1);
    Singleton(f, 4 * pin + 1);
  }

  lemma Singleton(f: seq<nat>, id: nat)
    requires Ascending(f) && id in f && forall x: nat :: x in f ==> x == id
    ensures f == [id]
  {
    assert forall i :: 0 <= i < |f| ==> f[i] in f;
    if |f| > 1 {
      FirstTwo(f);
    }
  }

  lemma FirstTwo(f: seq<nat>)
    requires Ascending(f) && |f| > 1
    ensures f[0] < f[1]
  {
  }
  /** Rising first, then strictly alternating. */
  ghost predicate Alternating(s: seq<nat>, pin: nat) {
    forall i :: 0 <= i < |s| ==> s[i] == SignalId(pin, if i % 2 == 0 then RISING else FALLING)
  }

  ghost predicate ArmedThroughout(w: Watched, evs: seq<Event>, n: nat, pin: nat)
    requires n <= |evs|
  {
    forall k :: 0 <= k < n ==> BothArmed(After(w, evs, k).e.enabled, pin)
  }

  lemma AlternationExtends(s: seq<nat>, pin: nat, was: bool, now: bool)
    requires Alternating(s, pin) && was == (|s| % 2 == 1)
    ensures Alternating(s + OwnEdge(was, now, pin), pin) && now == (|s + OwnEdge(was, now, pin)| % 2 == 1)
  {
  }

  lemma StepEdges(w: Watched, ev: Event, pin: nat)
    requires pin < MAX_PINS && BothArmed(w.e.enabled, pin)
    ensures EdgesOf(Delivered(Step(w, ev)), pin)
         == EdgesOf(Delivered(w), pin) + OwnEdge(w.e.pins.values[pin], Step(w, ev).e.pins.values[pin], pin)
  {
    hide EdgesOf, Written, BothArmed, Fired;
    match ev
    case Write(op, operand) =>
      var after := Written(op, w.e.pins, operand).1;
      var fired := Fired(w.e.enabled, w.e.pins.values, after.values, MAX_PINS);
      FiredEdges(w.e.enabled, w.e.pins.values, after.values, MAX_PINS, pin);
      EdgesOfConcat(Delivered(w), fired, pin);
      assert Delivered(Step(w, ev)) == Delivered(w) + fired;
    case Drain =>
      assert Delivered(Step(w, ev)) == Delivered(w);
    case _ =>
  }

  /** While a pin's two edges stay armed, everything drained or pending for it alternates,
      Rising first, and an odd number of edges means the pin is set now -- over any writes
      of all eight semantics, other arming and any draining. */
  lemma {:induction false} EdgesAlternate(w: Watched, evs: seq<Event>, n: nat, pin: nat)
    requires w.e.pins.values == NONE_SET && Delivered(w) == [] && n <= |evs| && pin < MAX_PINS
    requires ArmedThroughout(w, evs, n, pin)
    ensures Alternating(EdgesOf(Delivered(After(w, evs, n)), pin), pin)
    ensures After(w, evs, n).e.pins.values[pin] == (|EdgesOf(Delivered(After(w, evs, n)), pin)| % 2 == 1)
  {
    hide EdgesOf, Step, Delivered, OwnEdge, BothArmed, Alternating;
    if n == 0 {
      NoEdges(pin);
      NoneAlternate(pin);
    } else {
      EdgesAlternate(w, evs, n - 1, pin);
      var before := After(w, evs, n - 1);
      StepEdges(before, evs[n - 1], pin);
      AlternationExtends(EdgesOf(Delivered(before), pin), pin, before.e.pins.values[pin],
          After(w, evs, n).e.pins.values[pin]);
    }
  }

  lemma NoneAlternate(pin: nat)
    ensures Alternating([], pin)
  {
  }

  lemma {:induction false} AlternatingCounts(s: seq<nat>, first: nat, second: nat)
    requires first != second && forall i :: 0 <= i < |s| ==> s[i] == if i % 2 == 0 then first else second
    ensures multiset(s)[first] == multiset(s)[second] + |s| % 2
    decreases |s|
  {
    if s != [] {
      var init, last := s[..|s| - 1], s[|s| - 1];
      AlternatingCounts(init, first, second);
      assert s == init + [last];
    }
  }

  /** So Rising edges outnumber Falling ones by exactly the pin's current bit. */
  lemma EdgesBalance(w: Watched, evs: seq<Event>, n: nat, pin: nat)
    requires w.e.pins.values == NONE_SET && Delivered(w) == [] && n <= |evs| && pin < MAX_PINS
    requires ArmedThroughout(w, evs, n, pin)
    ensures var edges := EdgesOf(Delivered(After(w, evs, n)), pin);
            multiset(edges)[SignalId(pin, RISING)]
                == multiset(edges)[SignalId(pin, FALLING)] + Bit(After(w, evs, n).e.pins.values[pin])
  {
    hide EdgesOf, After, Delivered, ArmedThroughout;
    EdgesAlternate(w, evs, n, pin);
    AlternatingCounts(EdgesOf(Delivered(After(w, evs, n)), pin), SignalId(pin, RISING), SignalId(pin, FALLING));
  }

  // ---- Inputs and outputs.

  lemma StepInput(w: Watched, ev: Event, pin: nat)
    requires pin < MAX_PINS && !w.e.pins.directions[pin]
    ensures Step(w, ev).e.pins.values[pin] == w.e.pins.values[pin]
  {
    hide Driven, Fired;
  }

  /** An input pin keeps its value over every stretch in which it stays an input. */
  lemma {:induction false} InputPinsKeep(w: Watched, evs: seq<Event>, i: nat, n: nat, pin: nat)
    requires i <= n <= |evs| && pin < MAX_PINS
    requires forall k :: i <= k < n ==> !After(w, evs, k).e.pins.directions[pin]
    ensures After(w, evs, n).e.pins.values[pin] == After(w, evs, i).e.pins.values[pin]
    decreases n
  {
    hide Step;
    if i < n {
      InputPinsKeep(w, evs, i, n - 1, pin);
      StepInput(After(w, evs, n - 1), evs[n - 1], pin);
    }
  }

  /** The bits of `m` on some pins, the others clear. */
  function Select(m: Mask, pins: Mask): Mask { Zip((x, y) => x && y, m, pins) }

  /** The number the output pins spell in `m`. */
  function OutputPart(p: Pins, m: Mask): u32 { Word(Select(m, p.directions)) }

  /** Whatever a write would drive, the outputs take it and the inputs keep theirs. */
  lemma OutputsFollow(driven: Mask, p: Pins)
    ensures OutputPart(p, Masked(driven, p)) == OutputPart(p, driven)
    ensures forall k :: 0 <= k < MAX_PINS && !p.directions[k] ==> Masked(driven, p)[k] == p.values[k]
  {
    assert Select(Masked(driven, p), p.directions) == Select(driven, p.directions);
  }

  /** Whatever the directions, Add and Subtract compute on all 32 pins, inputs included:
      the output pins show their part of the clamped sum of, and of the clamped difference
      of operand and, the number all pins spell. On an all-output port that is the whole. */
  lemma ArithmeticWrites(p: Pins, operand: Mask)
    ensures OutputPart(p, Written(Add, p, operand).1.values)
        == OutputPart(p, MaskOf(Clamped(Word(p.values) + Word(operand))))
    ensures OutputPart(p, Written(Subtract, p, operand).1.values)
        == OutputPart(p, MaskOf(Clamped(Word(operand) - Word(p.values))))
    ensures (forall k :: 0 <= k < MAX_PINS ==> p.directions[k]) ==>
      && Word(Written(Add, p, operand).1.values) == Clamped(Word(p.values) + Word(operand))
      && Word(Written(Subtract, p, operand).1.values) == Clamped(Word(operand) - Word(p.values))
  {
    hide Word, MaskOf, Select;
    var sum, diff := SaturatingAdd(Word(p.values), Word(operand)), SaturatingSubtract(Word(operand), Word(p.values));
    assert sum == Clamped(Word(p.values) + Word(operand)) && diff == Clamped(Word(operand) - Word(p.values));
    OutputsFollow(MaskOf(sum), p);
    OutputsFollow(MaskOf(diff), p);
    if forall k :: 0 <= k < MAX_PINS ==> p.directions[k] {
      MaskOfWord(sum);
      MaskOfWord(diff);
      assert Masked(MaskOf(sum), p) == MaskOf(sum);
      assert Masked(MaskOf(diff), p) == MaskOf(diff);
    }
  }

  /** So the inputs matter: an input reading 1 carries into the output above it. */
  lemma InputCarriesIntoOutput()
    ensures var p := Pins(NONE_SET[0 := true], NONE_SET[1 := true]);
            !p.values[1] && Written(Add, p, NONE_SET[0 := true]).1.values[1]
  {
    var p, one := Pins(NONE_SET[0 := true], NONE_SET[1 := true]), NONE_SET[0 := true];
    ZeroWord(MAX_PINS - 1);
    assert one[1..] == seq(MAX_PINS - 1, _ => false);
    assert Word(one) == 1;
    assert BitsOf(2, 32)[1] == BitsOf(1, 31)[0];
  }

  lemma {:induction false} ZeroWord(n: nat)
    ensures ValueOf(seq(n, _ => false)) == 0
  {
    if n > 0 {
      ZeroWord(n - 1);
      assert seq(n, _ => false)[1..] == seq(n - 1, _ => false);
    }
  }

  lemma {:induction false} BitwiseSums(a: seq<bool>, b: seq<bool>, either: seq<bool>, both: seq<bool>,
                                       differ: seq<bool>)
    requires |a| == |b| == |either| == |both| == |differ|
    requires forall k :: 0 <= k < |a| ==>
      either[k] == (a[k] || b[k]) && both[k] == (a[k] && b[k]) && differ[k] == (a[k] != b[k])
    ensures ValueOf(either) + ValueOf(both) == ValueOf(a) + ValueOf(b)
    ensures ValueOf(either) == ValueOf(both) + ValueOf(differ)
    decreases |a|
  {
    if a != [] {
      BitwiseSums(a[1..], b[1..], either[1..], both[1..], differ[1..]);
    }
  }

  /** The other writes, on the output pins of any port, as numbers: Replace gives the
      operand, Or and And split the sum of current value and operand between them, and Xor
      is what Or has more than And. */
  lemma BitwiseWrites(p: Pins, operand: Mask)
    ensures OutputPart(p, Written(Replace, p, operand).1.values) == OutputPart(p, operand)
    ensures OutputPart(p, Written(Or, p, operand).1.values) as int
        + OutputPart(p, Written(And, p, operand).1.values) as int
         == OutputPart(p, p.values) as int + OutputPart(p, operand) as int
    ensures OutputPart(p, Written(Or, p, operand).1.values) as int
         == OutputPart(p, Written(And, p, operand).1.values) as int
            + OutputPart(p, Written(Xor, p, operand).1.values) as int
  {
    var d := p.directions;
    OutputsFollow(operand, p);
    BitwiseSums(Select(p.values, d), Select(operand, d), Select(Written(Or, p, operand).1.values, d),
                Select(Written(And, p, operand).1.values, d), Select(Written(Xor, p, operand).1.values, d));
  }

  /** Reconfiguring decides who answers the next write: the pins it named take the written
      bits, all others keep what they had, whatever the directions were before. */
  lemma ReconfigureThenReplace(p: Pins, m: Mask, v: Mask)
    ensures var (o, q) := Written(Reconfigure, p, m);
            var (o', r) := Written(Replace, q, v);
            && o == Done && o' == Done && r.directions == m
            && forall k :: 0 <= k < MAX_PINS ==> r.values[k] == if m[k] then v[k] else p.values[k]
  {
  }

  /** Reconfiguring itself moves no pin and raises no signal, and nothing else turns a pin
      around: directions are always the ones last configured. */
  lemma OnlyReconfigureTurns(e: Endpoint, op: Semantics, m: Mask)
    ensures Handled(e, op, m).pins.directions == if op == Reconfigure then m else e.pins.directions
    ensures op == Reconfigure
        ==> Handled(e, op, m).pins.values == e.pins.values && Handled(e, op, m).pending == e.pending
  {
    hide Driven;
    NothingFires(e.enabled, e.pins.values, MAX_PINS);
  }

  /** Toggling the same mask twice undoes itself, whatever the directions. */
  lemma XorUndoes(p: Pins, m: Mask)
    ensures Written(Xor, Written(Xor, p, m).1, m) == (Done, p)
  {
    assert Written(Xor, Written(Xor, p, m).1, m).1.values == p.values;
  }

  /** A refused write is exactly a reserved one, and changes nothing. */
  lemma RefusedIff(op: Semantics, p: Pins, m: Mask)
    ensures Written(op, p, m).0 != Done <==> op == Reserved
    ensures Written(op, p, m).0 != Done ==> Written(op, p, m).1 == p
  {
    hide Word, MaskOf;
  }
}
