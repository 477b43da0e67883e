/** Configuration writes to an EP_func register block. Every endpoint renders its
    configuration into octets, patches the addressed span, and parses the octets back;
    this module says what that must amount to: a write to a plain array of octets. */
module Registers {
  import opened Bytes

  /** How one octet of a block answers a write. Three of the octets the endpoints share
      keep only some of their bits. */
  datatype Access = ReadOnly | All | EnableBits | OptionBits | FlagBits

  type Layout = seq<Access>

  function BitAt(b: byte, weight: nat): bool
    requires weight > 0
  {
    b / weight % 2 == 1
  }

  /** What the octet holds after `b` is written to it. */
  function Stored(a: Access, b: byte): byte {
    match a
    case EnableBits => Bit(BitAt(b, 1)) + 16 * Bit(BitAt(b, 16))
    case OptionBits => Bit(BitAt(b, 1)) + 8 * Bit(BitAt(b, 8)) + 128 * Bit(BitAt(b, 128))
    case FlagBits => 8 * Bit(BitAt(b, 8)) + 16 * Bit(BitAt(b, 16))
    case _ => b
  }

  datatype Outcome = Applied | ShortPayload | OutOfRange

  const ADDR_LEN: nat := 2

  /** payload: a 16-bit relative start address, then the octets to write from there on. */
  function Judge(payload: seq<byte>, blockLen: nat): Outcome {
    if |payload| <= ADDR_LEN then ShortPayload
    else if GetU16(payload[..2]) + (|payload| - ADDR_LEN) > blockLen then OutOfRange
    else Applied
  }

  /** The plain array: each writable octet of the span takes the kept bits of its datum. */
  function WriteSpan(layout: Layout, block: seq<byte>, start: nat, data: seq<byte>): (r: seq<byte>)
    requires |layout| == |block|
    ensures |r| == |block|
  {
    seq(|block|, k requires 0 <= k < |block| =>
      if start <= k < start + |data| && !layout[k].ReadOnly? then Stored(layout[k], data[k - start]) else block[k])
  }

  function PlainApply(layout: Layout, block: seq<byte>, payload: seq<byte>): (r: seq<byte>)
    requires |layout| == |block|
    ensures |r| == |block|
  {
    if Judge(payload, |block|) != Applied then block
    else WriteSpan(layout, block, GetU16(payload[..2]), payload[2..])
  }

  /** Exactly the writes of at least one octet that end within the block are applied; and of
      those, each octet outside the span and each read-only one keeps what it held. */
  lemma AppliedIff(layout: Layout, block: seq<byte>, payload: seq<byte>)
    requires |layout| == |block|
    ensures Judge(payload, |block|) == ShortPayload <==> |payload| < 3
    ensures |payload| >= 3 ==>
      var start := payload[0] as int * 0x100 + payload[1] as int;
      var after := PlainApply(layout, block, payload);
      && (Judge(payload, |block|) == Applied <==> start + |payload| - 2 <= |block|)
      && (Judge(payload, |block|) != Applied ==> after == block)
      && (forall k :: 0 <= k < |block| && (k < start || k >= start + |payload| - 2 || layout[k].ReadOnly?) ==>
            after[k] == block[k])
      && (Judge(payload, |block|) == Applied ==>
            forall k :: start <= k < start + |payload| - 2 && layout[k] == All ==>
              after[k] == payload[k - start + 2])
  {
    hide GetU16;
    if |payload| >= 3 {
      TwoOctets(payload[..2]);
    }
  }

  function PlainRun(layout: Layout, block: seq<byte>, payloads: seq<seq<byte>>): (r: seq<byte>)
    requires |layout| == |block|
    ensures |r| == |block|
    decreases |payloads|
  {
    if payloads == [] then block else PlainRun(layout, PlainApply(layout, block, payloads[0]), payloads[1..])
  }

  /** The source's patch: raw octets into the span, read-only ones left alone. */
  function Patched(layout: Layout, block: seq<byte>, start: nat, data: seq<byte>): (r: seq<byte>)
    requires |layout| == |block|
    ensures |r| == |block|
  {
    seq(|block|, k requires 0 <= k < |block| =>
      if start <= k < start + |data| && !layout[k].ReadOnly? then data[k - start] else block[k])
  }

  method PatchBlock(layout: Layout, block: seq<byte>, start: nat, data: seq<byte>) returns (r: seq<byte>)
    requires |layout| == |block| && start + |data| <= |block|
    ensures r == Patched(layout, block, start, data)
  {
    var a := new byte[|block|](k requires 0 <= k < |block| => block[k]);
    for i := 0 to |data|
      invariant forall k :: 0 <= k < |block| ==>
        a[k] == if start <= k < start + i && !layout[k].ReadOnly? then data[k - start] else block[k]
    {
      var addr := start + i;
      if !layout[addr].ReadOnly? {
        a[addr] := data[i];
      }
    }
    r := a[..];
  }

  /** A rendered block already holds nothing but kept bits. */
  ghost predicate Settled(layout: Layout, block: seq<byte>) {
    |layout| == |block| && forall k :: 0 <= k < |block| ==> Stored(layout[k], block[k]) == block[k]
  }

  /** The result of parsing `block` and rendering again, octet by octet. */
  ghost predicate Reparsed(layout: Layout, before: seq<byte>, block: seq<byte>, after: seq<byte>) {
    |layout| == |before| == |block| == |after|
    && forall k :: 0 <= k < |block| ==>
         after[k] == if layout[k].ReadOnly? then before[k] else Stored(layout[k], block[k])
  }

  /** Patch, parse and render together write the plain array. */
  lemma PatchReparseIsWrite(layout: Layout, before: seq<byte>, start: nat, data: seq<byte>, after: seq<byte>)
    requires Settled(layout, before)
    requires Reparsed(layout, before, Patched(layout, before, start, data), after)
    ensures after == WriteSpan(layout, before, start, data)
  {
    hide Stored;
  }

  // ---- Endpoints: a configuration, how it is rendered and how a block is parsed into it.

  ghost predicate SoundAt<C>(layout: Layout, render: C -> seq<byte>, parse: (C, seq<byte>) --> C, c: C, b: seq<byte>) {
    && Settled(layout, render(c))
    && (|b| == |layout| ==> parse.requires(c, b) && Reparsed(layout, render(c), b, render(parse(c, b))))
  }

  /** Rendering gives settled blocks, and parsing any block and rendering again keeps of
      each octet what the layout says. */
  ghost predicate Sound<C(!new)>(layout: Layout, render: C -> seq<byte>, parse: (C, seq<byte>) --> C) {
    forall c, b :: SoundAt(layout, render, parse, c, b)
  }

  function Reconfigured<C(!new)>(layout: Layout, render: C -> seq<byte>, parse: (C, seq<byte>) --> C,
                                 c: C, payload: seq<byte>): C
    requires Sound(layout, render, parse)
  {
    assert SoundAt(layout, render, parse, c, []);
    if Judge(payload, |layout|) != Applied then c
    else
      var block := Patched(layout, render(c), GetU16(payload[..2]), payload[2..]);
      assert SoundAt(layout, render, parse, c, block);
      parse(c, block)
  }

  /** Of every sound endpoint, the block rendered after a write is the plain array after
      it, and a refused write changes nothing at all. */
  lemma ReconfigIsPlainWrite<C(!new)>(layout: Layout, render: C -> seq<byte>, parse: (C, seq<byte>) --> C,
                                      c: C, payload: seq<byte>)
    requires Sound(layout, render, parse)
    ensures |render(c)| == |layout|
    ensures render(Reconfigured(layout, render, parse, c, payload)) == PlainApply(layout, render(c), payload)
    ensures Judge(payload, |layout|) != Applied ==> Reconfigured(layout, render, parse, c, payload) == c
  {
    hide Settled, Reparsed, Sound;
    SoundHere(layout, render, parse, c, []);
    BlockLength(layout, render(c));
    if Judge(payload, |layout|) == Applied {
      var start, data := GetU16(payload[..2]), payload[2..];
      var block := Patched(layout, render(c), start, data);
      SoundHere(layout, render, parse, c, block);
      PatchReparseIsWrite(layout, render(c), start, data, render(parse(c, block)));
    }
  }

  lemma SoundHere<C(!new)>(layout: Layout, render: C -> seq<byte>, parse: (C, seq<byte>) --> C, c: C, b: seq<byte>)
    requires Sound(layout, render, parse)
    ensures SoundAt(layout, render, parse, c, b)
  {
  }

  lemma BlockLength(layout: Layout, block: seq<byte>)
    requires Settled(layout, block)
    ensures |block| == |layout|
  {
  }

  function RunReconfigured<C(!new)>(layout: Layout, render: C -> seq<byte>, parse: (C, seq<byte>) --> C,
                                    c: C, payloads: seq<seq<byte>>): C
    requires Sound(layout, render, parse)
    decreases |payloads|
  {
    if payloads == [] then c
    else RunReconfigured(layout, render, parse, Reconfigured(layout, render, parse, c, payloads[0]), payloads[1..])
  }

  /** And over any sequence of configuration writes, accepted or not. */
  lemma {:induction false} RunIsPlain<C(!new)>(layout: Layout, render: C -> seq<byte>, parse: (C, seq<byte>) --> C,
                                               c: C, payloads: seq<seq<byte>>)
    requires Sound(layout, render, parse)
    ensures |render(c)| == |layout|
    ensures render(RunReconfigured(layout, render, parse, c, payloads)) == PlainRun(layout, render(c), payloads)
    decreases |payloads|
  {
    hide Sound, SoundAt, Reconfigured, PlainApply;
    ReconfigIsPlainWrite(layout, render, parse, c, []);
    if payloads != [] {
      ReconfigIsPlainWrite(layout, render, parse, c, payloads[0]);
      RunIsPlain(layout, render, parse, Reconfigured(layout, render, parse, c, payloads[0]), payloads[1..]);
    }
  }

  /** The configuration an endpoint holds and updates in place. */
  class RegisterFile<C(!new)> {
    const layout: Layout
    const render: C -> seq<byte>
    const parse: (C, seq<byte>) --> C
    var cfg: C

    constructor (layout: Layout, render: C -> seq<byte>, parse: (C, seq<byte>) --> C, cfg: C)
      ensures this.layout == layout && this.render == render && this.parse == parse && this.cfg == cfg
    {
      this.layout, this.render, this.parse, this.cfg := layout, render, parse, cfg;
    }

    method ApplyReconfig(payload: seq<byte>) returns (outcome: Outcome)
      requires Sound(layout, render, parse)
      modifies this
      ensures outcome == Judge(payload, |layout|)
      ensures cfg == Reconfigured(layout, render, parse, old(cfg), payload)
      ensures |render(old(cfg))| == |layout| && render(cfg) == PlainApply(layout, render(old(cfg)), payload)
      ensures outcome != Applied ==> cfg == old(cfg)
    {
      hide Patched, PlainApply, Settled, Reparsed, Sound;
      ReconfigIsPlainWrite(layout, render, parse, cfg, payload);
      if |payload| <= ADDR_LEN {
        return ShortPayload;
      }
      var start := GetU16(payload[..2]);
      var data := payload[2..];
      if start + |data| > |layout| {
        return OutOfRange;
      }
      var block := PatchBlock(layout, render(cfg), start, data);
      SoundHere(layout, render, parse, cfg, block);
      cfg := parse(cfg, block);
      outcome := Applied;
    }
  }

  /** Two writes commute exactly when no writable octet they share keeps different bits
      of the two data -- in particular when their spans are disjoint. */
  lemma WritesCommuteIff(layout: Layout, block: seq<byte>, s: nat, d: seq<byte>, t: nat, e: seq<byte>)
    requires |layout| == |block|
    ensures WriteSpan(layout, WriteSpan(layout, block, s, d), t, e)
        == WriteSpan(layout, WriteSpan(layout, block, t, e), s, d)
       <==> forall k :: 0 <= k < |block| && s <= k < s + |d| && t <= k < t + |e| && !layout[k].ReadOnly?
                        ==> Stored(layout[k], d[k - s]) == Stored(layout[k], e[k - t])
    ensures s + |d| <= t || t + |e| <= s
        ==> WriteSpan(layout, WriteSpan(layout, block, s, d), t, e)
            == WriteSpan(layout, WriteSpan(layout, block, t, e), s, d)
  {
    hide Stored;
    var x := WriteSpan(layout, WriteSpan(layout, block, s, d), t, e);
    var y := WriteSpan(layout, WriteSpan(layout, block, t, e), s, d);
    if x == y {
      forall k | 0 <= k < |block| && s <= k < s + |d| && t <= k < t + |e| && !layout[k].ReadOnly?
        ensures Stored(layout[k], d[k - s]) == Stored(layout[k], e[k - t])
      {
        assert x[k] == y[k];
      }
    }
  }

  // ---- Blocks are proved piece by piece.

  lemma SettledConcat(l1: Layout, b1: seq<byte>, l2: Layout, b2: seq<byte>)
    requires Settled(l1, b1) && Settled(l2, b2)
    ensures Settled(l1 + l2, b1 + b2)
  {
    hide Stored;
  }

  lemma ReparsedConcat(n: nat, l1: Layout, before1: seq<byte>, after1: seq<byte>,
                       l2: Layout, before2: seq<byte>, after2: seq<byte>, block: seq<byte>)
    requires |l1| == n <= |block|
    requires Reparsed(l1, before1, block[..n], after1) && Reparsed(l2, before2, block[n..], after2)
    ensures Reparsed(l1 + l2, before1 + before2, block, after1 + after2)
  {
    hide Stored;
    assert |block[n..]| == |l2|;
  }

  function Run(n: nat, a: Access): (l: Layout)
    ensures |l| == n
  {
    seq(n, _ => a)
  }

  lemma PlainPiece(n: nat, before: seq<byte>, block: seq<byte>)
    requires |before| == |block| == n
    ensures Settled(Run(n, All), before) && Reparsed(Run(n, All), before, block, block)
  {
  }

  lemma FixedPiece(n: nat, before: seq<byte>, block: seq<byte>)
    requires |before| == |block| == n
    ensures Settled(Run(n, ReadOnly), before) && Reparsed(Run(n, ReadOnly), before, block, before)
  {
  }

  // ---- The eight octets every block starts with.

  datatype Common = Common(enable: bool, clearReqStorage: bool, reqCrcEnable: bool, responseTsEnable: bool,
                           suppressResponse: bool, epStatus: u16)

  const HEAD_LEN: nat := 8
  const HEAD: Layout := [ReadOnly, ReadOnly, EnableBits, OptionBits, ReadOnly, ReadOnly, All, All]

  function EnableOctet(c: Common): byte { Bit(c.enable) + 16 * Bit(c.clearReqStorage) }

  function OptionsOctet(c: Common): byte {
    Bit(c.reqCrcEnable) + 8 * Bit(c.responseTsEnable) + 128 * Bit(c.suppressResponse)
  }

  function RenderHead(epLen: byte, second: byte, baseClk: u16, c: Common): (b: seq<byte>)
    ensures |b| == HEAD_LEN
  {
    [epLen, second, EnableOctet(c), OptionsOctet(c)] + PutU16(baseClk) + PutU16(c.epStatus)
  }

  function ParseHead(b: seq<byte>): Common
    requires |b| == HEAD_LEN
  {
    Common(BitAt(b[2], 1), BitAt(b[2], 16), BitAt(b[3], 1), BitAt(b[3], 8), BitAt(b[3], 128), GetU16(b[6..8]))
  }

  lemma NoClock()
    ensures PutU16(0) == [0, 0]
  {
    assert PutBE(0, 2) == PutBE(0, 1) + [0] && PutBE(0, 1) == PutBE(0, 0) + [0];
  }

  lemma EnableSettled(c: Common)
    ensures Stored(EnableBits, EnableOctet(c)) == EnableOctet(c)
  {
    var v := EnableOctet(c);
    assert v / 16 == Bit(c.clearReqStorage);
    assert v / 1 % 2 == Bit(c.enable);
  }

  lemma OptionsSettled(c: Common)
    ensures Stored(OptionBits, OptionsOctet(c)) == OptionsOctet(c)
  {
    var v := OptionsOctet(c);
    assert v / 128 == Bit(c.suppressResponse);
    assert v / 8 == Bit(c.responseTsEnable) + 16 * Bit(c.suppressResponse);
    assert v / 1 % 2 == Bit(c.reqCrcEnable);
  }

  lemma HeadSettled(epLen: byte, second: byte, baseClk: u16, c: Common)
    ensures Settled(HEAD, RenderHead(epLen, second, baseClk, c))
  {
    hide EnableOctet, OptionsOctet, BitAt, PutU16;
    EnableSettled(c);
    OptionsSettled(c);
  }

  lemma HeadReparsed(epLen: byte, second: byte, baseClk: u16, c: Common, b: seq<byte>)
    requires |b| == HEAD_LEN
    ensures Reparsed(HEAD, RenderHead(epLen, second, baseClk, c), b, RenderHead(epLen, second, baseClk, ParseHead(b)))
  {
    hide BitAt, PutU16, GetU16;
    GetPutU16(b[6..8]);
    var after := RenderHead(epLen, second, baseClk, ParseHead(b));
    assert after[6..8] == b[6..8];
    assert after[6] == after[6..8][0] && after[7] == after[6..8][1];
  }

  lemma FlagsReadBack(c: Common)
    ensures BitAt(EnableOctet(c), 1) == c.enable && BitAt(EnableOctet(c), 16) == c.clearReqStorage
    ensures BitAt(OptionsOctet(c), 1) == c.reqCrcEnable && BitAt(OptionsOctet(c), 8) == c.responseTsEnable
    ensures BitAt(OptionsOctet(c), 128) == c.suppressResponse
  {
    var v, w := EnableOctet(c), OptionsOctet(c);
    assert v / 16 == Bit(c.clearReqStorage) && v / 1 % 2 == Bit(c.enable);
    assert w / 128 == Bit(c.suppressResponse) && w / 1 % 2 == Bit(c.reqCrcEnable);
    assert w / 8 == Bit(c.responseTsEnable) + 16 * Bit(c.suppressResponse);
  }

  lemma HeadReadBack(epLen: byte, second: byte, baseClk: u16, c: Common)
    ensures ParseHead(RenderHead(epLen, second, baseClk, c)) == c
  {
    hide BitAt, EnableOctet, OptionsOctet, PutU16, GetU16;
    FlagsReadBack(c);
    PutGetU16(c.epStatus);
    assert RenderHead(epLen, second, baseClk, c)[6..8] == PutU16(c.epStatus);
  }
}
