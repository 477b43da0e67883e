/** The register block of the CAN endpoint (include/rcp/can.hpp). */
module CanRegisters {
  import opened Bytes
  import opened Registers

  const BLOCK_LEN: nat := 0x24
  const UNDECOMPOSED_LEN: nat := 0x14

  /** `rest` stands for the fields that have no register: the clock divider and the XL filters. */
  datatype Config<Rest> = Config(common: Common, status: u32, fifoStatus: u32, rest: Rest)

  const LAYOUT: Layout := HEAD + (Run(UNDECOMPOSED_LEN, ReadOnly) + Run(8, All))

  function Zeros(n: nat): (b: seq<byte>)
    ensures |b| == n
  {
    seq(n, _ => 0)
  }

  function Render<R>(c: Config<R>): (b: seq<byte>)
    ensures |b| == BLOCK_LEN
  {
    RenderHead(BLOCK_LEN, 0, 0, c.common) + (Zeros(UNDECOMPOSED_LEN) + (PutU32(c.status) + PutU32(c.fifoStatus)))
  }

  function Parse<R>(c: Config<R>, b: seq<byte>): (r: Config<R>)
    requires |b| == BLOCK_LEN
  {
    c.(common := ParseHead(b[..8]), status := GetU32(b[0x1C..0x20]), fifoStatus := GetU32(b[0x20..0x24]))
  }

  lemma Rendered<R>(c: Config<R>)
    ensures Settled(LAYOUT, Render(c))
  {
    hide RenderHead, PutU32, Settled;
    HeadSettled(BLOCK_LEN, 0, 0, c.common);
    var tail := PutU32(c.status) + PutU32(c.fifoStatus);
    PlainPiece(8, tail, tail);
    FixedPiece(UNDECOMPOSED_LEN, Zeros(UNDECOMPOSED_LEN), Zeros(UNDECOMPOSED_LEN));
    SettledConcat(Run(UNDECOMPOSED_LEN, ReadOnly), Zeros(UNDECOMPOSED_LEN), Run(8, All), tail);
    SettledConcat(HEAD, RenderHead(BLOCK_LEN, 0, 0, c.common), Run(UNDECOMPOSED_LEN, ReadOnly) + Run(8, All),
        Zeros(UNDECOMPOSED_LEN) + tail);
  }

  lemma Reread<R>(c: Config<R>, b: seq<byte>)
    requires |b| == BLOCK_LEN
    ensures Reparsed(LAYOUT, Render(c), b, Render(Parse(c, b)))
  {
    hide RenderHead, ParseHead, PutU32, GetU32, Reparsed, Settled;
    HeadReparsed(BLOCK_LEN, 0, 0, c.common, b[..8]);
    var before, tail := PutU32(c.status) + PutU32(c.fifoStatus), b[0x1C..];
    GetPutU32(b[0x1C..0x20]);
    GetPutU32(b[0x20..0x24]);
    assert tail == b[0x1C..0x20] + b[0x20..0x24];
    PlainPiece(8, before, tail);
    FixedPiece(UNDECOMPOSED_LEN, Zeros(UNDECOMPOSED_LEN), b[8..0x1C]);
    var inner := b[8..];
    assert inner[..UNDECOMPOSED_LEN] == b[8..0x1C] && inner[UNDECOMPOSED_LEN..] == tail;
    ReparsedConcat(UNDECOMPOSED_LEN, Run(UNDECOMPOSED_LEN, ReadOnly), Zeros(UNDECOMPOSED_LEN), Zeros(UNDECOMPOSED_LEN),
                   Run(8, All), before, tail, inner);
    ReparsedConcat(8, HEAD, RenderHead(BLOCK_LEN, 0, 0, c.common), RenderHead(BLOCK_LEN, 0, 0, ParseHead(b[..8])),
                   Run(UNDECOMPOSED_LEN, ReadOnly) + Run(8, All), Zeros(UNDECOMPOSED_LEN) + before,
                   Zeros(UNDECOMPOSED_LEN) + tail, b);
  }

  lemma ReadBack<R>(c: Config<R>)
    ensures Parse(c, Render(c)) == c
  {
    hide RenderHead, ParseHead, PutU32, GetU32;
    var b := Render(c);
    HeadReadBack(BLOCK_LEN, 0, 0, c.common);
    PutGetU32(c.status);
    PutGetU32(c.fifoStatus);
    assert b[..8] == RenderHead(BLOCK_LEN, 0, 0, c.common);
    assert b[0x1C..0x20] == PutU32(c.status);
    assert b[0x20..0x24] == PutU32(c.fifoStatus);
  }

  lemma BlockIsSound<R(!new)>()
    ensures Sound<Config<R>>(LAYOUT, Render, Parse)
  {
    hide Settled, Reparsed, Render, Parse;
    forall c: Config<R>, b: seq<byte> ensures SoundAt(LAYOUT, Render, Parse, c, b) {
      Rendered(c);
      if |b| == BLOCK_LEN {
        Reread(c, b);
      }
    }
  }

  /** The CAN block by address, and which of its octets a write can reach. */
  lemma RegisterMap<R>(c: Config<R>)
    ensures var b := Render(c);
            && |b| == 36 && b[0] == 36 && b[1] == 0
               && b[2] as int == Bit(c.common.enable) + 16 * Bit(c.common.clearReqStorage)
            && b[3] as int == Bit(c.common.reqCrcEnable) + 8 * Bit(c.common.responseTsEnable)
                              + 128 * Bit(c.common.suppressResponse)
            && b[4..6] == [0, 0] && b[6..8] == PutU16(c.common.epStatus)
            && (forall k :: 8 <= k < 28 ==> b[k] == 0)
            && b[28..32] == PutU32(c.status) && b[32..36] == PutU32(c.fifoStatus)
    ensures forall k :: 0 <= k < 36 ==> (LAYOUT[k] == ReadOnly <==> k in {0, 1, 4, 5} || 8 <= k < 28)
  {
    hide PutU32, PutU16;
    NoClock();
  }

  function Apply<R(!new)>(c: Config<R>, payload: seq<byte>): Config<R> {
    BlockIsSound<R>();
    Reconfigured(LAYOUT, Render, Parse, c, payload)
  }

  /** What has no register never changes. */
  lemma UnregisteredKept<R(!new)>(c: Config<R>, payload: seq<byte>)
    ensures Apply(c, payload).rest == c.rest
  {
    hide RenderHead, ParseHead, Patched, GetU16, GetU32;
    BlockIsSound<R>();
  }
}

/** The register block of the GPIO endpoint (include/rcp/gpio.hpp). */
module GpioRegisters {
  import opened Bytes
  import opened Registers

  const BLOCK_LEN: nat := 0x29
  const MAX_PINS: nat := 32

  type Debounce = b: seq<byte> | |b| == MAX_PINS witness seq(MAX_PINS, _ => 0)

  /** `rest` stands for the pin properties and triggers, which have no register. */
  datatype Config<Rest> = Config(common: Common, clkDivider: byte, debounce: Debounce, rest: Rest)

  const LAYOUT: Layout := HEAD + Run(33, All)

  function Render<R>(c: Config<R>): (b: seq<byte>)
    ensures |b| == BLOCK_LEN
  {
    RenderHead(BLOCK_LEN, MAX_PINS, 0, c.common) + ([c.clkDivider] + c.debounce)
  }

  function Parse<R>(c: Config<R>, b: seq<byte>): (r: Config<R>)
    requires |b| == BLOCK_LEN
  {
    c.(common := ParseHead(b[..8]), clkDivider := b[8], debounce := b[9..])
  }

  lemma Rendered<R>(c: Config<R>)
    ensures Settled(LAYOUT, Render(c))
  {
    hide RenderHead, Settled;
    HeadSettled(BLOCK_LEN, MAX_PINS, 0, c.common);
    var tail := [c.clkDivider] + c.debounce;
    PlainPiece(33, tail, tail);
    SettledConcat(HEAD, RenderHead(BLOCK_LEN, MAX_PINS, 0, c.common), Run(33, All), tail);
  }

  lemma Reread<R>(c: Config<R>, b: seq<byte>)
    requires |b| == BLOCK_LEN
    ensures Reparsed(LAYOUT, Render(c), b, Render(Parse(c, b)))
  {
    hide RenderHead, ParseHead, Reparsed, Settled;
    HeadReparsed(BLOCK_LEN, MAX_PINS, 0, c.common, b[..8]);
    var before := [c.clkDivider] + c.debounce;
    assert b[8..] == [b[8]] + b[9..];
    PlainPiece(33, before, b[8..]);
    ReparsedConcat(8, HEAD, RenderHead(BLOCK_LEN, MAX_PINS, 0, c.common),
        RenderHead(BLOCK_LEN, MAX_PINS, 0, ParseHead(b[..8])),
                   Run(33, All), before, b[8..], b);
  }

  lemma ReadBack<R>(c: Config<R>)
    ensures Parse(c, Render(c)) == c
  {
    hide RenderHead, ParseHead;
    var b := Render(c);
    HeadReadBack(BLOCK_LEN, MAX_PINS, 0, c.common);
    assert b[..8] == RenderHead(BLOCK_LEN, MAX_PINS, 0, c.common);
    assert b[9..] == c.debounce;
  }

  lemma BlockIsSound<R(!new)>()
    ensures Sound<Config<R>>(LAYOUT, Render, Parse)
  {
    hide Settled, Reparsed, Render, Parse;
    forall c: Config<R>, b: seq<byte> ensures SoundAt(LAYOUT, Render, Parse, c, b) {
      Rendered(c);
      if |b| == BLOCK_LEN {
        Reread(c, b);
      }
    }
  }

  /** The GPIO block by address: 32 pins, a clock divider and one debounce octet per pin. */
  lemma RegisterMap<R>(c: Config<R>)
    ensures var b := Render(c);
            && |b| == 41 && b[0] == 41 && b[1] == 32
            && b[2] as int == Bit(c.common.enable) + 16 * Bit(c.common.clearReqStorage)
            && b[3] as int == Bit(c.common.reqCrcEnable) + 8 * Bit(c.common.responseTsEnable)
                              + 128 * Bit(c.common.suppressResponse)
            && b[4..6] == [0, 0] && b[6..8] == PutU16(c.common.epStatus)
            && b[8] == c.clkDivider && b[9..41] == c.debounce
    ensures forall k :: 0 <= k < 41 ==> (LAYOUT[k] == ReadOnly <==> k in {0, 1, 4, 5})
  {
    hide PutU16;
    NoClock();
  }

  function Apply<R(!new)>(c: Config<R>, payload: seq<byte>): Config<R> {
    BlockIsSound<R>();
    Reconfigured(LAYOUT, Render, Parse, c, payload)
  }

  /** What has no register never changes. */
  lemma UnregisteredKept<R(!new)>(c: Config<R>, payload: seq<byte>)
    ensures Apply(c, payload).rest == c.rest
  {
    hide RenderHead, ParseHead, Patched, GetU16, GetU32;
    BlockIsSound<R>();
  }

  /** A one-octet write to pin i's debounce register sets that pin's debounce and nothing
      else. */
  lemma DebounceWrite<R(!new)>(c: Config<R>, pin: nat, v: byte)
    requires pin < MAX_PINS
    ensures Apply(c, PutU16(9 + pin) + [v]) == c.(debounce := c.debounce[pin := v])
  {
    BlockIsSound<R>();
    hide PutU16, GetU16, RenderHead, ParseHead;
    var payload := PutU16(9 + pin) + [v];
    PutGetU16(9 + pin);
    assert payload[..2] == PutU16(9 + pin) && payload[2..] == [v];
    var changed := c.(debounce := c.debounce[pin := v]);
    assert Patched(LAYOUT, Render(c), 9 + pin, [v]) == Render(changed);
    ReadBack(changed);
  }
}

/** The register block of the ADC endpoint (include/rcp/adc.hpp). Two fields are 16 bits
    wide in the configuration and one octet on the register block. */
module AdcRegisters {
  import opened Bytes
  import opened Registers

  const BLOCK_LEN: nat := 0x12

  datatype Config = Config(common: Common, baseClkDivider: byte, sampleInterval: byte, avgIntervals: u16,
      samplesPerAvg: u16,
                                 combine: byte, resolution: byte, triggerMin: u16, triggerMax: u16)

  const LAYOUT: Layout := HEAD + Run(10, All)

  function LowOctet(v: u16): byte { v % 0x100 }

  function Octets(c: Config): (b: seq<byte>)
    ensures |b| == 6
  {
    [c.baseClkDivider, c.sampleInterval, LowOctet(c.avgIntervals), LowOctet(c.samplesPerAvg), c.combine, c.resolution]
  }

  function Tail(c: Config): (b: seq<byte>)
    ensures |b| == 10
  {
    Octets(c) + (PutU16(c.triggerMin) + PutU16(c.triggerMax))
  }

  function Render(c: Config): (b: seq<byte>)
    ensures |b| == BLOCK_LEN
  {
    RenderHead(BLOCK_LEN, 0, 0, c.common) + Tail(c)
  }

  function Parse(c: Config, b: seq<byte>): (r: Config)
    requires |b| == BLOCK_LEN
  {
    Config(ParseHead(b[..8]), b[8], b[9], b[10], b[11], b[12], b[13], GetU16(b[14..16]), GetU16(b[16..18]))
  }

  lemma Rendered(c: Config)
    ensures Settled(LAYOUT, Render(c))
  {
    hide RenderHead, Settled, Tail;
    HeadSettled(BLOCK_LEN, 0, 0, c.common);
    PlainPiece(10, Tail(c), Tail(c));
    SettledConcat(HEAD, RenderHead(BLOCK_LEN, 0, 0, c.common), Run(10, All), Tail(c));
  }

  lemma TailReread(c: Config, b: seq<byte>)
    requires |b| == BLOCK_LEN
    ensures Tail(Parse(c, b)) == b[8..]
  {
    hide PutU16, GetU16, ParseHead;
    GetPutU16(b[14..16]);
    GetPutU16(b[16..18]);
    assert Octets(Parse(c, b)) == b[8..14];
    assert b[8..] == b[8..14] + (b[14..16] + b[16..18]);
  }

  lemma Reread(c: Config, b: seq<byte>)
    requires |b| == BLOCK_LEN
    ensures Reparsed(LAYOUT, Render(c), b, Render(Parse(c, b)))
  {
    hide RenderHead, ParseHead, Reparsed, Settled, Tail;
    HeadReparsed(BLOCK_LEN, 0, 0, c.common, b[..8]);
    TailReread(c, b);
    PlainPiece(10, Tail(c), b[8..]);
    ReparsedConcat(8, HEAD, RenderHead(BLOCK_LEN, 0, 0, c.common), RenderHead(BLOCK_LEN, 0, 0, ParseHead(b[..8])),
                   Run(10, All), Tail(c), b[8..], b);
  }

  /** Reading a block back restores the configuration exactly when neither wide field has
      outgrown its octet. */
  lemma ReadBackIff(c: Config)
    ensures Parse(c, Render(c)) == c <==> c.avgIntervals < 0x100 && c.samplesPerAvg < 0x100
  {
    hide RenderHead, ParseHead, PutU16, GetU16;
    var b := Render(c);
    HeadReadBack(BLOCK_LEN, 0, 0, c.common);
    PutGetU16(c.triggerMin);
    PutGetU16(c.triggerMax);
    assert b[..8] == RenderHead(BLOCK_LEN, 0, 0, c.common);
    assert b[8..14] == Octets(c);
    assert forall i :: 0 <= i < 6 ==> b[8 + i] == Octets(c)[i];
    assert b[14..16] == PutU16(c.triggerMin);
    assert b[16..18] == PutU16(c.triggerMax);
  }

  lemma BlockIsSound()
    ensures Sound<Config>(LAYOUT, Render, Parse)
  {
    hide Settled, Reparsed, Render, Parse;
    forall c: Config, b: seq<byte> ensures SoundAt(LAYOUT, Render, Parse, c, b) {
      Rendered(c);
      if |b| == BLOCK_LEN {
        Reread(c, b);
      }
    }
  }

  /** The ADC block by address. */
  lemma RegisterMap(c: Config)
    ensures var b := Render(c);
            && |b| == 18 && b[0] == 18 && b[1] == 0
            && b[2] as int == Bit(c.common.enable) + 16 * Bit(c.common.clearReqStorage)
            && b[3] as int == Bit(c.common.reqCrcEnable) + 8 * Bit(c.common.responseTsEnable)
                              + 128 * Bit(c.common.suppressResponse)
            && b[4..6] == [0, 0] && b[6..8] == PutU16(c.common.epStatus)
            && b[8] == c.baseClkDivider && b[9] == c.sampleInterval && b[10] == c.avgIntervals % 0x100
            && b[11] == c.samplesPerAvg % 0x100 && b[12] == c.combine && b[13] == c.resolution
            && b[14..16] == PutU16(c.triggerMin) && b[16..18] == PutU16(c.triggerMax)
    ensures forall k :: 0 <= k < 18 ==> (LAYOUT[k] == ReadOnly <==> k in {0, 1, 4, 5})
  {
    hide PutU16;
    NoClock();
  }

  function Apply(c: Config, payload: seq<byte>): Config {
    BlockIsSound();
    Reconfigured(LAYOUT, Render, Parse, c, payload)
  }

  /** What an accepted write makes of the octet at `addr`: the datum that covers it, or
      what the block held. */
  lemma OctetAfter(c: Config, payload: seq<byte>, addr: nat)
    requires Judge(payload, BLOCK_LEN) == Applied && 8 <= addr < BLOCK_LEN
    ensures var start, data := GetU16(payload[..2]), payload[2..];
            Render(Apply(c, payload))[addr]
                == if start <= addr < start + |data| then data[addr - start] else Render(c)[addr]
  {
    hide Render, Parse, Settled, Reparsed, Sound, GetU16;
    BlockIsSound();
    ReconfigIsPlainWrite(LAYOUT, Render, Parse, c, payload);
  }

  lemma WideOctets(c: Config)
    ensures Render(c)[10] == c.avgIntervals % 0x100 && Render(c)[11] == c.samplesPerAvg % 0x100
  {
    hide RenderHead, PutU16;
    assert Render(c)[10] == Tail(c)[2] == Octets(c)[2] && Render(c)[11] == Tail(c)[3] == Octets(c)[3];
  }

  lemma WideFit(c: Config, payload: seq<byte>)
    requires Judge(payload, BLOCK_LEN) == Applied
    ensures Apply(c, payload).avgIntervals < 0x100 && Apply(c, payload).samplesPerAvg < 0x100
  {
    hide ParseHead, RenderHead, Patched, GetU16;
  }

  /** Every accepted write, wherever it lands, sets each of the two wide fields to the
      datum that covers its register or else to its own low octet; so a write elsewhere
      leaves the field alone exactly when it fits an octet. */
  lemma WideFieldsTruncated(c: Config, payload: seq<byte>)
    requires Judge(payload, BLOCK_LEN) == Applied
    ensures var start, data, d := GetU16(payload[..2]), payload[2..], Apply(c, payload);
            && d.avgIntervals as int
               == (if start <= 10 < start + |data| then data[10 - start] else c.avgIntervals % 0x100)
            && d.samplesPerAvg as int
               == (if start <= 11 < start + |data| then data[11 - start] else c.samplesPerAvg % 0x100)
            && (!(start <= 10 < start + |data|) ==> (d.avgIntervals == c.avgIntervals <==> c.avgIntervals < 0x100))
            && (!(start <= 11 < start + |data|) ==> (d.samplesPerAvg == c.samplesPerAvg <==> c.samplesPerAvg < 0x100))
  {
    hide Render, Parse, Apply, GetU16;
    var d := Apply(c, payload);
    WideFit(c, payload);
    WideOctets(c);
    WideOctets(d);
    OctetAfter(c, payload, 10);
    OctetAfter(c, payload, 11);
  }

  /** A concrete loss: a write to the sample interval clears an interval count of 256. */
  lemma IntervalsLost(c: Config)
    requires c.avgIntervals == 0x100
    ensures Judge([0, 9, 5], BLOCK_LEN) == Applied && Apply(c, [0, 9, 5]).avgIntervals == 0
  {
    hide Apply;
    assert [0, 9, 5][..2] == [0, 9];
    assert PutU16(9) == [0, 9] by { assert PutBE(9, 2) == PutBE(0, 1) + [9] && PutBE(0, 1) == PutBE(0, 0) + [0]; }
    PutGetU16(9);
    WideFieldsTruncated(c, [0, 9, 5]);
  }
}

/** The register block of the ISELED endpoint (include/rcp/iseled.hpp). */
module IseledRegisters {
  import opened Bytes
  import opened Registers

  const BLOCK_LEN: nat := 0x0E

  /** `rest` stands for the bit clock divider, the CRC switch and the trigger, which have
      no register. */
  datatype Config<Rest> = Config(common: Common, baseClk: u16, wireClkDivider: byte, collectResp: bool, useRcvClk: bool,
                                 nrLeds: u16, rcvTimeout: u16, rest: Rest)

  const CLOCKS: Layout := [All, FlagBits]
  const LAYOUT: Layout := HEAD + (CLOCKS + Run(4, All))

  function Clocks<R>(c: Config<R>): (b: seq<byte>)
    ensures |b| == 2
  {
    [c.wireClkDivider, 8 * Bit(c.collectResp) + 16 * Bit(c.useRcvClk)]
  }

  function Counts<R>(c: Config<R>): (b: seq<byte>)
    ensures |b| == 4
  {
    PutU16(c.nrLeds) + PutU16(c.rcvTimeout)
  }

  function Render<R>(c: Config<R>): (b: seq<byte>)
    ensures |b| == BLOCK_LEN
  {
    RenderHead(BLOCK_LEN, 0, c.baseClk, c.common) + (Clocks(c) + Counts(c))
  }

  /** The base clock is not read back. */
  function Parse<R>(c: Config<R>, b: seq<byte>): (r: Config<R>)
    requires |b| == BLOCK_LEN
  {
    Config(ParseHead(b[..8]), c.baseClk, b[8], BitAt(b[9], 8), BitAt(b[9], 16), GetU16(b[10..12]), GetU16(b[12..14]),
        c.rest)
  }

  lemma ClocksSettled<R>(c: Config<R>)
    ensures Settled(CLOCKS, Clocks(c))
  {
    var v := 8 * Bit(c.collectResp) + 16 * Bit(c.useRcvClk);
    assert v / 16 == Bit(c.useRcvClk);
    assert v / 8 == Bit(c.collectResp) + 2 * Bit(c.useRcvClk);
  }

  lemma Rendered<R>(c: Config<R>)
    ensures Settled(LAYOUT, Render(c))
  {
    hide RenderHead, Settled, Clocks, Counts;
    HeadSettled(BLOCK_LEN, 0, c.baseClk, c.common);
    ClocksSettled(c);
    PlainPiece(4, Counts(c), Counts(c));
    SettledConcat(CLOCKS, Clocks(c), Run(4, All), Counts(c));
    SettledConcat(HEAD, RenderHead(BLOCK_LEN, 0, c.baseClk, c.common), CLOCKS + Run(4, All), Clocks(c) + Counts(c));
  }

  lemma ClocksReparsed<R>(c: Config<R>, b: seq<byte>)
    requires |b| == BLOCK_LEN
    ensures Reparsed(CLOCKS, Clocks(c), b[8..10], Clocks(Parse(c, b)))
  {
    hide BitAt, GetU16, ParseHead;
  }

  lemma CountsReread<R>(c: Config<R>, b: seq<byte>)
    requires |b| == BLOCK_LEN
    ensures Counts(Parse(c, b)) == b[10..]
  {
    hide PutU16, GetU16, ParseHead, BitAt;
    GetPutU16(b[10..12]);
    GetPutU16(b[12..14]);
    assert b[10..] == b[10..12] + b[12..14];
  }

  lemma Reread<R>(c: Config<R>, b: seq<byte>)
    requires |b| == BLOCK_LEN
    ensures Reparsed(LAYOUT, Render(c), b, Render(Parse(c, b)))
  {
    hide RenderHead, ParseHead, Reparsed, Settled, Clocks, Counts, BitAt, GetU16;
    HeadReparsed(BLOCK_LEN, 0, c.baseClk, c.common, b[..8]);
    ClocksReparsed(c, b);
    CountsReread(c, b);
    PlainPiece(4, Counts(c), b[10..]);
    var inner := b[8..];
    assert inner[..2] == b[8..10] && inner[2..] == b[10..];
    var p := Parse(c, b);
    ReparsedConcat(2, CLOCKS, Clocks(c), Clocks(p), Run(4, All), Counts(c), Counts(p), inner);
    ReparsedConcat(8, HEAD, RenderHead(BLOCK_LEN, 0, c.baseClk, c.common),
        RenderHead(BLOCK_LEN, 0, c.baseClk, p.common),
                   CLOCKS + Run(4, All), Clocks(c) + Counts(c), Clocks(p) + Counts(p), b);
  }

  lemma FlagsBack<R>(c: Config<R>)
    ensures BitAt(Clocks(c)[1], 8) == c.collectResp && BitAt(Clocks(c)[1], 16) == c.useRcvClk
  {
    var v := 8 * Bit(c.collectResp) + 16 * Bit(c.useRcvClk);
    assert v / 16 == Bit(c.useRcvClk);
    assert v / 8 == Bit(c.collectResp) + 2 * Bit(c.useRcvClk);
  }

  lemma ReadBack<R>(c: Config<R>)
    ensures Parse(c, Render(c)) == c
  {
    hide RenderHead, ParseHead, PutU16, GetU16, BitAt;
    var b := Render(c);
    HeadReadBack(BLOCK_LEN, 0, c.baseClk, c.common);
    PutGetU16(c.nrLeds);
    PutGetU16(c.rcvTimeout);
    FlagsBack(c);
    assert b[..8] == RenderHead(BLOCK_LEN, 0, c.baseClk, c.common);
    assert b[8..10] == Clocks(c);
    assert b[8] == b[8..10][0] && b[9] == b[8..10][1];
    assert b[10..12] == PutU16(c.nrLeds);
    assert b[12..14] == PutU16(c.rcvTimeout);
  }

  lemma BlockIsSound<R(!new)>()
    ensures Sound<Config<R>>(LAYOUT, Render, Parse)
  {
    hide Settled, Reparsed, Render, Parse;
    forall c: Config<R>, b: seq<byte> ensures SoundAt(LAYOUT, Render, Parse, c, b) {
      Rendered(c);
      if |b| == BLOCK_LEN {
        Reread(c, b);
      }
    }
  }

  /** The ISELED block by address; two bits of octet 9 are flags. */
  lemma RegisterMap<R>(c: Config<R>)
    ensures var b := Render(c);
            && |b| == 14 && b[0] == 14 && b[1] == 0
            && b[2] as int == Bit(c.common.enable) + 16 * Bit(c.common.clearReqStorage)
            && b[3] as int == Bit(c.common.reqCrcEnable) + 8 * Bit(c.common.responseTsEnable)
                              + 128 * Bit(c.common.suppressResponse)
            && b[4..6] == PutU16(c.baseClk) && b[6..8] == PutU16(c.common.epStatus)
            && b[8] == c.wireClkDivider && b[9] as int == 8 * Bit(c.collectResp) + 16 * Bit(c.useRcvClk)
            && b[10..12] == PutU16(c.nrLeds) && b[12..14] == PutU16(c.rcvTimeout)
    ensures forall k :: 0 <= k < 14 ==> (LAYOUT[k] == ReadOnly <==> k in {0, 1, 4, 5})
  {
    hide PutU16;
  }

  function Apply<R(!new)>(c: Config<R>, payload: seq<byte>): Config<R> {
    BlockIsSound<R>();
    Reconfigured(LAYOUT, Render, Parse, c, payload)
  }

  /** What has no register never changes, nor does the base clock. */
  lemma UnregisteredKept<R(!new)>(c: Config<R>, payload: seq<byte>)
    ensures Apply(c, payload).rest == c.rest && Apply(c, payload).baseClk == c.baseClk
  {
    hide RenderHead, ParseHead, Patched, GetU16, GetU32;
    BlockIsSound<R>();
  }
}
