# cpp-RCP in Dafny

cpp-RCP is a header-only C++17 stack for the OPEN Alliance TC18 Remote Control Protocol,
carried over IEEE 1722 (AVTP). This project models its layered codec and its state
machines, and proves what they promise for every input and every run.

The codec is built in layers, and the theorems compose: big-endian fields (`Bytes`) and
AVTPDU headers (`Avtp`); bit-packed ACF messages and frames holding several of them
(`Acf`, `L2`); serial CRCs over a register of any width (`ShiftRegister`), instantiated by
the end-to-end CRC-32 (`Crc32`, its published check value in `Crc32Check`) and the ISELED
CRC-8 (`Iseled`); end-to-end protection
with its moved pad octets (`E2e`), also of several messages in a frame
(`ProtectedPacking`); fragmentation and reassembly (`Fragment`), used by CAN
responses (`Can`) and discovery responses (`Discovery`).

The state machines are classes whose methods are proved against specification functions;
theorems about whole runs are then proved about those functions: the sequence-number guard
(`SequenceGuard`), stream fault latches (`StreamFaults`), the lifecycle with its register
locking (`Lifecycle`), the discovery claim (`DiscoveryClaims`), the client's
pending-request table (`L2Client`), the buffer pool (`Loan`), GPIO writes and triggers
(`Gpio`) with debouncing (`Debounce`), ADC averaging (`Adc`), and rate limiting
(`RateLimit`). The EP_func register blocks of CAN, GPIO, ADC and ISELED
(`EndpointRegisters.dfy`) are proved to behave as one plain masked octet array
(`Registers`).

Conventions: an octet is a number below 256, so masks and shifts appear as remainders and
quotients; machine widths and wrap-around are written out. CRC registers and GPIO masks
are lists of bits, first-shifted bit (or pin 0) first. Error codes are datatypes. The
clock, the fault injector's verdict, the sampling callback's values and the application's
plausibility verdicts are parameters. `dafny verify dfyconfig.toml` checks everything.

Where the code and what its comments or its neighbours lead one to expect differ, the
model follows the code and the difference is stated exactly:

- `wrap` takes the CRC before the ACF_ABB encoder forces `mtv` clear, so a frame handed in
  with `mtv` set is refused by its own receiver (`E2e.UnwrapWrapAbbIff`).
- The four reserved header bits are decoded away, so they are outside the CRC: a change
  within four octets that leaves the CRC in place is refused exactly when it shows
  elsewhere (`E2e.CanonicalTamperingIff`, `E2e.ReservedBitUnnoticed`).
- `extend_timestamp` is described for any reference time; unsigned wrap-around spoils it
  near both ends of the 64-bit range (`Avtp.ExtendIsNearestIff`).
- Completion does not empty the reassembler, so without a reset the next message, however
  it is fragmented, comes out behind what was left (`Fragment.StaleDataKept`,
  `Fragment.BackToBackMessages`).
- A payload that is not whole quadlets makes its message take the first octets of the
  next one in the frame (`Acf.SplitConcat`, `L2.MultiFrameRoundTrip`).
- `DiscoveryClaim::set_timeout` is said to leave a claim in flight alone, but the deadline
  is recomputed from the new timeout at every query (`DiscoveryClaims.RetimeKeepsIff`,
  `DiscoveryClaims.RetimeCutsShort`).
- Two ADC configuration fields are wider than their registers, and any accepted write
  truncates them (`AdcRegisters.WideFieldsTruncated`).
- A second request on a pair still in flight takes over the first one's entry
  (`L2Client.SecondRequestDisplacesFirst`). Nobody waiting ever loses an entry exactly when
  no request starts on the pair of a call still waiting and no cleanup comes in on the pair
  of another (`L2Client.AlwaysWholeIff`).

## Model

| member | source | states |
|---|---|---|
| `Avtp.StreamIdRoundTrip` | include/rcp/avtp.hpp:159-174 | a stream identifier and its 64-bit wire form determine each other, both ways |
| `Avtp.StreamIdToU64` | include/rcp/avtp.hpp:159-163 | the source's octet loop computes the big-endian value of MAC then unique id |
| `Avtp.StreamIdFromU64` | include/rcp/avtp.hpp:165-174 | the inverse loop yields the identifier whose wire form is the given value |
| `Avtp.StreamIdOctets` | include/rcp/avtp.hpp:159-174 | on the wire an identifier is its six MAC octets followed by its two suffix octets |
| `Avtp.NtscfRoundTrip` | include/rcp/avtp.hpp:306-329 | decoding an encoded NTSCF header, whatever follows it, returns it with version cut to 3 bits and length to 11 |
| `Avtp.NtscfLayout` | include/rcp/avtp.hpp:306-329 | each field of an NTSCF header at its octet and bit, subtype 0x82 first |
| `Avtp.NtscfRefusedIff` | include/rcp/avtp.hpp:306-329 | a header is refused as foreign if and only if its first octet is not 0x82, and as short if and only if it is empty or cut before octet 12 |
| `Avtp.NtscfReencode` | include/rcp/avtp.hpp:306-329 | decoding any octets and encoding again clears exactly the one reserved bit |
| `Avtp.TscfRoundTrip` | include/rcp/avtp.hpp:331-369 | the same for the 24-octet TSCF header; only the version is narrowed and the reserved words come back zero |
| `Avtp.TscfLayout` | include/rcp/avtp.hpp:331-369 | each field of a TSCF header at its octet and bit, subtype 0x05 first |
| `Avtp.TscfRefusedIff` | include/rcp/avtp.hpp:331-369 | the same two refusals for 0x05 and 24 octets |
| `Avtp.TscfReencode` | include/rcp/avtp.hpp:331-369 | likewise the nine reserved bits of octets 1 and 3 and the two reserved words, which the header keeps |
| `Avtp.ExtendTimestamp` | include/rcp/avtp.hpp:397-412 | the branching adjustment of the candidate time computes the function the next two rows are about |
| `Avtp.ExtendIsNearestIff` | include/rcp/avtp.hpp:397-412 | for every 64-bit reference time: the result is congruent to the wire value and at most half a period away if and only if unsigned wrap-around does not strike, with the exact inputs on which it does |
| `Avtp.ExtendWraps` | include/rcp/avtp.hpp:397-412 | a concrete wire value that is put at the far end of the 64-bit range |
| `Avtp.ExtendRecovers` | include/rcp/avtp.hpp:397-412 | any instant less than half a period from the reference is recovered from its low 32 bits |
| `Bytes.PutGetBE` | include/rcp/avtp.hpp:118-131 | reading a big-endian field of any width gives back the number that was put, for every number that fits |
| `Bytes.GetPutBE` | include/rcp/avtp.hpp:132-144 | every octet string is the big-endian form of the number read from it |
| `Acf.InfoRoundTrip` | include/rcp/acf.hpp:335-379 | decoding an encoded message header returns it with each field cut to its bit width; the four reserved bits go out clear |
| `Acf.HeaderWords` | include/rcp/acf.hpp:335-379 | the encoded header as four 16-bit words, each the sum of its fields at their bit positions |
| `Acf.ReencodeIff` | include/rcp/acf.hpp:335-379 | re-encoding a decoded header restores the same eight octets if and only if the four reserved bits were clear |
| `Acf.AbbRoundTrip` | include/rcp/acf.hpp:457-510 | an ACF_ABB message decodes to its payload and header, with type forced, mtv cleared and a zero length filled in |
| `Acf.GbbRoundTrip` | include/rcp/acf.hpp:515-541 | the same for ACF_GBB, including the 64-bit message timestamp |
| `Acf.DecodeRefusals` | include/rcp/acf.hpp:501-541 | the exact causes of each decoder's two refusals, and what it makes of all other octets |
| `Acf.DecodeMessages` | include/rcp/acf.hpp:585-632 | the offset loop over a frame terminates in bounds on any octets and returns the split that the next two rows are about |
| `Acf.SplitTiles` | include/rcp/acf.hpp:585-632 | on arbitrary octets the decoded messages, laid end to end, tile a prefix of the buffer and stop only at its end or at an octet no message can start with |
| `Acf.SplitLengths` | include/rcp/acf.hpp:585-632 | on arbitrary octets every message found takes exactly the quadlets its header declares when these cover its own header and are there, and otherwise all the rest of the buffer |
| `Acf.SplitRefusedIff` | include/rcp/acf.hpp:585-632 | a buffer is refused if and only if its first octet names neither message type, or names one whose 8 or 16 fixed octets are not all there |
| `Acf.SplitConcat` | include/rcp/acf.hpp:585-632 | for every list of in-range messages whose length fits the header, splitting undoes packing if and only if the payloads, the last excepted, are whole quadlets |
| `Acf.MisalignedListChanges` | include/rcp/acf.hpp:585-632 | a concrete list of two messages that does not come back |
| `ShiftRegister.LoadShiftIsFeed` | include/rcp/e2e.hpp:268-275 | XORing a group of bits in and shifting it through equals feeding the bits one at a time |
| `ShiftRegister.ShortBurstsDiffer` | include/rcp/e2e.hpp:268-275 | from one register, two different bit strings no longer than the register never meet again |
| `ShiftRegister.FeedInjective` | include/rcp/e2e.hpp:268-275 | feeding the same bits never merges two different registers |
| `ShiftRegister.BurstDetected` | include/rcp/e2e.hpp:268-285 | a change confined to a burst no wider than the register changes the remainder, for every polynomial whose incoming end is set |
| `ShiftRegister.OctetBurstDetected` | include/rcp/e2e.hpp:268-285 | the same for octet strings, in either bit order |
| `ShiftRegister.Remainder` | include/rcp/e2e.hpp:281-285 | the octet loop with its inner shift loop computes the fold the rows above speak about |
| `Crc32.Reflect32` | include/rcp/e2e.hpp:254-261 | the 32-step bit-reversal loop reverses the bits of its argument |
| `Crc32.ComputeCrc` | include/rcp/e2e.hpp:281-289 | the CRC loop with initial value and final inversion computes the CRC function |
| `Crc32.DetectsFourOctets` | include/rcp/e2e.hpp:254-285 | two different strings of equal length that agree outside some four consecutive octets have different CRCs |
| `Crc32Check.CheckValue` | include/rcp/e2e.hpp:281-289 | the published check value: the CRC of the nine digits is 0x1697D06A, which tests/test_e2e.cpp:94 asks for |
| `E2e.Wrap` | include/rcp/e2e.hpp:573-604 | wrap puts out header, real payload, CRC and moved pad octets in that order, with the length one quadlet up |
| `E2e.Unwrap` | include/rcp/e2e.hpp:648-711 | unwrap computes the verdict and rebuilt frame that the following rows are about, on any octets |
| `E2e.UnwrapWrapGbb` | include/rcp/e2e.hpp:573-711 | for every GBB header with at most 3 pad octets, no more than the payload has, and a base length of 1 to 0xFFFE quadlets, unwrap accepts wrap's output and returns exactly the unprotected encoding of the full padded payload |
| `E2e.UnwrapWrapAbbIff` | include/rcp/e2e.hpp:573-711 | within the same bounds a frame of every other type comes back the same way, and is accepted if and only if the type is ACF_ABB and mtv was clear (the CRC is taken before mtv is forced clear) |
| `E2e.MtvRefused` | include/rcp/e2e.hpp:573-711 | a concrete header with mtv set whose frame its own receiver refuses |
| `E2e.NtscfIgnoresTime` | include/rcp/e2e.hpp:608-720 | within the same bounds, under NTSCF framing sender and receiver may disagree about tu and the presentation time without effect |
| `E2e.CoveredOctets` | include/rcp/e2e.hpp:434-476 | for every frame long enough to hold one, the CRC covers the outer fields and then every octet before the trailer in canonical form (header decoded and encoded again); that is the frame itself if and only if its reserved bits are clear |
| `E2e.PreambleLayout` | include/rcp/e2e.hpp:434-476 | the first fifteen covered octets are subtype, second header octet, tu, MAC, suffix and presentation time |
| `E2e.OtherEnvelopeIff` | include/rcp/e2e.hpp:648-711 | an accepted frame, given to a receiver whose fifteen outer octets differ within four consecutive ones only, is accepted if and only if subtype, header octet, tu, stream and effective presentation time are all the same, and refused with a CRC error otherwise |
| `E2e.WrongStreamRejected` | include/rcp/e2e.hpp:648-711 | so a receiver of any stream that differs in the suffix or the last two MAC octets, or within four consecutive MAC octets, refuses it |
| `E2e.WrongHeaderRejected` | include/rcp/e2e.hpp:648-711 | and so does one with another subtype, second header octet or tu, in any combination |
| `E2e.FramingMatters` | include/rcp/e2e.hpp:608-720 | under TSCF framing tu and the presentation time matter, and a frame accepted under NTSCF is refused under TSCF |
| `E2e.ShortFrameIff` | include/rcp/e2e.hpp:648-711 | a frame is too short if and only if it lacks its message header, its CRC or its announced pad octets |
| `E2e.UnwrapRemovesCrc` | include/rcp/e2e.hpp:648-711 | whatever the verdict, a frame long enough is handed on with its four CRC octets cut out, one quadlet taken off its length and every other octet as it came |
| `E2e.CanonicalTamperingIff` | include/rcp/e2e.hpp:648-711 | an accepted frame, whatever its reserved bits, and another with the same CRC position and the same octets from there on, whose canonical forms differ within four octets only: the other is refused if and only if its decoded header or an octet after the header differs |
| `E2e.TamperingRejected` | include/rcp/e2e.hpp:648-711 | an accepted frame changed within four consecutive octets before its CRC, or only in the CRC, the CRC staying where it was, is refused if and only if the change shows in the decoded header or after it |
| `E2e.WrapTamperingRejected` | include/rcp/e2e.hpp:573-711 | within the same bounds, wrap's output changed only within four consecutive octets of its real payload, or only in its trailer, is answered with a CRC error |
| `E2e.ReservedBitsUncovered` | include/rcp/e2e.hpp:648-711 | frames that agree after the header and decode to the same header get the same result; of an accepted frame, a header changed within four octets that leaves the CRC in place goes unnoticed if and only if it decodes to the same header |
| `E2e.ReservedBitUnnoticed` | include/rcp/e2e.hpp:648-711 | a concrete frame, accepted with the same result after one of its reserved bits is set |
| `E2e.WrongTimestampRejected` | include/rcp/e2e.hpp:648-711 | an accepted frame is refused by a receiver holding any other presentation time |
| `Acf.SplitExact` | include/rcp/acf.hpp:585-632 | messages that state their exact length in whole quadlets come back from a frame as they are |
| `ProtectedPacking.ProtectedFramesSplit` | include/rcp/e2e.hpp:573-711 | protected messages with whole-quadlet padded payloads, packed end to end, split back into entries that encode to the frames octet for octet, each of which unwrap accepts with the plain message |
| `SequenceGuard.RxSequenceGuard.Evaluate` | include/rcp/e2e.hpp:1029-1045 | one arriving number: verdict and tracked value as the specification function says |
| `SequenceGuard.AcceptedLift` | include/rcp/e2e.hpp:1023-1061 | with enforcement on, the numbers accepted over any run are the low octets of a counter that rises by 1 to 127 each time |
| `SequenceGuard.RefusedIffBehind` | include/rcp/e2e.hpp:1023-1061 | a number is refused if and only if it lies 0 to 128 behind the last accepted one |
| `SequenceGuard.HonestSenderAccepted` | include/rcp/e2e.hpp:1023-1061 | a sender that loses at most 126 frames in a row is never refused, however often the field wraps |
| `SequenceGuard.ContinuousIff` | include/rcp/e2e.hpp:1023-1061 | no discontinuity is reported after the first frame if and only if every step is exactly one |
| `SequenceGuard.UnenforcedAcceptsAll` | include/rcp/e2e.hpp:1023-1061 | with enforcement off every number of every run is accepted |
| `SequenceGuard.SafeStateIff` | include/rcp/e2e.hpp:1023-1061 | after any run the safe state is asked for if and only if the stream enables it and the next number is not the successor of the latest accepted one; likewise the exact conditions of discontinuity and acceptance |
| `StreamFaults.StreamFaultTracker.OnCrcError` | include/rcp/e2e.hpp:796-864 | the two searches over sixteen slots implement a table of latches that refuses only a seventeenth stream |
| `StreamFaults.StreamFaultTracker.Reset` | include/rcp/e2e.hpp:878-881 | resetting clears that stream's latch and no other |
| `StreamFaults.TrackedIff` | include/rcp/e2e.hpp:840-907 | a stream is tracked if and only if some error on it found fewer than sixteen other streams to have erred |
| `StreamFaults.TrackedAreErring` | include/rcp/e2e.hpp:840-907 | the tracked streams are exactly those that have erred while these are at most sixteen, and sixteen of them afterwards |
| `StreamFaults.FaultedIff` | include/rcp/e2e.hpp:840-907 | over any run a stream is faulted if and only if it is so tracked and some enforced error on it has not been followed by its own reset |
| `StreamFaults.UntrackedOnlyWhenFull` | include/rcp/e2e.hpp:851-864 | tracked streams stay tracked, and an error goes unrecorded if and only if sixteen other streams are tracked |
| `Fragment.PlanCountZeroIff` | include/rcp/fragment.hpp:231-241 | no plan exists if and only if fragmentation is needed but off, or needs more than 4096 intermediate fragments, or the 64-bit sum wraps; otherwise the count is the exact ceiling |
| `Fragment.Plan` | include/rcp/fragment.hpp:256-279 | the loop fills the caller's array with the plan, or leaves it alone with the right error |
| `Fragment.PlanCoversPayload` | include/rcp/fragment.hpp:231-279 | a plan's slices are numbered in order, flagged on all but the last, no longer than the limit, and join to the payload |
| `Fragment.PlanNumbers` | include/rcp/fragment.hpp:231-279 | flag, number, offset and length of every segment of a plan; the final one is unnumbered and empty only for an empty payload |
| `Fragment.Reassembler.Feed` | include/rcp/fragment.hpp:364-394 | one fragment: the report and the new state, for every state and fragment |
| `Fragment.Reassembler.Reset` | include/rcp/fragment.hpp:338-342 | reset gives the state of a fresh reassembler |
| `Fragment.RefusalReasons` | include/rcp/fragment.hpp:364-394 | a fragment is taken if and only if it fits the message limit and 4096 octets and carries the number due; each refusal has its exact cause, and changes nothing |
| `Fragment.PlanAppends` | include/rcp/fragment.hpp:231-427 | a plan's slices, with any refused fragments between them, fed to any reassembler between messages that has the room, first complete at the last slice and leave what was in the buffer followed by the payload |
| `Fragment.PlanReassembles` | include/rcp/fragment.hpp:231-427 | so a fresh or reset reassembler yields the original payload |
| `Fragment.CompleteMeansInSequence` | include/rcp/fragment.hpp:323-427 | whatever is fed, a first completion means the accepted numbers were 0, 1, 2, ... modulo 65536 and the data is the accepted octets joined, within both size limits |
| `Fragment.StaleDataKept` | include/rcp/fragment.hpp:364-420 | for every state between messages, payload within the capacity and fragment size: all fragments are taken if and only if there is room behind what was left, and the message then comes out intact if and only if nothing was left |
| `Fragment.BackToBackMessages` | include/rcp/fragment.hpp:323-427 | from a fresh reassembler, two messages in a row without a reset leave the first followed by the second; the second is intact if and only if the first was empty |
| `Can.ParseCombined` | include/rcp/can.hpp:763-815 | the leading quadlet, XL header and data of any encodable frame parse back to the same frame |
| `Can.CombinedLayout` | include/rcp/can.hpp:763-815 | the quadlet, the XL header fields and the data at their octets |
| `Can.CombinedParse` | include/rcp/can.hpp:1192-1211 | whatever parses is the layout of exactly the frame it parses to |
| `Can.ParseRefusals` | include/rcp/can.hpp:1192-1211 | from the octets themselves: what parses, to which format and identifier, and the exact cause of each refusal |
| `Can.EncodableIff` | include/rcp/can.hpp:790-801 | a response is encoded if and only if its format is one of six, its identifier has at most 29 or 11 bits, its data at most 8, 64 or 2048 octets, and an XL header is there exactly for the XL formats |
| `Can.EncodeResponseFragmented` | include/rcp/can.hpp:1081-1125 | the fragment loop emits one message per planned slice, or nothing when no plan fits 256 fragments |
| `Can.FragmentableIff` | include/rcp/can.hpp:1060-1068 | a frame is fragmented if and only if it is encodable and 256 fragments hold it; the count is the exact ceiling |
| `Can.PieceHeader` | include/rcp/can.hpp:1081-1125 | every fragment goes out as a response of its transaction on its bus, timed or not, numbered exactly when more follow |
| `Can.FragmentRefusals` | include/rcp/can.hpp:1140-1185 | which received octets are refused as a fragment, and as what: foreign type, too short for their type, another bus, an event operation |
| `Can.FragmentFields` | include/rcp/can.hpp:1140-1185 | an accepted fragment read octet by octet; it is timed if and only if it is ACF_GBB with mtv set |
| `Can.FragmentsDecode` | include/rcp/can.hpp:1081-1185 | each emitted fragment decodes to its planned slice, number and flag |
| `Can.FragmentedRoundTrip` | include/rcp/can.hpp:1060-1211 | every encodable frame, at every fragment size needing at most 256 fragments: decoding the fragments, reassembling them (with refused ones between) and parsing returns format, identifier, XL header and data |
| `Can.SingleFragmentIsPlain` | include/rcp/can.hpp:961-1125 | when everything fits one fragment the fragmented encoder's output is the plain encoder's |
| `Discovery.SliceRoundTrip` | include/rcp/discovery.hpp:377-393 | a response payload parses to the server's registers if and only if at least 14 octets were asked for |
| `Discovery.SliceLayout` | include/rcp/discovery.hpp:377-393 | each of the five registers at its octets |
| `Discovery.PayloadOctets` | include/rcp/discovery.hpp:377-393 | a payload of any size is as much of the slice as fits and zeros behind it |
| `Discovery.EncodeResponseFragmented` | include/rcp/discovery.hpp:534-579 | the fragment loop emits one framed message per planned slice |
| `Discovery.PieceHeader` | include/rcp/discovery.hpp:534-579 | every fragment goes out under an NTSCF header of the server with the right length, as a read response of its transaction on the discovery bus |
| `Discovery.FragmentRefusals` | include/rcp/discovery.hpp:269-298 | which received octets are refused, and as what: not NTSCF, too short, no ACF_ABB, another bus, a write |
| `Discovery.FragmentFields` | include/rcp/discovery.hpp:589-603 | an accepted fragment read octet by octet; of the segment number the low octet counts |
| `Discovery.FragmentsDecode` | include/rcp/discovery.hpp:534-603 | each emitted fragment decodes to its planned slice |
| `Discovery.FragmentedRoundTrip` | include/rcp/discovery.hpp:534-630 | for every read size of at least 14 and every workable fragment size the reassembled response gives back the registers, and every fragment names the same server |
| `Discovery.SingleFragmentIsPlain` | include/rcp/discovery.hpp:419-579 | one fragment is the plain response and decodes in one step |
| `L2.EncodeL2MultiFrame` | include/rcp/l2.hpp:337-422 | the appending encoder produces Ethernet header, AVTPDU header with the right length, then the messages |
| `L2.DecodeL2MultiFrame` | include/rcp/l2.hpp:368-429 | the decoder's verdict and result on any octets |
| `L2.EthernetLayout` | include/rcp/l2.hpp:337-422 | destination, source, ethertype 0x22F0 and subtype at their octets |
| `L2.ForeignRefused` | include/rcp/l2.hpp:368-429 | a frame is refused as foreign if and only if it has an Ethernet header of another ethertype |
| `L2.LengthRefusedIff` | include/rcp/l2.hpp:368-429 | an AVTPDU is refused for its length if and only if the length field of its whole header is not the number of octets behind it |
| `L2.PduRefusals` | include/rcp/l2.hpp:368-429 | the exact causes of the remaining refusals: another subtype, missing octets, a first message of neither type |
| `L2.EnvelopeRoundTrip` | include/rcp/l2.hpp:337-397 | the header and length check round-trip around any ACF octets whose length its field can announce |
| `L2.MultiFrameRoundTrip` | include/rcp/l2.hpp:337-429 | for every non-empty list of such messages, TSCF and NTSCF, decoding inverts encoding if and only if the length field can hold the total and the payloads, the last excepted, are whole quadlets |
| `L2Client.PendingKeyInjective` | include/rcp/l2.hpp:232-234 | two requests share a key if and only if they share both bus id and transaction number |
| `L2Client.Client.BeginRequest` | include/rcp/l2.hpp:957-963 | registering a request replaces only the entry under its own key and keeps the table consistent |
| `L2Client.Client.OnFrame` | include/rcp/l2.hpp:1045-1051 | an arriving frame answers and removes the entry under its pair, if any |
| `L2Client.Client.FailWait` | include/rcp/l2.hpp:964-996 | a wait ends without an answer: the outcome is settled and the table not yet touched |
| `L2Client.Client.EndRequest` | include/rcp/l2.hpp:964-996 | cleanup erases whatever is under the request's key, and the call returns what its wait ended with: a timeout or failed send wins over a response that came after it |
| `L2Client.AnswersMatchFromEmpty` | include/rcp/l2.hpp:936-1053 | in every interleaving a completed request holds a response with its own bus id and transaction number |
| `L2Client.FrameCompletesAtMostOne` | include/rcp/l2.hpp:1045-1051 | an arriving frame completes at most one request, the one registered under its pair, and never replaces an answer |
| `L2Client.FirstStepDecides` | include/rcp/l2.hpp:936-1053 | over any run the first step on a registered request's pair decides it: it keeps its entry if and only if there is no such step, and it is answered, by that frame, if and only if that step is a frame |
| `L2Client.EndedStaysEnded` | include/rcp/l2.hpp:936-1053 | a call that has returned neither fails nor is cleaned up again in any later run |
| `L2Client.AlwaysWholeIff` | include/rcp/l2.hpp:936-1053 | over any run no call still waiting is ever without its entry if and only if no request starts on the pair of a waiting call and no cleanup erases another waiting call's entry |
| `L2Client.DistinctPairsLoseNothing` | include/rcp/l2.hpp:936-1053 | in particular nothing is ever lost while no request starts on a pair in flight |
| `L2Client.ReuseBeforeCleanup` | include/rcp/l2.hpp:936-1053 | that discipline is sufficient and not necessary: a concrete run breaks it and answers both requests |
| `L2Client.SecondRequestDisplacesFirst` | include/rcp/l2.hpp:957-963 | a concrete run in which the first of two requests on one pair loses its response to the second |
| `L2Client.LateResponseDropped` | include/rcp/l2.hpp:964-996 | a concrete run in which a response between the timeout and the cleanup is dropped |
| `Iseled.Popcount4` | include/rcp/iseled.hpp:127-135 | the bit-counting loop counts the set bits of the low nibble |
| `Iseled.CountsOnes` | include/rcp/iseled.hpp:127-135 | the count of a number with four binary digits is their sum |
| `Iseled.AcceptedIffEven` | include/rcp/iseled.hpp:141-159 | a symbol is accepted if and only if its five bits hold an even number of ones |
| `Iseled.SentAreEven` | include/rcp/iseled.hpp:141-159 | every symbol sent has an even number of ones and carries its nibble in the low four bits |
| `Iseled.SymbolBijection` | include/rcp/iseled.hpp:141-159 | a symbol decodes to a nibble if and only if its low five bits are that nibble's encoding |
| `Iseled.ComputeCrc8` | include/rcp/iseled.hpp:173-186 | the CRC-8 loop computes the CRC-8 function |
| `Iseled.Crc8Values` | include/rcp/iseled.hpp:173-186 | nothing gives 0 and the octet 1 gives the polynomial, 0x07 |
| `Iseled.Crc8DetectsOneOctet` | include/rcp/iseled.hpp:173-186 | strings that differ in exactly one octet have different CRC-8s |
| `Iseled.EncodeBitframe` | include/rcp/iseled.hpp:244-257 | the framing loop emits the two symbols of every octet, high nibble first, CRC last when asked |
| `Iseled.DecodeBitframe` | include/rcp/iseled.hpp:267-292 | the decoding loop's verdict and result on any symbols |
| `Iseled.FramingBijection` | include/rcp/iseled.hpp:244-292 | decoding yields given data if and only if the low five bits of the symbols are the encoding of that data, with or without CRC |
| `Iseled.DecodeEncode` | include/rcp/iseled.hpp:244-292 | decoding inverts encoding |
| `Iseled.WireOrder` | include/rcp/iseled.hpp:244-257 | every data octet in turn, high nibble first, then the CRC of them all when asked for |
| `Iseled.OneOctetChangeRejected` | include/rcp/iseled.hpp:244-292 | with the CRC on, any visible change confined to the two symbols of one octet is rejected by parity or CRC |
| `Iseled.BadSymbolIff` | include/rcp/iseled.hpp:267-292 | a frame is refused for a bad symbol if and only if its symbols pair up and some symbol has an odd number of ones; likewise the exact conditions of the two length refusals |
| `Iseled.FlippedBitRefused` | include/rcp/iseled.hpp:267-292 | with or without CRC, a well-formed frame with one of the five bits of one symbol turned over is refused as having a bad symbol |
| `Registers.PatchBlock` | include/rcp/can.hpp:738-742 | the patch loop writes each datum of the span except onto read-only octets |
| `Registers.AppliedIff` | include/rcp/can.hpp:726-754 | a write is applied if and only if it carries a datum and ends within the block; every octet outside it or read-only keeps its value, every plain one inside takes its datum |
| `Registers.PatchReparseIsWrite` | include/rcp/can.hpp:726-754 | patching, parsing and rendering again is a masked write to a plain array |
| `Registers.ReconfigIsPlainWrite` | include/rcp/can.hpp:726-754 | of every endpoint with sound render and parse functions, the block rendered after a write is the plain array after it, and a refused write changes nothing |
| `Registers.RunIsPlain` | include/rcp/can.hpp:674-754 | the same over any sequence of accepted and refused writes |
| `Registers.RegisterFile.ApplyReconfig` | include/rcp/can.hpp:726-754 | one configuration write to such an endpoint: outcome, new configuration, and the block it renders |
| `Registers.WritesCommuteIff` | include/rcp/can.hpp:726-754 | two writes commute if and only if they store equal bits in every writable octet they share; disjoint spans always do |
| `CanRegisters.BlockIsSound` | include/rcp/can.hpp:674-754 | the 36-octet CAN block is sound: it renders to settled octets, and parsing any block and rendering again keeps of each octet what the layout says, so Registers.ReconfigIsPlainWrite and Registers.RunIsPlain hold of it |
| `CanRegisters.RegisterMap` | include/rcp/can.hpp:674-754 | each field of the 36-octet block at its address, and which addresses are read-only |
| `CanRegisters.UnregisteredKept` | include/rcp/can.hpp:674-754 | fields without a register never change |
| `CanRegisters.ReadBack` | include/rcp/can.hpp:674-754 | parsing a rendered block restores the configuration |
| `GpioRegisters.BlockIsSound` | include/rcp/gpio.hpp:543-608 | the 41-octet GPIO block is sound: it renders to settled octets, and parsing any block and rendering again keeps of each octet what the layout says, so Registers.ReconfigIsPlainWrite and Registers.RunIsPlain hold of it |
| `GpioRegisters.RegisterMap` | include/rcp/gpio.hpp:543-576 | each field of the 41-octet block at its address, and which addresses are read-only |
| `GpioRegisters.UnregisteredKept` | include/rcp/gpio.hpp:543-608 | fields without a register never change |
| `GpioRegisters.ReadBack` | include/rcp/gpio.hpp:543-576 | parsing a rendered block restores the configuration |
| `GpioRegisters.DebounceWrite` | include/rcp/gpio.hpp:543-608 | a one-octet write to a pin's debounce address sets that pin's debounce and nothing else |
| `AdcRegisters.BlockIsSound` | include/rcp/adc.hpp:591-669 | the 18-octet ADC block is sound: it renders to settled octets, and parsing any block and rendering again keeps of each octet what the layout says, so Registers.ReconfigIsPlainWrite and Registers.RunIsPlain hold of it |
| `AdcRegisters.RegisterMap` | include/rcp/adc.hpp:591-638 | each field of the 18-octet block at its address, and which addresses are read-only |
| `AdcRegisters.ReadBackIff` | include/rcp/adc.hpp:591-638 | parsing a rendered block restores the configuration if and only if the two 16-bit fields fit the octet their registers have |
| `AdcRegisters.WideFieldsTruncated` | include/rcp/adc.hpp:619-669 | every accepted write sets each of the two 16-bit fields to the datum covering its register, or else to its own low octet; a write elsewhere preserves the field if and only if it fits an octet |
| `AdcRegisters.IntervalsLost` | include/rcp/adc.hpp:619-669 | a concrete write elsewhere that clears an interval count of 256 |
| `IseledRegisters.BlockIsSound` | include/rcp/iseled.hpp:422-540 | the 14-octet ISELED block is sound: it renders to settled octets, and parsing any block and rendering again keeps of each octet what the layout says, so Registers.ReconfigIsPlainWrite and Registers.RunIsPlain hold of it |
| `IseledRegisters.RegisterMap` | include/rcp/iseled.hpp:422-474 | each field of the 14-octet block at its address, and which addresses are read-only |
| `IseledRegisters.UnregisteredKept` | include/rcp/iseled.hpp:422-540 | fields without a register never change, nor does the base clock |
| `IseledRegisters.ReadBack` | include/rcp/iseled.hpp:422-474 | parsing a rendered block restores the configuration |
| `Lifecycle.RequestStreamsConsistent` | include/rcp/lifecycle.hpp:246-275 | the nested loops decide whether every configured stream names an existing response stream and is bound to a used endpoint |
| `Lifecycle.CheckHwCfg` | include/rcp/lifecycle.hpp:282-289 | the check passes if and only if every used endpoint has pins and a request stream |
| `Lifecycle.CheckRcpCfg` | include/rcp/lifecycle.hpp:297-304 | the check passes if and only if the full quantified condition holds |
| `Lifecycle.InconsistencyNamed` | include/rcp/lifecycle.hpp:246-304 | each check fails if and only if one of the faults it looks for is there: an unmapped or unstreamed endpoint; a request stream answering to no response stream, to a missing one, or bound to no used endpoint |
| `Lifecycle.ServerLifecycle.Transition` | include/rcp/lifecycle.hpp:499-561 | one transition request: outcome, new state, and what every subscriber hears |
| `Lifecycle.ServerLifecycle.Advance` | include/rcp/lifecycle.hpp:377-395 | the two-step entry point, likewise |
| `Lifecycle.ServerLifecycle.Deconfigure` | include/rcp/lifecycle.hpp:400-404 | reset from any state |
| `Lifecycle.TransitionAllowedIff` | include/rcp/lifecycle.hpp:499-561 | the whole table of real transitions: consistency on the way up, authority to go live, authority and idle endpoints on the way down, the root client alone for a full reset of a live server |
| `Lifecycle.RefusalMeaning` | include/rcp/lifecycle.hpp:499-561 | what each of the five refusals says about the request |
| `Lifecycle.AdvanceAllowedIff` | include/rcp/lifecycle.hpp:377-395 | the two-step entry point changes the state if and only if it goes one step up and its own verdict is good |
| `Lifecycle.ServerLifecycle.NotifyStateChanged` | include/rcp/lifecycle.hpp:574-577 | every subscriber is told a real change exactly once, and nothing when nothing changed |
| `Lifecycle.LiveIff` | include/rcp/lifecycle.hpp:499-561 | a server is live if and only if some event of its run found it HwConfigured and commissioned it (an authorised transition with a consistent snapshot, or an approved advance) and no event since was a deconfigure or a reset or demotion by the right writer with every other endpoint idle |
| `Lifecycle.LiveSinceCommissioning` | include/rcp/lifecycle.hpp:499-561 | a live server was commissioned by some event of its run, has stayed live since, and no W* field has changed since |
| `Lifecycle.HardwareFrozen` | include/rcp/lifecycle.hpp:724-764 | hardware fields keep their values over every stretch that stays out of HwUnconfigured |
| `Lifecycle.ReadOnlyFrozen` | include/rcp/lifecycle.hpp:724-764 | read-only fields keep their values over every run |
| `Lifecycle.WriteErrorMeaning` | include/rcp/lifecycle.hpp:724-796 | a denial says "locked" if and only if no writer at all could write, and "unauthorised" if and only if some other writer could |
| `Lifecycle.FieldValueIff` | include/rcp/lifecycle.hpp:724-764 | after any run a field holds a value if and only if the latest write to it by a permitted writer put it there or, there having been none, it held it at the start |
| `Lifecycle.ChangeHasAuthor` | include/rcp/lifecycle.hpp:724-764 | whatever changed over a stretch was changed by a unicast write to that field: a W field by the root client or owning stream while live, by them or the discovery stream in HwConfigured, by nobody before; a W* field by nobody while live; a hardware field by the discovery stream in HwUnconfigured; a read-only field by nobody |
| `Lifecycle.AuthoredTakesEffect` | include/rcp/lifecycle.hpp:724-764 | each of these writers is let in, and changes that one field only |
| `Lifecycle.NonUnicastChangesNothing` | include/rcp/lifecycle.hpp:724-764 | a write that is not unicast changes nothing, in any state and of any kind |
| `Lifecycle.WPlusErrorMeaning` | include/rcp/lifecycle.hpp:809-834 | the same for explicitly lockable fields |
| `Lifecycle.WPlusWritableIff` | include/rcp/lifecycle.hpp:809-834 | who may write a lockable field in which state, a locked one nobody |
| `Lifecycle.HistoryIsPath` | include/rcp/lifecycle.hpp:499-561 | the state changes of any stretch form a contiguous path that never skips HwConfigured on the way up |
| `Lifecycle.SubscriberHearsHistory` | include/rcp/lifecycle.hpp:425-427 | a subscriber's log is exactly the path of real changes since it subscribed |
| `DiscoveryClaims.DiscoveryClaim.OnDiscoveryRequest` | include/rcp/discovery.hpp:697-709 | outcome and new claim; an ungranted request changes nothing |
| `DiscoveryClaims.OutcomeMeaning` | include/rcp/discovery.hpp:697-709 | a live server grants nothing; a client that may configure is told it holds the claim, one that finds another may is told so, and whoever finds nobody gets the claim |
| `DiscoveryClaims.DiscoveryClaim.OnConfigurationRequest` | include/rcp/discovery.hpp:742-746 | accepted if and only if the client may configure; a refused request changes nothing |
| `DiscoveryClaims.MayConfigureIff` | include/rcp/discovery.hpp:697-746 | over any run a client may configure if and only if some grant to it is unbroken (no release, no other grant, no write after a full timeout) and was confirmed less than a timeout ago |
| `DiscoveryClaims.NextGrantIff` | include/rcp/discovery.hpp:697-709 | after a grant, with no release, the next request is granted if and only if the server is unconfigured and a full timeout has passed since the last confirmation |
| `DiscoveryClaims.RetimeKeepsIff` | include/rcp/discovery.hpp:780-780 | changing the timeout of a held claim leaves its holder's standing alone at every later moment if and only if the timeout stays the same or the claim has already run out under both; otherwise the standing flips exactly while the claim's age lies between the two |
| `DiscoveryClaims.RetimeCutsShort` | include/rcp/discovery.hpp:780-780 | a concrete claim that a timeout change ends early |
| `Loan.BufferPool.Take` | include/rcp/loan.hpp:153-203 | loan: result and new pool, through the search, the swap-remove and the allocation |
| `Loan.BufferPool.SearchAndRemove` | include/rcp/loan.hpp:158-168 | the loop removes the first buffer that is large enough, the last entry taking its place |
| `Loan.BufferPool.ReturnLoan` | include/rcp/loan.hpp:189-202 | the release closure: back to the list while there is room, deleted otherwise, storage torn down by the last owner |
| `Loan.BufferPool.DropIfLastOwner` | include/rcp/loan.hpp:255-257 | the destructor loop deletes exactly the buffers of the free list |
| `Loan.BufferPool.DestroyPool` | include/rcp/loan.hpp:134-142 | destruction closes the pool and tears it down only when nothing is lent |
| `Loan.EveryBufferInOnePlace` | include/rcp/loan.hpp:132-261 | in every run every allocated buffer is free, lent or deleted, exactly one of them; the list has no repeats and at most 64 entries; nothing survives the last owner |
| `Loan.LoanIsFreshAndZero` | include/rcp/loan.hpp:153-177 | a loan is exactly size zero octets at an address nobody else holds, reusing a buffer if and only if a free one is large enough; failure changes nothing |
| `Loan.ClosedIff` | include/rcp/loan.hpp:153-177 | after any run the pool is closed if and only if some event closed or destroyed it, and it then lends nothing and stays as it is |
| `Loan.LentBufferUntouched` | include/rcp/loan.hpp:132-261 | over any stretch of any run in which a lent buffer is not returned, nothing frees, re-lends or writes it |
| `Loan.DeletionIff` | include/rcp/loan.hpp:189-257 | a step deletes a buffer if and only if it returns it to a full list or removes the last owner |
| `Loan.DeletedStaysDeleted` | include/rcp/loan.hpp:132-261 | over every later stretch of any run a deleted buffer stays deleted |
| `Gpio.SaturatingAdd` | include/rcp/endpoint.hpp:213-217 | the wrapped sum with its overflow test is the sum clamped to the largest word |
| `Gpio.SaturatingSubtract` | include/rcp/endpoint.hpp:220-223 | the result is the least word that, added back, covers the minuend: it always covers it, and when it is not zero it does so exactly |
| `Gpio.CombinedMeaning` | include/rcp/endpoint.hpp:235-251 | the shared combinator as numbers and pin by pin, its Subtract taking the operand from the current value, and which two semantics it refuses |
| `Gpio.EvaluateTriggers` | include/rcp/gpio.hpp:285-300 | the pin loop queues and returns the armed signals in pin order, change before edge |
| `Gpio.FiredExactly` | include/rcp/gpio.hpp:285-300 | a write raises a signal if and only if it is armed, its pin flipped and, for an edge, flipped its way; in ascending order, each once |
| `Gpio.GpioEndpoint.HandleWrite` | include/rcp/gpio.hpp:823-830 | one write: outcome, pins, queued signals; a refused write changes nothing |
| `Gpio.ReconfigureThenReplace` | include/rcp/gpio.hpp:225-241 | after Reconfigure and Replace the pins named by the first take the bits of the second, and all others keep their value, whatever the directions were |
| `Gpio.OnlyReconfigureTurns` | include/rcp/gpio.hpp:225-241 | directions are always the ones last configured; Reconfigure itself moves no pin and raises no signal |
| `Gpio.FirstEdge` | include/rcp/gpio.hpp:225-300 | from the start, for every pin: armed, made an output and driven high, its rising edge is pending, alone |
| `Gpio.TriggerRegistry.Notify` | include/rcp/endpoint.hpp:279-283 | a signal is queued if and only if it is armed |
| `Gpio.ArmedIff` | include/rcp/endpoint.hpp:268-293 | over any run from the start a signal is armed if and only if some event armed it and none since disarmed it |
| `Gpio.TriggerRegistry.Drain` | include/rcp/endpoint.hpp:289-293 | drain hands out everything pending and leaves nothing |
| `Gpio.EdgesAlternate` | include/rcp/gpio.hpp:225-300 | while a pin's two edges stay armed, everything drained or pending for it alternates, Rising first, and its count is odd if and only if the pin is set |
| `Gpio.EdgesBalance` | include/rcp/gpio.hpp:225-300 | so Rising outnumbers Falling by exactly the pin's current bit |
| `Gpio.InputPinsKeep` | include/rcp/gpio.hpp:225-241 | an input pin keeps its value over every stretch in which it stays an input |
| `Gpio.ArithmeticWrites` | include/rcp/gpio.hpp:225-241 | whatever the directions, after Add and Subtract the output pins show their part of the clamped sum and of the clamped difference of operand and the number all 32 pins spell; on an all-output port the port spells it |
| `Gpio.InputCarriesIntoOutput` | include/rcp/gpio.hpp:225-241 | a concrete port on which an input pin carries into an output pin |
| `Gpio.OutputsFollow` | include/rcp/gpio.hpp:225-241 | of whatever a write would drive, the output pins take their part and the input pins keep their values |
| `Gpio.BitwiseWrites` | include/rcp/gpio.hpp:225-241 | on the output pins of any port Replace gives the operand, Or and And share out the sum of current value and operand, and Xor is their difference |
| `Gpio.XorUndoes` | include/rcp/gpio.hpp:225-241 | toggling the same mask twice undoes itself, whatever the directions |
| `Gpio.RefusedIff` | include/rcp/gpio.hpp:225-241 | a write is refused if and only if its semantics is the reserved one, and then changes nothing |
| `Debounce.DebounceState.Sample` | include/rcp/gpio.hpp:384-413 | one sample: new filter state, output, and whether a settled output changed |
| `Debounce.SettledIsLastAgreed` | include/rcp/gpio.hpp:384-413 | at every setting n the settled output is the most recent value that n samples in a row agreed on (one sample when n is zero), and there is none before the first such window |
| `Debounce.ZeroForgets` | include/rcp/gpio.hpp:384-413 | from any state, a sample at setting zero passes through and forgets the run in progress: afterwards k equal samples at setting n settle if and only if k is at least n |
| `Adc.AverageInterval` | include/rcp/adc.hpp:210-238 | the two loops compute the interval's average and capture moment |
| `Adc.UsableAreAll` | include/rcp/adc.hpp:210-238 | the usable samples are exactly those that do not read 0xFFFF, each as often as it was returned |
| `Adc.AverageIsMean` | include/rcp/adc.hpp:210-238 | when some sample is usable, the average is their arithmetic mean rounded down |
| `Adc.CaptureMoment` | include/rcp/adc.hpp:210-238 | it is stamped with the last usable sample, with the last sample when none is usable, and with 0 when there is none |
| `Adc.NoSignalIff` | include/rcp/adc.hpp:210-238 | an average reads "no signal" if and only if no sample was usable |
| `Adc.AverageBetween` | include/rcp/adc.hpp:210-238 | any other average lies between two of the usable samples |
| `Adc.PendingBuffer.PushBack` | include/rcp/adc.hpp:832-837 | appends unless 255 averages are waiting |
| `Adc.PendingBuffer.PopFrontN` | include/rcp/adc.hpp:844-849 | the shifting loop drops the first n entries and keeps the rest in order |
| `Adc.AdcEndpoint.ExecuteMeasurementCycle` | include/rcp/adc.hpp:868-876 | one cycle appends its average, or is refused when the buffer is full |
| `Adc.AdcEndpoint.CollectResponse` | include/rcp/adc.hpp:890-903 | a response takes out the first n averages verbatim, or nothing happens |
| `Adc.ResponsesConserve` | include/rcp/adc.hpp:830-909 | over any run the responses collected, followed by what is pending, are the averages of the successful cycles in order, each response stamped with its own first average's moment |
| `Adc.UncollectedFills` | include/rcp/adc.hpp:830-909 | without collection the endpoint holds the first 255 averages and refuses every later one |
| `Adc.EagerCollection` | include/rcp/adc.hpp:830-909 | collecting whenever ready at a constant count c > 0 refuses nothing and yields exactly floor(cycles / c) responses, the i-th carrying the i-th batch |
| `RateLimit.TokenBucket.Take` | include/rcp/ratelimit.hpp:135-159 | one call: refill, cap and consumption |
| `RateLimit.TokensBounded` | include/rcp/ratelimit.hpp:135-159 | whatever the clock does, the level stays between zero and the burst |
| `RateLimit.WindowBound` | include/rcp/ratelimit.hpp:135-159 | in any window of calls the successes number at most the burst plus what the window's length refills |
| `RateLimit.SpacedNeverRefused` | include/rcp/ratelimit.hpp:135-159 | a caller whose gaps each refill a token is never refused |
| `RateLimit.FreshBurst` | include/rcp/ratelimit.hpp:135-159 | a fresh bucket admits exactly its burst at one instant |
| `RateLimit.RefillIsPerSecond` | include/rcp/ratelimit.hpp:135-159 | an empty bucket admits a call ms milliseconds later if and only if ms times the rate is at least 1000 and the burst at least 1 |
| `RateLimit.Manager.AdmitRequest` | include/rcp/ratelimit.hpp:177-183 | one admission decision and the new bucket map |
| `RateLimit.ExemptIff` | include/rcp/ratelimit.hpp:177-183 | a safety-tagged request is admitted and touches no bucket where these are exempt; every other is answered by its own domain alone, and touches only it |
| `RateLimit.StartsFull` | include/rcp/ratelimit.hpp:177-187 | a domain never seen, or just reset, starts with a full bucket |
| `RateLimit.DomainIsOwnBucket` | include/rcp/ratelimit.hpp:177-187 | after any interleaving each domain's bucket is a token bucket run on its own requests since its own last reset |
| `RateLimit.Isolation` | include/rcp/ratelimit.hpp:177-187 | two runs that agree on a domain's own events answer that domain alike |

## Left out

- RateLimit.WindowBound: rates are exact reals, so floating-point rounding of the token level is not modelled.
- Loan.BufferPool.Take: buffers have a size but no separate capacity, and the loan's own copy of its payload is the returned sequence.
- CanRegisters.UnregisteredKept: fields without a register are one opaque value, here and for GPIO and ISELED.
- E2e.UnwrapWrapGbb: pad counts above 3 and a base length of 0xFFFF, which wrap accepts and the two-bit and nine-bit header fields cannot carry, are not described; the same bounds hold for the next three members.
- E2e.UnwrapWrapAbbIff: bounded like E2e.UnwrapWrapGbb.
- E2e.NtscfIgnoresTime: bounded like E2e.UnwrapWrapGbb.
- E2e.WrapTamperingRejected: bounded like E2e.UnwrapWrapGbb.
- E2e.CanonicalTamperingIff: a change that moves the CRC, by changing the pad count or the message type, is not described.
- Bytes.PutGetBE: the big-endian helpers are recursive functions, where the source shifts and masks octet by octet.
- Straight-line encoders that only append fields (headers, prefixes, payload slices) are functions rather than methods with a growing buffer.
- Concurrency: each section the source runs under a lock is one atomic step; memory ordering and callback re-entrancy are not modelled.
- Raw sockets, ioctls, threads, waiting and platform stubs in `l2.hpp`.
- Request codecs of the endpoints, fragmented CAN requests, fragmented CRCs, and the single-message Ethernet form, which repeat what is proved for responses and multi-message frames.
- The per-state request filter and the TSCF drop rule: plain case analysis.
- The combined stream status flags and the receive watchdog: thin latches.
- The ADC trigger windows and sample-spacing check, and the CAN acceptance filters: stateless comparisons.
- Register blocks of I2C, LIN and the other endpoint types, which repeat the pattern proved for four of them.
- Register map, request queues, safe-state purging, bridges, mDNS, admin, authorisation, C API, fault injection, CLI and JSON manifests.
