# Verified model of fd_picotcp

fd_picotcp puts ordinary file descriptors in front of picoTCP, a TCP/IP stack in C. This
project models the parts of it whose correctness is not visible from any single function and
proves what those parts promise, for every input, every run or every interleaving:

- **PPP driver.** Four table-driven machines that call each other synchronously
  (`PppTables`, `PppFsm`, `PppLayering`, `PppRuns`, `PppStuck`, `PppRechallenge`,
  `PppOutcomes`, `PppTiming`, `PppDevice`), byte stuffing and framing (`PppFraming`) and the
  FCS-16 (`Fcs`, `FcsPeriod`).
- **Fragmentation and reassembly** for both IP versions (`Fragments`, `Reassembly`,
  `FragmentRoundTrip`).
- **DNS names**: decompression, message compression in place, and the dotted notation
  (`DnsNames`, `DnsLoop`, `DnsCompression`, `DnsPacket`, `DnsCompressor`, `DnsNotation`).
- **The wakeup protocol** between the stack thread and a blocking reader (`Wakeup`).
- **NAT** (`Nat`, `NatAgeing`), **routes and links** (`Routing`, `LinkTables`, `LinkEffects`),
  the **header checksum** under forwarding (`Checksum`).
- **The timer heap** and the loop that fires timers (`TimerHeap`).
- **IPv6 text** (`Ipv6Text`, `Ipv6Accept`) and **multicast change reports** (`Multicast`,
  `MulticastFrame`).

`Bits` holds bytes and arithmetic on bit strings, `Wrappers` the type of values that may be
missing.

Code that updates buffers, tables or counters is a method on arrays or on a class whose
`ensures` equates the new state with a specification function of the old one; the theorems are
lemmas about those functions. Trees are taken as ordered sets under the comparator they are
declared with, memory allocation always succeeds, and the machine is little-endian. Clocks,
random draws, serial input and what timer callbacks add and cancel are parameters, so every
statement holds for all of them.

## What the code does not do

Some promises hold only under a condition. Each is given with its exact condition and with
inputs that fail it:

- A CHAP re-challenge takes authentication back without taking the network layer down, so IP
  data can be sent while the link below closes. This is the only way: `PppRuns.FullLayeringIff`,
  `PppRechallenge.DataOverClosingLink`.
- An ERROR answer while dialling leaves the PPP device where only a disconnect call helps, and
  nothing else leads there: `PppStuck.GetsStuckIff`, `PppStuck.StuckAfterIff`,
  `PppRuns.StuckIff`.
- The driver rejects its own data frames unless the peer negotiated address and control
  compression, because the sender leaves those two bytes out of the check:
  `PppFraming.DataRoundTripIff`. A frame longer than the receive buffer fills it
  (`PppFraming.OverlongFills`), and a poll writes past the buffer exactly when it is entered with
  a full one and a byte on the line: `PppFraming.Receiver.Poll`.
- Zero bytes in front of a valid frame are noticed exactly when their number is not a multiple
  of 32767, far more than the buffer holds: `FcsPeriod.LeadingZerosIff`.
- The buffer for a reassembled datagram is allocated for a length cut to sixteen bits. The
  copy fits it exactly when no fragment held beyond the final one carries data and header and
  data together stay below 65536 bytes: `Reassembly.DeliveredForm`,
  `Reassembly.OverlongOverruns`, `FragmentRoundTrip.FragmentThenReassemble`. So payloads of
  65516 to 65535 bytes, which the sender does split, do not survive.
- A second full copy of an IPv4 datagram is delivered again, and so is an IPv6 one with
  identification zero: `FragmentRoundTrip.SecondCopy`. IPv4 compares the identification of the
  packet with the one held through a field that is set only after the test; its value is the
  parameter `stale`. A packet of another datagram therefore leaves a collection alone always for
  IPv6, but for IPv4 only if that value is not zero or the identifications agree:
  `FragmentRoundTrip.ForeignLeavesIff`.
- The loop that looks for a shorter suffix tests a pointer where a byte is meant, so every
  later name must find its last label in the packet as it is when its turn comes:
  `DnsCompression.ShortenIff`, `DnsPacket.CompressPacketIff`, `DnsPacket.UnrelatedNamesFail`.
- The loop that reads a name has no bound. It writes past its buffer exactly when some number of
  passes copies more than 256 bytes, the final zero included, whether or not a name would ever
  end there; otherwise it ends with a name, leaves the packet or goes on for ever:
  `DnsLoop.ReadNameIff`. A loop that never stops overruns exactly when a label lies on its cycle
  or the labels before the cycle are too many: `DnsLoop.NeverStopsOverrunsIff`. A label followed
  by a pointer to itself is such a packet: `DnsLoop.SelfReferenceOverruns`.
- The length of a possibly compressed name comes out too small exactly when a label starts 255
  bytes or more behind its start: `DnsCompressor.CompLenIff`.
- A name does not survive conversion to labels and back if it has one byte, an empty label, or
  a label of 128 bytes or more in front of one that has not 46, the code of the dot: such a
  length is negative as a char and the walk steps back out of the name:
  `DnsNotation.RoundTripIff`, `DnsNotation.LongLabelFails`. Strings of 65536 bytes or more are
  refused or read past a copy without a zero: `DnsNotation.ConversionIff`.
- A read that takes all there is leaves a semaphore token behind, so that the next read returns
  without data, exactly when it asked for just that much, or a second token was there, or the
  callback had not ended when it passed its wait: `Wakeup.ReadLeavesTokenIff`,
  `Wakeup.ExactReadLeavesToken`, `Wakeup.ShortReadLeavesToken`.
- An outgoing packet whose flow is unknown goes on through a null pointer exactly when no port
  was drawn for it or the one drawn is taken: `Nat.NoResultIff`.
- The case that ages an ICMP tuple has no end and runs on into the default case, so it counts
  twice, and after a deletion it reads the freed tuple and deletes again. The freed memory is
  taken to hold what it held; then the second deletion finds nothing: `Nat.DelTwice`.
- Forwarding adds one to the checksum field without the end-around carry, so a header whose
  field is 0xFFFF leaves with a wrong checksum, and so does one whose TTL of zero wraps:
  `Checksum.PassedOnVerifiesIff`, `Checksum.HopsVerifyIff`.
- Among equal prefixes the larger metric wins: `Routing.LargerMetricWins`.
- Deleting a link that was just added restores the tables exactly when it did not become the
  multicast link while another route held the multicast key; then that route goes with it:
  `LinkEffects.AddThenDelIff`.
- The IPv6 parser accepts more than addresses: three to seven groups without a double colon,
  two double colons if the first opens the text, a final colon, any one character behind the
  last digit. On nine groups, among others, it writes past its sixteen bytes. What it accepts
  and where it overruns is decided for every text by the lengths of the fields, the colons and
  the last character: `Ipv6Accept.ParseIff`, `Ipv6Accept.ParseVerdict`,
  `Ipv6Accept.GroupsVerdict`, `Ipv6Accept.TwoDoubleColons`, `Ipv6Accept.LastCharacterIgnored`.
- A change of sources within one filter mode is reported by one difference only, so it is
  conveyed exactly when one set contains the other: `Multicast.UpdateConveysIff`. The buffer of
  an IGMP report is sized by an eight-bit counter and holds the sources exactly when there are
  fewer than 256: `MulticastFrame.FrameFitsIff`. MLD refuses more than 89 by the same counter, so
  256 to 345 sources pass that limit and do not fit: `MulticastFrame.MldFitsIff`.

## Model

| member | source | states |
|---|---|---|
| `PppFsm.LcpTableBounded` | src/picotcp/modules/pico_dev_ppp.c:1501-1688 | every handler an LCP entry lists has a rank below the event's, the measure on which the mutual recursion of the four evaluators ends |
| `PppFsm.ModemTableBounded` | src/picotcp/modules/pico_dev_ppp.c:683-746 | the same for the modem table, so a cascade started by a modem answer ends |
| `PppFsm.AuthTableBounded` | src/picotcp/modules/pico_dev_ppp.c:1848-1899 | the same for the authentication table |
| `PppFsm.IpcpTableBounded` | src/picotcp/modules/pico_dev_ppp.c:1951-1997 | the same for the IPCP table |
| `PppLayering.StepKeeps` | src/picotcp/modules/pico_dev_ppp.c:1690-1742 | every input, cascade included, keeps the layering (modem CONNECTED exactly when LCP is past INITIAL and STARTING, authentication not INITIAL only on an OPENED link, an LCP timer on exactly in the five waiting states); the full layering is lost by a re-challenge and by nothing else |
| `PppLayering.LcpKeeps` | src/picotcp/modules/pico_dev_ppp.c:1690-1721 | an LCP event raised in any layered state ends in a layered state |
| `PppLayering.AuthKeeps` | src/picotcp/modules/pico_dev_ppp.c:1901-1917 | the same for authentication events |
| `PppLayering.ModemKeeps` | src/picotcp/modules/pico_dev_ppp.c:748-765 | the same for modem events |
| `PppLayering.TickKeeps` | src/picotcp/modules/pico_dev_ppp.c:2103-2165 | the same for a tick with its four timeout checks |
| `PppRuns.RunLayered` | src/picotcp/modules/pico_dev_ppp.c:1435-1476 | over every run of serial input, ticks, connect and disconnect calls the layering holds after each event |
| `PppRuns.FullLayeringIff` | src/picotcp/modules/pico_dev_ppp.c:1848-1917 | IPCP stays above authentication throughout a run if and only if the run never re-challenges an authenticated device |
| `PppRuns.WithoutChap` | src/picotcp/modules/pico_dev_ppp.c:1951-2015 | when the peer never asks for CHAP, data is sent only with all four layers up, and modem commands and frames never mix on the line |
| `PppRuns.LcpNoResume` | src/picotcp/modules/pico_dev_ppp.c:1702-1720 | no LCP handler list resumes after a nested event has moved LCP: until the last handler starts, LCP is in the state its entry set |
| `PppRuns.AuthNoResume` | src/picotcp/modules/pico_dev_ppp.c:1901-1917 | the same for authentication |
| `PppRuns.TimedTick` | src/picotcp/modules/pico_dev_ppp.c:2113-2125 | on a silent tick (timer count, timer value) goes down lexicographically until LCP gives up |
| `PppRuns.GivesUpExactly` | src/picotcp/modules/pico_dev_ppp.c:365-399 | left alone, LCP retries for exactly the number of ticks computed from the two counters and is then back in INITIAL or STARTING, neither earlier nor later |
| `PppRuns.StuckIff` | src/picotcp/modules/pico_dev_ppp.c:667-765 | a device with the modem back in INITIAL and LCP in STARTING stays so through a run if and only if the run has no disconnect call |
| `PppStuck.GetsStuckIff` | src/picotcp/modules/pico_dev_ppp.c:667-765 | over all layered states and all inputs, one leads into that situation if and only if it is an ERROR answer that finds the modem not connected and LCP waiting for it |
| `PppStuck.StuckAfterIff` | src/picotcp/modules/pico_dev_ppp.c:683-765 | after every run the device is in it if and only if such an answer came and no disconnect call since |
| `PppRechallenge.SessionUp` | src/picotcp/modules/pico_dev_ppp.c:1435-1476 | a concrete exchange brings all four layers up |
| `PppRechallenge.DataOverClosingLink` | src/picotcp/modules/pico_dev_ppp.c:1890-1899 | a concrete continuation with a second challenge ends with IPCP OPENED while LCP is CLOSING and authentication INITIAL |
| `PppOutcomes.AuthenticatesIff` | src/picotcp/modules/pico_dev_ppp.c:1068-1119 | over every layered state that is not AUTHENTICATED and every input, it becomes so if and only if a PAP Ack under PAP or a CHAP Success under CHAP finds an answer out, or LCP comes up with no protocol asked for |
| `PppOutcomes.StaysAuthenticatedIff` | src/picotcp/modules/pico_dev_ppp.c:1848-1917 | it stays so if and only if it is not challenged again and LCP stays OPENED |
| `PppOutcomes.AuthenticatedByIff` | src/picotcp/modules/pico_dev_ppp.c:1848-1917 | after every run the device is AUTHENTICATED if and only if some input of the run authenticated it and nothing disturbed it since |
| `PppOutcomes.RefusalCloses` | src/picotcp/modules/pico_dev_ppp.c:1080-1119 | a PAP Nak under PAP or a CHAP Failure under CHAP takes LCP to CLOSING and authentication back, unless the device is AUTHENTICATED |
| `PppOutcomes.OpensIff` | src/picotcp/modules/pico_dev_ppp.c:1012-1044 | LCP reaches OPENED by exactly two inputs: a request with known options after its own was acknowledged, or the acknowledgement after it accepted one |
| `PppOutcomes.LeavesOpenedIff` | src/picotcp/modules/pico_dev_ppp.c:1012-1119 | LCP leaves OPENED by exactly a disconnect call, any LCP packet but an echo request, and a refusal before authentication |
| `PppOutcomes.NetworkOpensIff` | src/picotcp/modules/pico_dev_ppp.c:1951-1997 | IPCP reaches OPENED by exactly the second of the two agreements |
| `PppOutcomes.ConnectsIff` | src/picotcp/modules/pico_dev_ppp.c:683-784 | the modem is connected by exactly the CONNECT answer while dialling |
| `PppOutcomes.RequestAnswered` | src/picotcp/modules/pico_dev_ppp.c:1012-1034 | while LCP negotiates or is OPENED a request is answered by an acknowledgement if and only if every option is known, and by a rejection otherwise |
| `PppOutcomes.LastAsked` | src/picotcp/modules/pico_dev_ppp.c:1012-1044 | the authentication protocol in force is that of the last such option, or unchanged |
| `PppOutcomes.EchoAnsweredIff` | src/picotcp/modules/pico_dev_ppp.c:1058-1063 | an echo request is answered exactly by an OPENED device |
| `PppTiming.UnansweredLink` | src/picotcp/modules/pico_dev_ppp.c:365-399 | a peer that never answers is given up exactly 33 seconds after the modem connects, or after three and three for each retry an earlier exchange left over |
| `PppTiming.UnansweredClose` | src/picotcp/modules/pico_dev_ppp.c:365-399 | a disconnect call that finds no answer takes the device down after exactly the rest of the shared timer and three seconds for each retry |
| `PppTiming.UnansweredCommand` | src/picotcp/modules/pico_dev_ppp.c:683-765 | each positive answer sends the next modem command; it has exactly three seconds, dialling twenty, before the dialogue starts again |
| `PppTiming.PapRepeats` | src/picotcp/modules/pico_dev_ppp.c:2103-2165 | tick by tick, an unanswered PAP request is repeated every three seconds |
| `PppTiming.AddressesRepeat` | src/picotcp/modules/pico_dev_ppp.c:2103-2165 | tick by tick, an unanswered IPCP request is repeated every fifteen |
| `PppTiming.ChallengeAnswered` | src/picotcp/modules/pico_dev_ppp.c:1103-1109 | a CHAP challenge is answered exactly by a device that is waiting for one or has answered one |
| `PppTiming.AddressesAnswered` | src/picotcp/modules/pico_dev_ppp.c:1251-1325 | an IPCP request is acknowledged by exactly the devices that have sent their own, unless it asks for header compression |
| `PppDevice.Device.EvaluateModem` | src/picotcp/modules/pico_dev_ppp.c:748-765 | the in-place evaluator computes the specified cascade on the device fields |
| `PppDevice.Device.EvaluateLcp` | src/picotcp/modules/pico_dev_ppp.c:1690-1721 | the same for LCP, timers included |
| `PppDevice.Device.EvaluateAuth` | src/picotcp/modules/pico_dev_ppp.c:1901-1917 | the same for authentication |
| `PppDevice.Device.EvaluateIpcp` | src/picotcp/modules/pico_dev_ppp.c:1999-2015 | the same for IPCP |
| `PppDevice.Device.StartLcpTimer` | src/picotcp/modules/pico_dev_ppp.c:365-389 | the restart timer's fields become those the specification gives |
| `PppDevice.Device.OnTick` | src/picotcp/modules/pico_dev_ppp.c:2103-2165 | one tick of the device is one tick of the specified machine |
| `PppDevice.Device.OnLine` | src/picotcp/modules/pico_dev_ppp.c:767-784 | one modem answer is one step of the specified machine |
| `PppDevice.Device.OnPacket` | src/picotcp/modules/pico_dev_ppp.c:1012-1343 | one control packet is one step of the specified machine |
| `PppDevice.Device.Disconnect` | src/picotcp/modules/pico_dev_ppp.c:2213-2219 | a disconnect call is one step of the specified machine |
| `Fcs.ByteIsEightBits` | src/picotcp/modules/pico_dev_ppp.c:439-445 | the table-free byte step equals eight single-bit steps of the polynomial of Appendix C of RFC 1662 |
| `Fcs.ContinueIsFeed` | src/picotcp/modules/pico_dev_ppp.c:447-455 | running the bytes equals shifting in all their bits one by one |
| `Fcs.CharInjective` | src/picotcp/modules/pico_dev_ppp.c:439-445 | for each byte the step never maps two states to one |
| `Fcs.ContinueInjective` | src/picotcp/modules/pico_dev_ppp.c:447-455 | nor does any string of bytes |
| `Fcs.ComputeFcs` | src/picotcp/modules/pico_dev_ppp.c:447-466 | the loop computes the specified check |
| `Fcs.TrailerVerifies` | src/picotcp/modules/pico_dev_ppp.c:457-477 | a frame followed by its own check passes |
| `Fcs.VerifyIsResidue` | src/picotcp/modules/pico_dev_ppp.c:468-477 | comparing the trailer is the same test as reaching the constant remainder over the whole frame |
| `Fcs.BurstDetected` | src/picotcp/modules/pico_dev_ppp.c:468-477 | a frame of any length that differs from a passing one only within sixteen consecutive bits, trailer included, is rejected |
| `Fcs.FrameBitsInjective` | src/picotcp/modules/pico_dev_ppp.c:447-455 | different frames of one length have different bits |
| `Fcs.TwoBytesDetected` | src/picotcp/modules/pico_dev_ppp.c:468-477 | a frame of any length that differs from a passing one only in one byte or two adjacent bytes, trailer included, is rejected |
| `Fcs.OddErrorsDetected` | src/picotcp/modules/pico_dev_ppp.c:468-477 | a frame that differs from a passing one in an odd number of bits is rejected |
| `FcsPeriod.ReturnsIff` | src/picotcp/modules/pico_dev_ppp.c:439-466 | zero bits bring the start value of the check back after exactly the multiples of 32767 |
| `FcsPeriod.LeadingZerosIff` | src/picotcp/modules/pico_dev_ppp.c:457-477 | a valid frame with zero bytes put in front passes if and only if their number is such a multiple |
| `FcsPeriod.KnownCheck` | src/picotcp/modules/pico_dev_ppp.c:439-466 | the check of the digits 1 to 9 is 0x906E |
| `PppFraming.CountEscapes` | src/picotcp/modules/pico_dev_ppp.c:327-332 | the first pass counts the escapes that stuffing adds |
| `PppFraming.FillEscaped` | src/picotcp/modules/pico_dev_ppp.c:341-352 | the second pass fills the buffer with exactly the stuffed bytes |
| `PppFraming.SendEscape` | src/picotcp/modules/pico_dev_ppp.c:306-363 | what goes to the line is the body stuffed between flags |
| `PppFraming.Escaped` | src/picotcp/modules/pico_dev_ppp.c:327-352 | exactly 0x7E and 0x7D are escaped, as 0x7D 0x5E and 0x7D 0x5D |
| `PppFraming.NoFlagInside` | src/picotcp/modules/pico_dev_ppp.c:341-352 | no flag stands inside a stuffed body of any content |
| `PppFraming.Receiver.OnByte` | src/picotcp/modules/pico_dev_ppp.c:2026-2053 | with the modem connected, one byte moves buffer, length and escape flag as specified and hands on a frame at a flag |
| `PppFraming.Receiver.OnAnswerByte` | src/picotcp/modules/pico_dev_ppp.c:2054-2075 | otherwise it moves buffer, length and the S3 flag as specified and hands on an answer |
| `PppFraming.Receiver.Poll` | src/picotcp/modules/pico_dev_ppp.c:2017-2078 | one poll handles a prefix of the line byte by byte, each under the state the modem then has, and stops only at the end of the line, on a used-up score or a full buffer; it writes past the buffer if and only if it is entered with a full one and a byte on the line, and otherwise takes at least one byte there is |
| `PppFraming.ConnectedRun` | src/picotcp/modules/pico_dev_ppp.c:2017-2078 | while the modem stays connected the loop is the frame receiver of the round trips |
| `PppFraming.AnswersArrive` | src/picotcp/modules/pico_dev_ppp.c:2054-2075 | any list of answers, each ended by its two terminators, is handed on line by line and in order |
| `PppFraming.RxSplit` | src/picotcp/modules/pico_dev_ppp.c:2017-2078 | splitting the input across polls changes neither the state nor what is handed on |
| `PppFraming.RxFramedAll` | src/picotcp/modules/pico_dev_ppp.c:306-363 | every list of bodies of two bytes or more comes back unchanged and in order |
| `PppFraming.PollsJoin` | src/picotcp/modules/pico_dev_ppp.c:2017-2078 | what any sequence of polls does to receiver and output is what one run over all their input does, changes of the modem's state included |
| `PppFraming.PollsDeliver` | src/picotcp/modules/pico_dev_ppp.c:2017-2078 | any sequence of polls that together takes a stream of framed bodies off the line hands on exactly those bodies, in order, and leaves the buffer empty |
| `PppFraming.RxNeverFull` | src/picotcp/modules/pico_dev_ppp.c:2017-2078 | with bodies that fit, the receive buffer is never full at any point of the stream |
| `PppFraming.OverlongFills` | src/picotcp/modules/pico_dev_ppp.c:2017-2078 | a body of the buffer's size or more does fill it |
| `PppFraming.AbortDiscards` | src/picotcp/modules/pico_dev_ppp.c:2026-2053 | an escape byte right before a flag discards the frame so far |
| `PppFraming.CtlSend` | src/picotcp/modules/pico_dev_ppp.c:480-507 | the control frame sent is header, payload and a check over all of it |
| `PppFraming.CtlRoundTrip` | src/picotcp/modules/pico_dev_ppp.c:1398-1415 | a control frame is accepted as its protocol and payload |
| `PppFraming.CtlFramesRoundTrip` | src/picotcp/modules/pico_dev_ppp.c:480-507 | any list of control frames arrives as exactly those protocols and payloads, in order, with passing checks |
| `PppFraming.DataRoundTripIff` | src/picotcp/modules/pico_dev_ppp.c:509-549 | a data frame is accepted by the same driver if and only if address and control compression is on |
| `PppFraming.IpDataIff` | src/picotcp/modules/pico_dev_ppp.c:1384-1396 | a payload is handed to the stack as IP if and only if its protocol number is 0x21 or 0x57, in one octet or two |
| `Fragments.Sender.ReboundLarge` | src/picotcp/modules/pico_ipv4.c:1391-1437 | the fragments are the consecutive pieces of the payload under one identification, which moves on when the last one is attempted; a full queue stops it there |
| `Reassembly.Table.Check` | src/picotcp/modules/pico_fragments.c:230-262 | the scan of the tree finds the end of the gap-free prefix as specified |
| `Reassembly.Table.Complete` | src/picotcp/modules/pico_fragments.c:153-184 | the copy loop concatenates the fragments in tree order behind the header of a buffer allocated for the length cut to sixteen bits, and empties the tree |
| `Reassembly.Table.OnFragment` | src/picotcp/modules/pico_fragments.c:322-391 | one arrival changes tree and current identification as specified |
| `Reassembly.Table.OnExpire` | src/picotcp/modules/pico_fragments.c:264-320 | the timeout empties the tree |
| `Reassembly.RunConsistent` | src/picotcp/modules/pico_fragments.c:322-391 | over every run any two fragments held have the same identification, source and destination; they are sorted without duplicates and never already complete |
| `Reassembly.RunGathers` | src/picotcp/modules/pico_fragments.c:110-262 | over every run each datagram delivered is made of fragments that arrived in it and share identification, source and destination |
| `Reassembly.FirstKept` | src/picotcp/modules/pico_fragments.c:351-391 | what is held stays and of two fragments with one offset the first is kept |
| `Reassembly.DeliveredForm` | src/picotcp/modules/pico_fragments.c:78-108 | what is delivered begins with a gap-free run of fragments; it fits its buffer, and then is that run with its true length, if and only if nothing beyond the final fragment carries data and header and run stay below 65536 bytes |
| `Reassembly.OverlongOverruns` | src/picotcp/modules/pico_fragments.c:153-184 | any two fragments that meet, with nothing beyond the final one, but with 65536 bytes or more in all, are delivered in a buffer they do not fit |
| `Reassembly.OverlongExists` | src/picotcp/modules/pico_fragments.c:153-184 | there are such fragments, each of a size one packet can have |
| `Reassembly.LateFragmentsIgnored` | src/picotcp/modules/pico_fragments.c:322-349 | IPv6: late fragments of a datagram with non-zero identification, delivered or expired, change nothing |
| `Reassembly.DeliveryKeepsId` | src/picotcp/modules/pico_fragments.c:322-349 | delivery and expiry both leave the identification that makes them late |
| `FragmentRoundTrip.PiecesAreSplit` | src/picotcp/modules/pico_ipv4.c:1391-1437 | the sender's pieces of any payload above one frame and below 65536 bytes are a split in the sense of the round trip |
| `FragmentRoundTrip.Collecting` | src/picotcp/modules/pico_fragments.c:230-262 | in any order and with any duplicates, nothing is delivered before the last missing piece, and the tree holds exactly the pieces seen |
| `FragmentRoundTrip.FragmentThenReassemble` | src/picotcp/modules/pico_fragments.c:351-385 | the arrival that completes the set delivers one frame made of the original payload, and the run delivers nothing else; the frame fits its buffer if and only if header and payload stay below 65536 bytes, which is payloads of up to 65515 bytes for IPv4 and 65495 for IPv6 |
| `FragmentRoundTrip.SecondCopy` | src/picotcp/modules/pico_fragments.c:140-184 | a second full copy is delivered again by IPv4 and not by IPv6 with non-zero identification |
| `FragmentRoundTrip.ForeignLeavesIff` | src/picotcp/modules/pico_fragments.c:322-391 | a packet with another identification, source or destination leaves an unfinished collection as it is if and only if it is IPv6, or the field compared is not zero, or the identification is the same; a timeout never does |
| `FragmentRoundTrip.CollectingAmid` | src/picotcp/modules/pico_fragments.c:322-391 | such packets in between, however many, neither cause a delivery nor change which pieces are held |
| `FragmentRoundTrip.ReassembleAmid` | src/picotcp/modules/pico_fragments.c:322-391 | pieces arriving in any order with duplicates amid such packets still make exactly one delivery, of the original payload |
| `Fragments.FromV6Fields` | src/picotcp/modules/pico_fragments.c:30-52 | offset and more-flag of an IPv6 field, carried over into the common layout, are the ones its own macros read |
| `DnsLoop.DecompressName` | src/picotcp/modules/pico_dns_common.c:80-123 | for every packet and position the loop, in place, comes to the verdict of the unbounded one: a name up to its first zero, an overrun, leaving the packet, or going on for ever |
| `DnsLoop.ReadNameIff` | src/picotcp/modules/pico_dns_common.c:93-110 | for every packet and position: an overrun if and only if some number of passes copies more than 256 bytes, final zero included; outside if and only if it leaves the packet first; endless if and only if it never stops and never overruns; a name if and only if it ends with one that fits |
| `DnsLoop.NeverStopsOverrunsIff` | src/picotcp/modules/pico_dns_common.c:93-110 | a loop that never stops overruns if and only if a label lies on its cycle or more than 256 bytes are copied before |
| `DnsLoop.SelfReferenceOverruns` | src/picotcp/modules/pico_dns_common.c:93-110 | a label with a pointer back to itself overruns, though no number of passes reads a name there |
| `DnsLoop.ReadsName` | src/picotcp/modules/pico_dns_common.c:80-123 | a name of at most 256 bytes that some number of passes reads is what the unbounded loop yields |
| `DnsNames.EndsWithinPacket` | src/picotcp/modules/pico_dns_common.c:93-110 | a name that can be read at all is read within as many passes as the packet has bytes |
| `DnsNames.ReadsPlain` | src/picotcp/modules/pico_dns_common.c:80-123 | an uncompressed name reads as itself |
| `DnsNames.DecodeExtends` | src/picotcp/modules/pico_dns_common.c:80-123 | neither bytes added behind the packet nor more passes change what could be read |
| `DnsCompression.ShortenReads` | src/picotcp/modules/pico_dns_common.c:1487-1545 | a shortened name reads back as the original from every packet that begins with what was searched |
| `DnsCompression.ShortenPointsBack` | src/picotcp/modules/pico_dns_common.c:1516-1527 | it ends in a pointer to behind the header and before the name |
| `DnsCompression.ShortenIff` | src/picotcp/modules/pico_dns_common.c:1510-1520 | shortening succeeds if and only if the last label with its zero occurs behind the header already |
| `DnsCompression.ShortenForm` | src/picotcp/modules/pico_dns_common.c:1487-1545 | the pointer leads to the first occurrence of the longest suffix of labels that occurs behind the header at all |
| `DnsPacket.ParsePlain` | src/picotcp/modules/pico_dns_common.c:1590-1628 | an uncompressed packet says what was put into it |
| `DnsPacket.CompressRestReads` | src/picotcp/modules/pico_dns_common.c:1553-1588 | compressing the rest keeps everything before it and says what the items said |
| `DnsPacket.CompressionPreservesMeaning` | src/picotcp/modules/pico_dns_common.c:1590-1628 | names, suffixes and data read the same before and after, and every reading ends |
| `DnsPacket.CompressedNamesRead` | src/picotcp/modules/pico_dns_common.c:80-123 | the unbounded loop, applied to each name of the compressed packet where it now lies, yields the name it yielded before |
| `DnsPacket.SharedLabelSuffices` | src/picotcp/modules/pico_dns_common.c:1510-1520 | it succeeds whenever every later name shares its last label with the first |
| `DnsPacket.CompressPacketIff` | src/picotcp/modules/pico_dns_common.c:1510-1520 | for any number of entries, compression succeeds if and only if every later name finds its last label behind the header of the packet as it is when its turn comes |
| `DnsPacket.TwoEntriesIff` | src/picotcp/modules/pico_dns_common.c:1510-1520 | for two entries, the condition read off the input |
| `DnsPacket.UnrelatedNamesFail` | src/picotcp/modules/pico_dns_common.c:1510-1520 | a whole family of packets on which it runs past the name |
| `DnsCompressor.FindPtr` | src/picotcp/modules/pico_dns_common.c:1456-1482 | the byte search finds the first earlier occurrence |
| `DnsCompressor.NoOverlap` | src/picotcp/modules/pico_dns_common.c:1456-1482 | a match never overlaps the name it replaces |
| `DnsCompressor.CompressName` | src/picotcp/modules/pico_dns_common.c:1487-1545 | rewrites one name and moves the rest of the packet up, as specified |
| `DnsCompressor.NameLenComp` | src/picotcp/modules/pico_dns_common.c:46-70 | for every packet and position the count of the loop that stops at a zero, a pointer or the limit, or that it leaves the packet |
| `DnsCompressor.CompLenIff` | src/picotcp/modules/pico_dns_common.c:46-70 | for a name that can be skipped the count is its length if and only if no label starts 255 bytes or more behind its start, and smaller otherwise |
| `DnsCompressor.CompressInPlace` | src/picotcp/modules/pico_dns_common.c:1590-1628 | the whole packet rewritten in place, with its new length, is the specified one |
| `DnsNotation.NotateLabelsIff` | src/picotcp/modules/pico_dns_common.c:307-330 | the notation is a well-formed label sequence if and only if every label has 1 to 63 bytes |
| `DnsNotation.RoundTripIff` | src/picotcp/modules/pico_dns_common.c:223-281 | to labels and back is the identity if and only if the name has two bytes or more, no empty label, and behind a label of 128 bytes or more none whose length is not the dot's code |
| `DnsNotation.ConversionIff` | src/picotcp/modules/pico_dns_common.c:260-281 | a string is converted if and only if it has 1 to 253 bytes, and read past the end of its copy if and only if it has 65536 or more and 1 to 253 counted in sixteen bits |
| `DnsNotation.LongLabelFails` | src/picotcp/modules/pico_dns_common.c:20-23 | a first label of 130 bytes in front of one of a single byte does not come back |
| `DnsNotation.NameToNotation` | src/picotcp/modules/pico_dns_common.c:307-330 | the in-place pass puts every label's length in front of it |
| `DnsNotation.NotationToName` | src/picotcp/modules/pico_dns_common.c:341-352 | the walk over the labels, lengths read as signed chars, puts dots in as specified |
| `DnsNotation.UrlToQname` | src/picotcp/modules/pico_dns_common.c:260-281 | sixteen-bit length check, copy and conversion, a refusal, or a scan past the end of a copy without a zero |
| `DnsNotation.QnameToUrl` | src/picotcp/modules/pico_dns_common.c:223-250 | the other direction, with the sixteen-bit length and the signed walk |
| `Wakeup.StepKeeps` | src/fd_picotcp.c:144-194 | every step of either thread keeps: the count is the pipe's contents up to what is in flight, the drain never reads an empty pipe, unread bytes are announced, at most two tokens |
| `Wakeup.NoLostWakeup` | src/fd_functions.c:288-316 | over every interleaving, a reader waiting while data is there and the callback has ended is let through, and its pipe read does not block |
| `Wakeup.MeasureDecreases` | src/fd_functions.c:288-316 | without new arrivals or calls every step brings both threads nearer to rest |
| `Wakeup.NeverStuck` | src/fd_functions.c:288-316 | while data is there and a read has started, one of the threads can go on |
| `Wakeup.ReadReturns` | src/fd_functions.c:288-316 | however they are scheduled, a read that finds data has returned when neither can go on, within a computed number of steps |
| `Wakeup.ReadLeavesTokenIff` | src/fd_functions.c:288-316 | under every schedule from the moment a read has passed its wait, both threads come to rest with a token and nothing to read if and only if it asks for all there is and asks for exactly that, or a second token was there, or the callback had not ended |
| `Wakeup.QuietReadLeavesTokenIff` | src/fd_picotcp.c:189-194 | for a read that starts at rest, the same by its length and the bytes and tokens there |
| `Wakeup.ExactReadLeavesToken` | src/fd_functions.c:309-313 | a run in which an exact read leaves one, after which the next read passes the semaphore with nothing to read |
| `Wakeup.ShortReadLeavesToken` | src/fd_picotcp.c:165-183 | a run in which a read that asks for more leaves one to the callback |
| `Nat.RunAgree` | src/picotcp/modules/pico_nat.c:184-232 | after every run both trees hold the same tuples, each under its own key, and no live tuple has changed its flow |
| `Nat.AddForm` | src/picotcp/modules/pico_nat.c:184-219 | adding succeeds exactly when neither key is taken; otherwise the first insertion is fully undone |
| `Nat.NoResultIff` | src/picotcp/modules/pico_nat.c:257-284 | in every reachable table an outgoing packet finds no tuple if and only if its flow is unknown and no port was drawn or the one drawn is taken |
| `Nat.AgeKeeps` | src/picotcp/modules/pico_nat.c:337-377 | ageing one tuple, the ICMP case running on into the default one, keeps the agreement and every TCP and UDP port forward |
| `Nat.DelTwice` | src/picotcp/modules/pico_nat.c:358-370 | the deletion that follows on an ICMP tuple already deleted finds nothing and changes nothing |
| `NatAgeing.LivesIff` | src/picotcp/modules/pico_nat.c:328-382 | how many cleanups a TCP or UDP tuple outlives with no traffic, both ways: an open connection counted c from 1 to 360 exactly 361 - c, one reset or ended from both sides exactly one, a UDP flow exactly 2 - c |
| `NatAgeing.OtherVisit` | src/picotcp/modules/pico_nat.c:358-376 | other protocols: an ICMP tuple goes with its second visit at the latest, any other once its count is above one |
| `NatAgeing.OutboundNotes` | src/picotcp/modules/pico_nat.c:286-326 | an outgoing packet starts a UDP flow afresh, and notes SYN, RST and a FIN from inside on a TCP one; no other tuple changes |
| `NatAgeing.InboundNotes` | src/picotcp/modules/pico_nat.c:286-326 | the same for an incoming one with a FIN from outside |
| `NatAgeing.UsedUdpLives` | src/picotcp/modules/pico_nat.c:328-382 | a UDP flow used between cleanups, in either direction, is never deleted |
| `NatAgeing.FreshFlow` | src/picotcp/modules/pico_nat.c:257-284 | a new flow leaves under the given address and a port nobody has, from 1024 to 65534, and its tuple is open and ordinary |
| `NatAgeing.ForwardLivesIff` | src/picotcp/modules/pico_nat.c:384-414 | over every run a port forward is there if and only if no call deleted it |
| `NatAgeing.ForwardReaches` | src/picotcp/modules/pico_nat.c:416-479 | after any runs, while no call deletes it, a forward sends what comes in for its port to the host it names |
| `Nat.PortsUnique` | src/picotcp/modules/pico_nat.c:91-117 | in every reachable table two flows of one protocol never share a translated port or a source endpoint |
| `Nat.ReplyReachesSource` | src/picotcp/modules/pico_nat.c:416-544 | after any run a packet is sent out, and after any further run during which its tuple lives a reply to its translated source is rewritten to the original source endpoint |
| `Nat.SameFlowSameSource` | src/picotcp/modules/pico_nat.c:481-544 | a later packet of the flow leaves with the same translated source and makes no new tuple |
| `Nat.ForwardsSurviveCleanup` | src/picotcp/modules/pico_nat.c:328-414 | in every reachable table no cleanup removes a TCP or UDP port forward |
| `Nat.Table.AddTuple` | src/picotcp/modules/pico_nat.c:184-219 | both trees are updated as specified |
| `Nat.Table.Delete` | src/picotcp/modules/pico_nat.c:221-232 | the found tuple leaves both trees |
| `Nat.Table.PortForward` | src/picotcp/modules/pico_nat.c:384-414 | the tuple is added and marked, or refused |
| `Nat.Table.CleanupTable` | src/picotcp/modules/pico_nat.c:328-382 | the loop ages the tuples one by one as specified, whatever the order |
| `Nat.Table.TranslateOut` | src/picotcp/modules/pico_nat.c:481-544 | looks the flow up or makes it, rewrites the source and notes flags |
| `Nat.Table.TranslateIn` | src/picotcp/modules/pico_nat.c:416-479 | rewrites the destination and notes flags |
| `Routing.MaskedEqualIff` | src/picotcp/modules/pico_ipv4.c:557-573 | masking with a prefix mask and comparing is comparing the first bits |
| `Routing.ScanIsGreatest` | src/picotcp/modules/pico_ipv4.c:513-540 | the reverse scan answers with the greatest matching route of the order, or with none exactly when none matches |
| `Routing.Find4Longest` | src/picotcp/modules/pico_ipv4.c:557-573 | the IPv4 lookup is longest-prefix match for every destination but broadcast |
| `Routing.LargerMetricWins` | src/picotcp/modules/pico_ipv4.c:513-540 | of two hits with one mask the larger metric is taken |
| `Routing.Find6Longest` | src/picotcp/modules/pico_ipv6.c:384-406 | the IPv6 lookup is longest-prefix match outside fe80::/10 and fec0::/10, where it answers with nothing, destinations in the table masked or not |
| `Routing.LocalIff` | src/picotcp/modules/pico_ipv6.c:267-283 | the tests of the first two octets are membership in those two networks |
| `Routing.MaskedEqual6` | src/picotcp/modules/pico_ipv6.c:392-403 | the loop over sixteen bytes compares the masked 128-bit numbers |
| `Routing.Compare6` | src/picotcp/modules/pico_ipv6.c:54-65 | comparing byte by byte is comparing the 128-bit numbers |
| `LinkTables.StepKeepsIff` | src/picotcp/modules/pico_ipv4.c:1100-1320 | an operation leaves no dangling link pointer if and only if its caller passes a live link wherever the link given is stored |
| `LinkTables.RunKeeps` | src/picotcp/modules/pico_ipv4.c:1100-1320 | over every run with such callers the link of every route, the broadcast link and the default multicast link are in the table, routes stay sorted and links distinct |
| `LinkTables.UnlinkKeeps` | src/picotcp/modules/pico_ipv4.c:1253-1264 | removing a link after its routes leaves nothing dangling |
| `LinkTables.FoundIsLive` | src/picotcp/modules/pico_ipv4.c:543-573 | a lookup answers with a live link, or without one only for broadcast when no broadcast link is set |
| `LinkTables.ReachableLookup` | src/picotcp/modules/pico_ipv4.c:557-573 | in every table built by a run from prefix masks a lookup answers with a live link and the longest matching prefix, or with nothing exactly when none matches |
| `LinkEffects.RouteAddForm` | src/picotcp/modules/pico_ipv4.c:1100-1151 | a route is added if and only if its key is free and a link is given or its gateway reached directly, and it is the one change |
| `LinkEffects.GatewayLink` | src/picotcp/modules/pico_ipv4.c:1100-1151 | a route with a gateway goes over the live link of the longest matching prefix for that gateway |
| `LinkEffects.RouteAddThenDel` | src/picotcp/modules/pico_ipv4.c:1153-1173 | deleting a route just added restores the table |
| `LinkEffects.LinkAddForm` | src/picotcp/modules/pico_ipv4.c:1176-1251 | after a link is added the routes are the old ones, the multicast route if no link was remembered, and the route of its own network over it, unless their keys are held |
| `LinkEffects.LinkAddReaches` | src/picotcp/modules/pico_ipv4.c:1176-1251 | every address of the new link's network has a route of at least its prefix, over the new link unless an old route is no shorter |
| `LinkEffects.LinkDelForm` | src/picotcp/modules/pico_ipv4.c:1272-1320 | what a deletion leaves: the other links, the routes over them, and the remembered links that are not the deleted one |
| `LinkEffects.AddThenDelIff` | src/picotcp/modules/pico_ipv4.c:1272-1320 | deleting a link just added restores the tables if and only if it did not take over a multicast key held by another route |
| `LinkEffects.BroadcastLink` | src/picotcp/modules/pico_ipv4.c:1266-1270 | broadcasts go over the link last given for them |
| `LinkTables.Tables.Lookup` | src/picotcp/modules/pico_ipv4.c:557-573 | the loop from the end of the tree is the specified lookup |
| `LinkTables.Tables.AddRoute` | src/picotcp/modules/pico_ipv4.c:1100-1151 | adds under an unused key with the given link or its gateway's, or refuses |
| `LinkTables.Tables.DelRoute` | src/picotcp/modules/pico_ipv4.c:1153-1173 | deletes the route of the key, or refuses |
| `LinkTables.Tables.CleanupRoutes` | src/picotcp/modules/pico_ipv4.c:1253-1264 | walking the tree and deleting by key removes exactly the routes over the link |
| `LinkTables.Tables.AddLink` | src/picotcp/modules/pico_ipv4.c:1176-1251 | the link, its routes and the two remembered links as specified |
| `LinkTables.Tables.DelLink` | src/picotcp/modules/pico_ipv4.c:1272-1320 | the reverse |
| `LinkTables.Tables.SetBcastLink` | src/picotcp/modules/pico_ipv4.c:1266-1270 | replaces the broadcast link by a given one |
| `Checksum.FoldForm` | src/picotcp/stack/pico_frame.c:258-264 | folding the carries is reduction modulo 65535 onto 1 to 65535, zero apart |
| `Checksum.ByteOrderIrrelevant` | src/picotcp/stack/pico_frame.c:236-264 | a header of any length verifies with little-endian words if and only if it verifies with big-endian ones |
| `Checksum.AddWords` | src/picotcp/stack/pico_frame.c:236-256 | the summing loop, odd byte first, computes the sum without overflow |
| `Checksum.FoldCarries` | src/picotcp/stack/pico_frame.c:258-264 | the folding loop gives the complement of the folded sum |
| `Checksum.CrcCheck` | src/picotcp/modules/pico_ipv4.c:241-254 | a received header is accepted if and only if it verifies on the wire |
| `Checksum.StampInPlace` | src/picotcp/modules/pico_ipv4.c:228-237 | the header is stamped in place |
| `Checksum.StampVerifies` | src/picotcp/modules/pico_ipv4.c:228-237 | every stamped header verifies, stamping twice changes nothing, and the field is all ones only over zeros |
| `Checksum.HopVerifiesIff` | src/picotcp/modules/pico_ipv4.c:1474-1483 | a verifying header still verifies after TTL less one and field plus one if and only if the TTL was not zero and the field not 0xFFFF |
| `Checksum.HopsVerifyIff` | src/picotcp/modules/pico_ipv4.c:1474-1483 | after k hops, for every k up to the TTL, it verifies if and only if the field has not wrapped |
| `Checksum.PassedOnVerifiesIff` | src/picotcp/modules/pico_ipv4.c:1462-1501 | what the checks pass on verifies if and only if the TTL was at least two and the field not 0xFFFF |
| `Checksum.Forwarder.PreForward` | src/picotcp/modules/pico_ipv4.c:1462-1501 | the checks change header and remembered flow in place as specified |
| `Checksum.NoImmediateRepeat` | src/picotcp/modules/pico_ipv4.c:1485-1501 | over every run no two headers in a row are passed on whose identification, protocol, source and destination octets all agree |
| `Checksum.PassesIff` | src/picotcp/modules/pico_ipv4.c:1462-1501 | after every run a header is passed on if and only if its TTL is not one, its source is not the host, and one of those octets differs from the header passed on last |
| `TimerHeap.RunKeeps` | src/picotcp/include/heap.h:14-65 | over every sequence of inserts and peeks heap order holds and what was inserted is what is held plus what came out |
| `TimerHeap.PeekIsLeast` | src/picotcp/include/heap.h:41-65 | a peek after any run hands out a least element of what is held |
| `TimerHeap.TakesOffTheFiredIff` | src/picotcp/stack/pico_stack.c:879-892 | the entry removed after a callback is the one that fired if and only if the callback added nothing earlier |
| `TimerHeap.Heap.Grow` | src/picotcp/include/heap.h:18-30 | the one-step growth leaves room, reads no cell that was not allocated, and keeps n <= size <= allocated length |
| `TimerHeap.SiftUpInPlace` | src/picotcp/include/heap.h:35-38 | the loop with the hole is the specified sift |
| `TimerHeap.SiftDownInPlace` | src/picotcp/include/heap.h:49-63 | the same downwards, with the moved element read in place |
| `TimerHeap.Heap.InsertRef` | src/picotcp/include/heap.h:14-40 | the live elements become those of the specified insertion |
| `TimerHeap.Heap.Peek` | src/picotcp/include/heap.h:41-65 | hands out the top and leaves the specified rest, or reports an empty heap |
| `TimerHeap.Heap.First` | src/picotcp/include/heap.h:66-71 | the top, or nothing for an empty heap |
| `TimerHeap.Heap.CancelRef` | src/picotcp/stack/pico_stack.c:895-908 | the first entry of a number other than zero loses its timer, and nothing else changes |
| `TimerHeap.CancelForm` | src/picotcp/stack/pico_stack.c:895-908 | which entry that is, entry by entry |
| `TimerHeap.Heap.CheckTimers` | src/picotcp/stack/pico_stack.c:874-893 | for every heap and every callback that adds for later and cancels, the entries fired, what was added and the heap left are those of the specified loop, each callback's acts applied before the next entry is looked at |
| `TimerHeap.FireForm` | src/picotcp/stack/pico_stack.c:874-893 | in that loop the entries taken off are exactly those due, in order, and the others and the added stay |
| `TimerHeap.OnlyLiveCallbacks` | src/picotcp/stack/pico_stack.c:879-884 | callbacks that agree on every entry with a timer fire alike: an entry without one runs nothing |
| `TimerHeap.AddedByLive` | src/picotcp/stack/pico_stack.c:879-884 | what is added is what the callbacks of the entries fired with a timer add, each once and in order |
| `TimerHeap.CancelledNeverRuns` | src/picotcp/stack/pico_stack.c:874-908 | a timer that a callback cancels does not run later in the same tick: with its number on one entry and not given out again, no entry of that number fired afterwards has a timer |
| `TimerHeap.DeadNeverRuns` | src/picotcp/stack/pico_stack.c:874-893 | a number all of whose entries have lost their timers never runs while it is not added again |
| `TimerHeap.NoDropsConserve` | src/picotcp/stack/pico_stack.c:874-893 | with callbacks that cancel nothing, what was held and added is what is held and fired, timers included |
| `Ipv6Text.ParsesWellFormed` | src/picotcp/modules/pico_ipv6.c:176-265 | every text of section 2.2 of RFC 4291 with eight groups, or one double colon, of 1 to 4 hex digits is accepted as its expanded address |
| `Ipv6Text.DigitIff` | src/picotcp/modules/pico_ipv6.c:194-227 | what counts as a digit, and its value |
| `Ipv6Text.KnownAddress` | src/picotcp/modules/pico_ipv6.c:176-265 | 2001:0Db8::8a2E:42 is parsed as its sixteen octets |
| `Ipv6Accept.ParseVerdict` | src/picotcp/modules/pico_ipv6.c:176-265 | for every text the outcome, an address with its bytes, a refusal or a write past the buffer, is decided by its fields, its colons and what stands behind them |
| `Ipv6Accept.ParseIff` | src/picotcp/modules/pico_ipv6.c:192-248 | a text is accepted if and only if at most one other character ends it, it has two colons and every closed field is sound; the buffer is overrun if and only if some field lacks room behind sound ones |
| `Ipv6Accept.JoinVerdict` | src/picotcp/modules/pico_ipv6.c:192-248 | the same verdict for any fields put together with colons |
| `Ipv6Accept.GroupsVerdict` | src/picotcp/modules/pico_ipv6.c:192-248 | any list of groups without a double colon: up to two are refused, three to eight accepted as the end of an address, nine and more overrun |
| `Ipv6Accept.TwoDoubleColons` | src/picotcp/modules/pico_ipv6.c:228-235 | two double colons are accepted when the first opens the text |
| `Ipv6Accept.LastCharacterIgnored` | src/picotcp/modules/pico_ipv6.c:194-202 | any single other character behind the last digit changes nothing |
| `Ipv6Text.PrintParse` | src/picotcp/modules/pico_ipv6.c:149-174 | parsing the printed form gives back every 128-bit address |
| `Ipv6Text.GroupStores` | src/picotcp/modules/pico_ipv6.c:194-238 | the nibble shuffle at the end of a group of any length stores its value in two bytes |
| `Ipv6Text.Print` | src/picotcp/modules/pico_ipv6.c:149-174 | the printing loop writes the specified text |
| `Ipv6Text.ParseInPlace` | src/picotcp/modules/pico_ipv6.c:176-265 | the parsing loop with buffer and counters gives the specified outcome for every text, writes past the buffer included |
| `Ipv6Text.ShiftUp` | src/picotcp/modules/pico_ipv6.c:249-260 | the backward copy moves what follows the double colon to the end and clears the gap |
| `Multicast.Fill` | src/picotcp/modules/pico_igmp.c:777-781 | the filling loop copies a source set into the tree, its counter running with the size in eight bits |
| `Multicast.Prune` | src/picotcp/modules/pico_igmp.c:782-789 | the pruning loop leaves the difference, its counter still the size in eight bits |
| `Multicast.Compare` | src/picotcp/modules/pico_igmp.c:770-814 | filling and pruning the two trees one after the other yields the first difference, else the opposite one, with the running counter equal to the list's size in eight bits |
| `Multicast.Reporter.Generate` | src/picotcp/modules/pico_igmp.c:739-903 | the report for every pair of modes, filters and event, independent of what earlier reports left in the trees, and what it leaves there itself |
| `Multicast.NothingIffEqual` | src/picotcp/modules/pico_igmp.c:811-814 | no report if and only if the source sets are equal |
| `Multicast.UpdateConveysIff` | src/picotcp/modules/pico_mld.c:740-856 | an update within one mode conveys the new state to a listener if and only if one set contains the other |
| `Multicast.CreateConveysIff` | src/picotcp/modules/pico_igmp.c:769-790 | the first report of an INCLUDE group does if and only if the sets are apart or nothing is added |
| `Multicast.ModeChangeConveys` | src/picotcp/modules/pico_igmp.c:816-847 | a change of mode or a deletion always does |
| `MulticastFrame.FrameFitsIff` | src/picotcp/modules/pico_igmp.c:904-932 | the sources fit the buffer sized by the counter if and only if there are fewer than 256 |
| `MulticastFrame.MldFitsIff` | src/picotcp/modules/pico_mld.c:865-900 | an MLD report passes its checks if and only if the number of sources in eight bits is at most 89, and then fits the buffer sized by the counter if and only if the true number is |
| `MulticastFrame.ReportVerifies` | src/picotcp/modules/pico_igmp.c:913-935 | the checksum of every report of fewer than 256 sources verifies on the wire |
| `MulticastFrame.ReportRoundTrip` | src/picotcp/modules/pico_igmp.c:913-935 | with fewer than 256 sources a listener reads back exactly the record that was to be reported |
| `MulticastFrame.WireMeans` | src/picotcp/modules/pico_igmp.c:904-935 | a listener that interprets the octets by the record types 3 to 6 hears what the report means |
| `MulticastFrame.ModeChangeHeard` | src/picotcp/modules/pico_igmp.c:816-935 | from source sets to octets: a mode change or deletion of fewer than 256 sources reaches such a listener whole |
| `MulticastFrame.WriteSources` | src/picotcp/modules/pico_igmp.c:924-932 | the loop writes all sources behind the headers if and only if they fit |

## Left out

- Fcs.BurstDetected: says nothing about errors spread over more than sixteen bits, except through the odd-error lemma.
- FragmentRoundTrip.FragmentThenReassemble: the transport header a UDP sender prepends is part of the payload here; fragments dropped for lack of memory are not modelled.
- Nat.ReplyReachesSource: packets are their addresses, ports and flags; the TCP, UDP and IP checksums recomputed after rewriting are not modelled, nor is the test that NAT is enabled on the link.
- MulticastFrame.ReportRoundTrip: IGMPv3 only; the hop-by-hop header and the layout of an MLDv2 report are not modelled.
- The contents of PPP control packets beyond the codes and options the machines look at; MD5 and passwords.
- IPv6 link and route tables over runs: the same structure as IPv4, without a broadcast link.
- Fragments.FromV6Fields: reassembly reads one field layout, that of IPv4; an IPv6 field enters it translated, offset and flag unchanged.
- PppFsm.LcpTableBounded: the table entries for events that no input raises (termination requests and acknowledgements, code and protocol rejects) are modelled, but only what every event keeps is proved about them.
- Who frees a timer that its own callback cancels.
- Drivers for tap, tun, vde, pcap, loop and null devices; socket system calls; configuration.
- TCP, UDP and socket internals; the memory manager; tree balancing.
- The packet filter: its comparator is not an order that a tree search can rely on.
- DHCP: option validation reads past its bound, and its machines add little to the PPP ones.
- The accept semaphore: one token can stand for several connections.
- Growth of the descriptor table: only map facts.
- IGMP and MLD membership timers and states; AODV, ARP, neighbour discovery, ICMP, DNS-SD.
- Queue size accounting.
