# Verified model of the provider's packet, transfer and policy core

A Dafny model of the parts of a user-space NAT provider that carry the most logic, with proofs about
them. Every theorem is stated for all inputs, all runs or all interleavings of the modelled code.

- **IP fragmentation and reassembly** (`Fragments`, `Datagrams`, `Assembly`, `Retention`, `Reassembly*`,
  `Reassembler`, `Coverage`, `FragmentParsing`, `Reissuing`, `Fragmenter`, `PieceParsing`, `Indexes`, `Parts`,
  `Feeds`, `SoloFeeds`, `SoloBudgets`, `Retransmission`, `RoundTrip`, `Uncarriable`). The cache is a class whose
  counters are tied to the sums they stand for. Each packet is one step of a state machine; evictions are chosen in
  any order map iteration may take. Runs are finite sequences of steps. The two Go types, one per family, are one
  class with the family as a parameter.
- **IP, UDP and TCP packets** (`Bytes`, `Checksum`, `Headers`, `Ipv6Ext`, `IpHeaders`, `Udp`, `UdpEndToEnd`,
  `UdpDelivery`, `TcpOptions`, `OptionReading`, `Tcp`, `TcpConnection`, `HeaderReading`, `FlowHash`, `FlowParsed`,
  `LongChains`). Writers fill arrays in place; parsers are functions, each against the layouts it accepts.
- **The synthetic TCP endpoint** (`TcpStream`, `TcpStreamRuns`, `TcpClient`, `TcpDelivery`, `TcpSequences`). Each
  critical section of the sequence lock, and the write to the upstream channel between them, is one step of its own;
  the steps of all goroutines interleave freely.
- **The dial-failure signal** (`Unreachable`, `DialFailure`, `Quotations`).
- **The transfer-frame codec** (`Wire`, `Transfer*`, `UnknownFields`, `FastPath`, `FastPathRefines`). Sizing,
  appending, decoding loops, and the fast routing parser against the full decoder.
- **The WhatsApp stream detector** (`WhatsApp`, `WhatsAppGrammar`, `WhatsAppCompletion`), against an independent
  grammar.
- **Association clustering** (`UnionFind`, `Chains`, `Assoc*`), from pair observations to published clusters.
- **Control-family demotion** (`ControlBackoff`, `ControlFamily`, `ControlFamilyRuns`).
- **The ICMP flow tracker** (`IcmpFlow`, `IcmpFlowRuns`).

Clocks, randomness (identifications, timestamps), probes, the readiness of channels and the iteration order
of maps are parameters or free choices. Integer widths are written out where they matter: sequence numbers,
window sizes and pair counts wrap at 2^32, backoff shifts at 2^64, header fields at 2^16.

`dafny verify dfyconfig.toml` checks the project.

## Where a promise fails

- *Exact retransmissions are harmless* (ip_fragment.go:345): not when the budget is nearly full. The byte
  budget is checked before the duplicate (ip_fragment.go:335), so a retransmission can be refused and its
  datagram dropped. `Retransmission.RetransmissionRefused` shows it on the packets of
  `Retransmission.ThereAreTwoFragments`. `UdpDelivery.HarmlessExactly` gives the exact condition: no delivery of
  the pieces is refused if and only if they fit the budget with any piece in place of any other.
- *Two demoted families are impossible by construction* (control_family.go:332): on one device with both
  families usable, demoting one and then the other reaches it, `ControlFamilyRuns.BothCanBeLive`.
  `ControlFamilyRuns.BecomesBothLive` gives the exact condition: the demotion checks that the other family is
  usable, not that it is live in the ledger. `ControlFamilyRuns.BothLiveNarrowsNothing` shows nothing is then
  narrowed.
- *Extension headers never change a flow's shard*: from the 16th header on the walk gives up and the ports
  leave the hash. `FlowHash.ExtensionHeadersKeepHash` gives the exact condition and `LongChains.MovedExactly` a
  flow that every longer chain moves.
- *Coalescing keeps each key's total*: modulo 2^32. `AssocPairs.TotalsKept` gives the exact condition and
  `AssocPairs.TotalLost` two observations that come out as zero.
- *The fast parser returns the decoder's path*: with several path fields it merges what the decoder
  replaces. `FastPathRefines.PathsEqualExactly` gives the exact condition, an id absent from the last path field
  must be zero in the merge of the earlier ones, and `FastPathRefines.TwoPathFieldsDiffer` shows the difference.
- *A stream that needs more can still match*: the detector checks the lengths only once they are complete.
  `WhatsAppCompletion.CanStillMatch` and `WhatsAppCompletion.OpenStreamsComplete` give the exact condition on the
  counters it keeps, and `WhatsAppCompletion.DeadStream` nine bytes for which it waits in vain. Frame lengths
  130 and 16387 pass their check and agree with no canonical hello length,
  `WhatsAppCompletion.FrameLengthsThatComplete`.
- *A piece of a fragmented IPv6 packet is a fragment*: not a piece whose payload length exceeds 65535, which the
  receiver drops, nor the one piece of a packet that fits, which it reads as an ordinary packet. Both need a
  direct call; `PieceParsing.Piece6Exactly` and `PieceParsing.FragmentedExactly6` give the exact condition,
  `Uncarriable.FirstPieceLost` and `Uncarriable.OnlyPieceIsNoFragment` one piece of each kind.
- *A segment acknowledges only what was queued*: a FIN is counted before the data that comes with it is written
  (ip.go:3074-3103), so a segment built in between acknowledges a byte that is not queued.
  `TcpStreamRuns.AcksUnqueuedExactly` gives the exact condition and `TcpStreamRuns.AckedNeverQueued` a run in which
  the byte never is.
- *The window stays within its bounds*: doubling wraps at 2^32. `TcpStreamRuns.ResizeBounded` gives the exact
  condition of one resize and `TcpStreamRuns.AlwaysBoundedExactly` that of all runs: a least window of zero or a
  largest below 2^31. In `TcpStreamRuns.WindowWraps` a run reaches zero.

## Model

| member | source | states |
|---|---|---|
| Checksum.Fold | ip.go:284-289 | the end-around-carry fold ends, stays within 16 bits and keeps the sum modulo 65535 |
| Checksum.ChecksumAdd | ip.go:273-282 | the wrapping 32-bit accumulator is the big-endian word sum of the buffer, odd tail byte included, modulo 2^32 |
| Checksum.ChecksumFinish | ip.go:284-289 | the finish loop computes the complement of the fold |
| Checksum.AccumulatorIsExact | ip.go:273-297 | for buffers up to 65535 bytes and any pseudo header the accumulator cannot wrap |
| Checksum.SealedVerifies | ip.go:284-314 | a block with its checksum stored verifies to zero; so does UDP's form, whose stored word is never zero |
| Checksum.VerifiesOnlySealed | ip.go:284-314 | conversely a block that verifies holds exactly the stored checksum, or all ones for zero |
| Headers.WriteIpv4HeaderChecksum | ip_fragment.go:582-586 | rewrites bytes 10 and 11 of a header and nothing else so that the header is sealed |
| Headers.HeaderSealedVerifies | ip_fragment.go:582-586 | every sealed header verifies to zero |
| Headers.HeaderSealedForgets | ip_fragment.go:582-586 | the seal does not depend on what the checksum field held |
| Ipv6Ext.WalkExtensionHeaders | ip_ipv6_ext.go:109-192 | the walk loop computes the iterated one-header step, at most 16 times |
| Ipv6Ext.PeeksAgreeWithWalk | ip_ipv6_ext.go:198-228 | on every packet the no-extension shortcuts return what the full walk returns |
| Ipv6Ext.WalkBounds | ip_ipv6_ext.go:109-192 | 40 <= transport offset <= payload end <= length on every successful walk |
| Ipv6Ext.FragmentIsLaidOut | ip_ipv6_ext.go:140-192 | a packet taken for a fragment has its Fragment header inside the payload, after the byte that names it with 44 |
| Ipv6Ext.WalkFindsTransport | ip_ipv6_ext.go:109-192 | on a packet carrying a valid chain of n headers: the transport after the chain if n <= 15, failure if n >= 16 |
| Ipv6Ext.WalkAcceptsExactlyChains | ip_ipv6_ext.go:109-214 | the walk reaches a transport if and only if the packet carries a valid chain of at most 15 headers |
| FlowHash.Hash | ip.go:545-560 | the byte loop is the fold of the hash step |
| FlowHash.FnvLawful | ip.go:545-560 | FNV-1a and the xor mix satisfy the one law the hash theorems need |
| FlowHash.EqualKeysPinTogether | ip.go:545-629 | fragments with equal reassembly keys, of either family, get equal flow hashes |
| FlowHash.HashOfChain | ip.go:575-629 | through up to 15 extension headers a TCP or UDP packet hashes by addresses and ports |
| FlowHash.HashOfLongChain | ip.go:575-629 | from the 16th extension header on the ports drop out of the hash |
| FlowHash.ExtensionHeadersKeepHash | ip.go:545-629 | adding extension headers keeps a flow's hash if and only if at most 15 result or the ports hash to zero |
| FlowParsed.Parsed4Hash | ip.go:545-597 | an unfragmented IPv4 packet hashes its addresses and its ports or echo identifier, whatever its options |
| FlowParsed.Parsed6Hash | ip.go:598-629 | the same for IPv6 behind any extension headers |
| FlowParsed.FlowPinsTogether | ip.go:545-629 | packets with one pair of addresses and ports hash alike, whatever options or extension headers they carry |
| LongChains.PacketCarries | ip_ipv6_ext.go:109-192 | for every n that the length field can name, a packet of one flow behind a valid chain of n option headers |
| LongChains.MovedExactly | ip.go:545-629 | n headers keep the FNV-1a hash of that flow if and only if n <= 15 |
| Fragments.ParseWellFormed | ip_fragment.go:251-299 | every piece either parser lets through is well formed: bounds, length multiple of 8 unless last, offset limit, key, cost |
| Datagrams.ScanClear | ip_fragment.go:340-356 | the overlap scan is clear exactly when no retained fragment overlaps |
| Datagrams.SecondHeaderUnreachable | ip_fragment.go:377-381 | in every reachable datagram the branch for a second, different offset-zero header size cannot fire |
| Datagrams.OfferKeepsPartial | ip_fragment.go:340-401 | offering a piece keeps the datagram a sound partial tiling, whichever branch is taken |
| Assembly.IsTiling | ip_fragment.go:416-426 | the completeness loop accepts exactly gapless tilings of the final length |
| Assembly.Assemble | ip_fragment.go:427-445 | the copy loops and header rewrite give prefix, payloads in order, and the family's rewritten header |
| Assembly.WholeLength | ip_fragment.go:427-431 | the assembled packet is as long as the header part and the final length together |
| Assembly.RewrittenLength4 | ip_fragment.go:439-445 | the IPv4 total-length field holds the length of the assembled packet |
| Assembly.RewrittenLength6 | ip_ipv6_fragment.go:325-328 | the IPv6 payload-length field holds the length of the assembled payload |
| Assembly.Reissue | ip_fragment.go:446-468 | a completed fragment handed back gets the fresh identification, DF cleared and a sealed header, in its own buffer |
| Retention.TotalStore | ip_fragment.go:388-401 | storing a datagram moves every additive count by the difference of the loads |
| Retention.TotalDrop | ip_fragment.go:529-546 | dropping a datagram takes exactly its load off every count |
| Reassembler.Reassembler.constructor | ip_fragment.go:173-178 | an empty cache that satisfies the invariant |
| Reassembler.Reassembler.Process | ip_fragment.go:243-479 | one packet through either family's cache: result and new state are those of the specified step, invariant kept |
| Reassembler.Reassembler.TakeFragment | ip_fragment.go:340-479 | duplicate, conflict, limits, retention and completion, decided and stored as specified |
| Reassembler.Reassembler.Complete | ip_fragment.go:427-479 | completion writes the whole packet and gives up the fragments to the pool or to the caller |
| Reassembler.Reassembler.Detach | ip_fragment.go:529-546 | removes one datagram and takes its bytes off the total and the per-source count |
| Reassembler.Reassembler.Release | ip_fragment.go:523-527 | returns every buffer of one datagram |
| Reassembler.Reassembler.Expire | ip_fragment.go:513-521 | drops exactly the datagrams 15 seconds old or more, whatever the iteration order |
| Reassembler.Reassembler.ReleaseOldest | ip_fragment.go:493-574 | evicts a least recently updated eligible datagram, or reports that there is none |
| Reassembler.Reassembler.ReleaseUntil | ip_fragment.go:303-330 | evicts one oldest datagram after another until the need is met or nothing eligible is left |
| Reassembler.Reassembler.MakeDatagramRoom | ip_fragment.go:481-488 | leaves room for one more datagram under the limit of 16 |
| Reassembler.Reassembler.Close | ip_fragment.go:576-580 | returns every retained buffer exactly once |
| ReassemblyRuns.StepInv | ip_fragment.go:243-479 | every step keeps the invariant: totals within budget and quotas, 16 datagrams of at most 64 fragments, none empty, sound tilings |
| ReassemblyRuns.RunInv | ip_fragment.go:243-580 | the invariant holds after every run |
| ReassemblyRuns.RunSound | ip_fragment.go:340-445 | in every interleaved run a reassembled packet is made of exactly the completing fragment and the fragments the cache still retains under its key, none timed out, all of which arrived; they tile it without gap or overlap, and its length fits 16 bits |
| ReassemblyRuns.RunFresh | ip_fragment.go:513-521 | after a fragment is processed no datagram is 15 seconds old or more |
| ReassemblyExact.OfferExactly | ip_fragment.go:340-401 | an offered fragment is refused, taken for a repetition or kept exactly as the bytes held say: an exact copy is dropped; any other that shares a byte position, ends the datagram elsewhere or is too many or too long poisons it |
| ReassemblyExact.CompleteExactly | ip_fragment.go:403-426 | complete if and only if a last fragment is held and every byte up to its end is borne by some fragment |
| ReassemblyExact.RunExactly | ip_fragment.go:243-479 | in every run each packet is answered, and its datagram left, exactly as the bytes retained under its key and not timed out say: a shared byte position poisons the datagram unless the fragment is an exact copy |
| ReassemblyExact.RunAnnounced | ip_fragment.go:364-386 | in every run the end a datagram expects is the one a last fragment it holds announced, and there is none without |
| Coverage.TilesExactly | ip_fragment.go:416-426 | sorted fragments that do not overlap tile the datagram if and only if they bear every byte of it |
| Coverage.MoreIsFlag | ip_fragment.go:291-292 | a fragment announces more exactly when the bit of its flags says so |
| ReassemblyAdmission.AdmittedExactly | ip_fragment.go:302-338 | a fragment of a held datagram has room exactly beside everything not timed out; one of a new datagram exactly when budget and share could hold it alone, since older ones make way |
| ReassemblyAdmission.NoNeedNoRelease | ip_fragment.go:302-338 | with room there is no release |
| ReassemblyAdmission.MakesWay | ip_fragment.go:302-338 | a new datagram displaces the least recently updated: of all, or of its own source where that has its fill |
| ReassemblyAdmission.OthersLeft | ip_fragment.go:302-338 | a piece leaves the other datagrams as they were: all that are not timed out if its own is held, and those not evicted otherwise |
| FragmentParsing.Reads4 | ip_fragment.go:251-299 | on any bytes: not a fragment, malformed under its key, or the piece with its offset, flag, header and payload, exactly as the header bytes say |
| FragmentParsing.Reads6 | ip_ipv6_fragment.go:129-181 | the same for any IPv6 packet the walk ends at a Fragment header that splits |
| FragmentParsing.WholeOrPiece4 | ip.go:106-128 | an IPv4 packet read whole is no piece; one that is no piece is read whole if and only if its lengths agree |
| FragmentParsing.WholeOrPiece6 | ip.go:130-162 | an IPv6 packet the walk can follow is read whole or taken for a piece, never both |
| Reissuing.ReissuedParses | ip_fragment.go:446-468 | fragments handed back parse to the pieces they were, under the new identification |
| ReassemblyRuns.RunOwns | ip_fragment.go:243-580 | in every run each input buffer is retained, returned or passed on, exactly as often as it came in |
| Fragmenter.FragmentIpv4Packet | ip_fragment.go:601-637 | for packets of any length the exact error conditions, and otherwise pieces that carry consecutive cuts with the right flags, offset, lengths (modulo 2^16) and sealed headers |
| Fragmenter.FragmentIpv6Packet | ip_ipv6_fragment.go:484-530 | the exact error conditions, and otherwise pieces with Fragment headers that carry consecutive cuts |
| Fragmenter.CutsCover | ip_fragment.go:615-637 | the cuts are consecutive, aligned, at most the fragment size, and cover the payload exactly |
| PieceParsing.Piece4Parses | ip_fragment.go:251-299 | an IPv4 piece of several parses to its own key, place and length |
| PieceParsing.Piece4Exactly | ip_fragment.go:251-299 | a built IPv4 piece is a fragment to the receiver if and only if it is not the whole payload |
| PieceParsing.Piece6Parses | ip_ipv6_fragment.go:129-181 | an IPv6 piece of several that its length field can carry parses to its own key, place and length |
| PieceParsing.UncarriablePiece6 | ip_ipv6_fragment.go:484-530 | every piece whose payload length overflows its 16-bit field is not taken for a fragment |
| PieceParsing.AtomicPiece6 | ip_ipv6_fragment.go:509-527 | the one piece of a packet that fits is an atomic fragment: no fragment to the receiver, which reads the whole transport from it |
| PieceParsing.Piece6Exactly | ip_ipv6_fragment.go:129-181 | a built IPv6 piece is a fragment to the receiver if and only if its length field can carry it and it is not the whole payload |
| PieceParsing.FragmentedExactly6 | ip_ipv6_fragment.go:484-530 | what the fragmenter makes under an MTU is a fragment if and only if there are several pieces and this one is at most 65535 bytes after the fixed header |
| Parts.OfferKnown | ip_fragment.go:340-352 | a part already held is an exact retransmission |
| Parts.OfferNew | ip_fragment.go:340-405 | a part not yet held is kept, whichever parts are |
| Parts.CompleteIffAll | ip_fragment.go:403-445 | the datagram completes if and only if it holds every part, and then assembles to the same packet |
| Feeds.StepFrame | ip_fragment.go:243-479 | a packet of another datagram leaves this one unchanged or gone |
| Feeds.FeedTracks | ip_fragment.go:243-479 | through any feed the cache holds exactly the parts taken so far |
| Feeds.FeedDelivers | ip_fragment.go:243-479 | in any order, with repetitions and other traffic, the last missing part gives the whole packet and earlier ones are held |
| SoloFeeds.AdmittedIffAffordable | ip_fragment.go:302-338 | a part of a lone message is admitted if and only if it fits beside the bytes retained |
| SoloFeeds.SoloExact | ip_fragment.go:302-352 | a part of a lone message is refused if and only if it does not fit, a retransmission included |
| SoloFeeds.DistinctPartsFit | ip_fragment.go:302-338 | without retransmissions it suffices that all parts together fit budget and quota |
| SoloFeeds.RepeatedPartFits | ip_fragment.go:335-352 | with retransmissions it suffices that all parts fit together with the repeated one in place of a missing one |
| SoloFeeds.TimelyIsSolo | ip_fragment.go:302-352 | within the timeout and with room for any part in place of any other, no order and no retransmission meets a refusal |
| SoloBudgets.NeverRefusedExactly | ip_fragment.go:302-352 | no timely delivery of a lone message is refused, whatever the order and the retransmissions, if and only if the parts fit the budget with any part in place of any other |
| Retransmission.RetransmissionRefused | ip_fragment.go:335-352 | two fragments that fit the budget together, of which an exact retransmission is refused: the budget check comes before the duplicate check |
| Retransmission.ThereAreTwoFragments | ip_fragment.go:335-352 | the bytes of two such fragments |
| RoundTrip.PiecesAreParts4 | ip_fragment.go:601-637 | every piece of the fragmenter is the reassembler's part at its place |
| RoundTrip.PiecesAreParts6 | ip_ipv6_fragment.go:484-530 | the same for IPv6 |
| RoundTrip.RoundTrip4 | ip_fragment.go:243-637 | reassembling the pieces in any order gives back the packet but for identification, flags, length and checksum |
| RoundTrip.RoundTrip6 | ip_ipv6_fragment.go:129-530 | reassembling the pieces in any order gives back the packet byte for byte |
| Uncarriable.PieceCarries | ip_ipv6_fragment.go:484-530 | the largest IPv6 packet and the first piece the fragmenter makes of it under such an MTU |
| Uncarriable.FirstPieceLost | ip_ipv6_fragment.go:129-181 | that piece is not taken for a fragment |
| Uncarriable.OnlyPieceIsNoFragment | ip_ipv6_fragment.go:509-527 | eight bytes of payload in one piece, read as an ordinary packet |
| IpHeaders.TransportChecksum | ip.go:291-297 | the wrapping sum over pseudo header and transport |
| IpHeaders.ChecksumExact | ip.go:291-297 | exact for every transport an IP packet can carry |
| IpHeaders.WriteIpv4Header | ip.go:299-314 | every byte of the header, sealed; nothing after it changes |
| IpHeaders.WriteIpv6Header | ip.go:316-326 | every byte of the header; nothing after it changes |
| IpHeaders.BuiltParses | ip.go:106-162 | a packet its length field can describe parses back to protocol, addresses and transport |
| IpHeaders.ParseIpv6IsWalk | ip.go:130-162 | the parser accepts exactly the unfragmented walks and returns their transport |
| Udp.UdpPacket | ip.go:2008-2038 | ports, length, payload, and the checksum with zero replaced by all ones |
| Udp.UdpReceived | ip.go:164-178 | a describable datagram is read back as sent |
| HeaderReading.Parse4Exactly | ip.go:106-128 | accepted if and only if laid out as a header of its length, the transport and bytes past it, unfragmented |
| HeaderReading.ParseUdpExactly | ip.go:164-178 | accepted if and only if laid out as ports, length, any checksum, the payload and bytes past it |
| HeaderReading.ParseTcpExactly | ip.go:180-204 | accepted if and only if laid out as the fixed header, options that list what was read, and the payload |
| Udp.UdpVerifies | ip.go:2008-2038 | its checksum verifies and is never zero |
| Udp.DataPackets | ip.go:1970-2004 | one datagram, or its fragments when it exceeds the MTU, or the exact refusal |
| Udp.PlanExactly | ip.go:1970-2004 | whole exactly when the packet fits, in fragments exactly when it does not but can be described and cut, and which refusal otherwise |
| UdpEndToEnd.PiecesFitMtu | ip.go:1970-2004 | every piece fits the MTU |
| UdpEndToEnd.PiecesAreParts | ip.go:1970-2004 | every piece is the part of the datagram at its place |
| UdpEndToEnd.EndToEnd | ip.go:1970-2038 | for every payload and MTU that fragments, any feed of the pieces gives the datagram back: byte for byte (v6), up to the rewritten fields (v4), parsing to the ports, addresses and payload sent |
| UdpDelivery.DeliveryIsFeed | ip_fragment.go:243-352 | any delivery of the pieces, in order of arrival times only, into a cache with room is a feed in which all are admitted |
| UdpDelivery.EveryOrderDelivers | ip.go:1970-2038 | into an empty cache with room for any piece in place of any other, in every order within the timeout and with any retransmissions, the last missing piece gives back the datagram, byte for byte (v6) or up to the rewritten fields (v4), with the ports, addresses and payload sent |
| UdpDelivery.HarmlessExactly | ip_fragment.go:302-352 | for the pieces of every datagram: none is refused in any timely delivery with retransmissions if and only if they fit the budget and the quota with any of them in place of any other |
| WhatsApp.WhatsAppStream.Consume | ip_security_appstandard.go:537-661 | one segment: the verdict and the state kept are those of the byte-at-a-time parser |
| WhatsApp.WhatsAppStream.Advance | ip_security_appstandard.go:537-661 | one turn of the loop, skips of info and key bytes included |
| WhatsApp.ParseConcat | ip_security_appstandard.go:523-661 | parsing a concatenation is parsing the parts one after the other |
| WhatsApp.SegmentationIndependent | ip_security_appstandard.go:523-661 | for every split into segments the verdict and end position are those of the whole stream |
| WhatsApp.Noise | ip_security_appstandard.go:665-669 | the one-shot detector and where the key ends |
| WhatsApp.Follow | ip_security_appstandard.go:537-661 | folding the object over segments gives the verdict of the whole stream |
| WhatsAppGrammar.MatchesExactlyGrammar | ip_security_appstandard.go:523-661 | a stream matches at `end` if and only if it is edge prefix, header, frame length, canonical hello varint agreeing with it, 32-byte key, ending there |
| WhatsAppGrammar.OneEnd | ip_security_appstandard.go:523-661 | the grammar fixes at most one end |
| WhatsAppGrammar.VerdictIsFinal | ip_security_appstandard.go:523-661 | after a mismatch nothing can complete a prefix, and a match stands whatever follows |
| WhatsAppGrammar.SegmentsMatchGrammar | ip_security_appstandard.go:523-661 | for every division into segments, a match at `end` if and only if the grammar holds up to there |
| WhatsAppGrammar.NeverCompletes | ip_security_appstandard.go:590-640 | no frame of the grammar has length 130 or 16387, although both pass the frame check |
| WhatsAppCompletion.CanStillMatch | ip_security_appstandard.go:523-661 | in every state of the detector some continuation matches if and only if the lengths read so far can still agree |
| WhatsAppCompletion.OpenStreamsComplete | ip_security_appstandard.go:523-661 | a stream that needs more can still be brought into the grammar if and only if the state it leaves is completable |
| WhatsAppCompletion.FrameLengthsThatComplete | ip_security_appstandard.go:596-640 | of the frame lengths in range, all but 130 and 16387 begin a frame of the grammar |
| WhatsAppCompletion.EncodableIsAnnounced | ip_security_appstandard.go:613-636 | the closed form of that set: a frame length some canonical hello length agrees with |
| WhatsAppCompletion.DeadStream | ip_security_appstandard.go:596-640 | nine bytes for which the detector asks for more and which nothing completes |
| Wire.SizeVarint | frame_protobuf.go:37-44 | the size loop counts the bytes of the encoding |
| Wire.AppendVarint | frame_protobuf.go:46-52 | the append loop writes the encoding |
| Wire.VarintRoundTrip | frame_protobuf.go:37-63 | reading an encoded 64-bit number gives it back |
| Wire.FieldsRoundTrip | frame_protobuf.go:57-63 | parsing encoded fields gives them back in order |
| TransferEncoding.SizeFrame | frame_protobuf.go:67-79 | size of a frame is the length of its encoding |
| TransferEncoding.AppendFrame | frame_protobuf.go:81-96 | append of a frame writes its encoding |
| TransferEncoding.SizePath | frame_protobuf.go:102-114 | size of a path is the length of its encoding |
| TransferEncoding.AppendPath | frame_protobuf.go:116-133 | append of a path writes its encoding, zero ids absent |
| TransferEncoding.SizePack | frame_protobuf.go:161-193 | size of a pack body is the length of its encoding, nested prefixes included |
| TransferEncoding.AppendPack | frame_protobuf.go:198-238 | append of a pack body writes its encoding |
| TransferEncoding.SizePackFrame | frame_protobuf.go:241-260 | size of a pack frame is the length of its encoding |
| TransferEncoding.AppendPackFrame | frame_protobuf.go:266-289 | append of a pack frame writes its encoding, each length prefix equal to its body's length |
| TransferEncoding.MarshalPack | frame_protobuf.go:294-304 | the computed size is exactly the length appended |
| TransferEncoding.SizeAck | frame_protobuf.go:323-339 | size of an ack body is the length of its encoding |
| TransferEncoding.AppendAck | frame_protobuf.go:344-361 | append of an ack body writes its encoding |
| TransferEncoding.SizeAckFrame | frame_protobuf.go:365-376 | size of an ack frame is the length of its encoding |
| TransferEncoding.AppendAckFrame | frame_protobuf.go:381-394 | append of an ack frame writes its encoding |
| TransferEncoding.MarshalAck | frame_protobuf.go:399-407 | the computed size is exactly the length appended |
| TransferDecoding.DecodeTagLoop | frame_protobuf.go:448-475 | the loop computes the field-by-field decoding |
| TransferDecoding.DecodeFrameLoop | frame_protobuf.go:477-525 | the loop computes the field-by-field decoding |
| TransferDecoding.DecodePathLoop | frame_protobuf.go:527-562 | the loop computes the field-by-field decoding |
| TransferDecoding.DecodePackLoop | frame_protobuf.go:564-661 | the loop computes the field-by-field decoding |
| TransferDecoding.DecodeAckLoop | frame_protobuf.go:663-719 | the loop computes the field-by-field decoding, field 8 skipped |
| TransferDecoding.Unmarshal | frame_protobuf.go:725-842 | the loop computes the field-by-field decoding, with and without the path |
| TransferExact.UnmarshalExactly | frame_protobuf.go:725-842 | on every buffer, with or without the path: accepted if and only if its fields parse and each has its type, and then each member is what the last field of its number says |
| TransferExact.NestedExactly | frame_protobuf.go:448-719 | the same for paths, frames, tags, packs and acks; the frames of a pack are all of theirs in order |
| TransferExact.EncryptedRoundTrip | frame_protobuf.go:800-842 | path, ciphertext, role and companion flag of an encrypted frame come back as encoded, with or without the path |
| UnknownFields.SkipsExactly | frame_protobuf.go:830-842 | a value of any wire type, groups in groups included, is skipped whole if its groups are at most 10001 deep and refused otherwise |
| UnknownFields.WrongEnd | frame_protobuf.go:830-842 | a group ended with another number is refused |
| UnknownFields.MessageReads | frame_protobuf.go:725-842 | a message of fields of any wire type parses to its fields in order |
| UnknownFields.UnknownPassBy | frame_protobuf.go:830-842 | fields a transfer frame does not have change nothing, wherever they stand |
| TransferRoundTrip.FrameRoundTrip | frame_protobuf.go:67-96 | a frame decodes to itself |
| TransferRoundTrip.PathRoundTrip | frame_protobuf.go:102-133 | the ids of a path come back, zero ones as absent |
| TransferRoundTrip.PackRoundTrip | frame_protobuf.go:161-238 | a pack body decodes to every field |
| TransferRoundTrip.AckRoundTrip | frame_protobuf.go:323-361 | an ack body decodes to every field but the skipped eighth, which disturbs nothing |
| TransferRoundTrip.PackFrameRoundTrip | frame_protobuf.go:241-304 | every pack frame unmarshals to what it was built from |
| TransferRoundTrip.AckFrameRoundTrip | frame_protobuf.go:365-407 | every ack frame unmarshals to what the decoder reads |
| FastPath.ReadVarintAt | frame_protobuf.go:855-870 | the index loop reads within its limit, bits above the 64th lost |
| FastPath.ParseFilteredTransferPath | frame_protobuf.go:851-976 | the closure-driven parser, in bounds on every buffer, computes the specified scan |
| FastPathRefines.BothAccept | frame_protobuf.go:725-976 | on every buffer both accept, the fast parser merges the path fields where the decoder keeps the last |
| FastPathRefines.PathsEqualExactly | frame_protobuf.go:725-976 | on every buffer both accept the two paths are equal if and only if every id the last path field leaves out is zero in the merge of the earlier ones |
| FastPathRefines.FastPathRefinesDecoder | frame_protobuf.go:725-976 | with exactly one path field the two paths are equal |
| FastPathRefines.PackIsRouted | frame_protobuf.go:851-976 | the fast parser finds the path of every encoded pack frame |
| FastPathRefines.AckIsRouted | frame_protobuf.go:851-976 | and of every encoded ack frame |
| FastPathRefines.TwoPathFieldsDiffer | frame_protobuf.go:851-976 | with two path fields both accept and the paths differ |
| UnionFind.Sets.Find | ip_assoc.go:658-664 | path halving changes no root and returns the root |
| UnionFind.Sets.Union | ip_assoc.go:666-672 | merges exactly the two sets, under the first one's root |
| AssocPairs.Coalesce | ip_assoc.go:635-655 | every observed key once, ascending, with its total modulo 2^32 |
| AssocPairs.TotalsKept | ip_assoc.go:635-655 | the total itself is kept if and only if it is below 2^32 |
| AssocPairs.TotalLost | ip_assoc.go:635-655 | two observations of 2^31 coalesce to zero |
| AssocNames.MergeByName | ip_assoc.go:763-778 | two entities end in one set if and only if a chain of shared names links them |
| AssocNodes.Number | ip_assoc.go:784-796 | kept sets are numbered densely, a lower number to the set met first |
| AssocCsr.Build | ip_assoc.go:800-820 | row `k` of the packed table lists the positions of key `k` in order |
| AssocGraph.Remap | ip_assoc.go:822-840 | each node pair once, with all observations of its entity pairs summed, pairs inside a node gone |
| AssocGraph.NodeCounts | ip_assoc.go:797-806 | a node counts what its entities count |
| AssocGraph.Components | ip_assoc.go:846-870 | two nodes share a root if and only if a chain of associations links them |
| AssocGraph.KeepNodes | ip_assoc.go:871-879 | exactly the nodes of components of 2 to the maximum size |
| AssocGraph.BuildAdjacency | ip_assoc.go:884-922 | symmetric; each two nodes weigh the capped probability of their pair in a kept component |
| AssocWeights.NodePairCount | ip_assoc.go:822-840 | the count of a node pair is the sum, modulo 2^32, of the observations of all entity pairs across the two nodes |
| AssocWeights.BondExactly | ip_assoc.go:858-871 | two nodes are associated if and only if they were seen together and both were active |
| AssocWeights.WeightExactly | ip_assoc.go:884-922 | they weigh the observations of their entities over the activity of the rarer one, at most 1, in a kept component, and nothing elsewhere |
| AssocWeights.NumberedExactly | ip_assoc.go:846-879 | a node is clustered with others if and only if chains of associations link 2 to the maximum number of nodes to it; two such nodes share a component if and only if they are linked |
| AssocWeights.TwoNodesExactly | ip_assoc.go:822-1001 | the two nodes of a component end in one cluster if and only if they were seen together at least the threshold times the activity of the rarer one |
| AssocWeights.CohesiveExactly | ip_assoc.go:1005-1058 | a cluster of any size meets the threshold if and only if each member's associations with the members add up to the threshold times the number of the others |
| AssocSplit.FindWeakest | ip_assoc.go:1030-1041 | the first member of the lowest mean, and that mean |
| AssocSplit.SplitOff | ip_assoc.go:1046-1060 | removing a member keeps every other member's running sum exact |
| AssocSplit.Split | ip_assoc.go:1010-1065 | cluster plus rest is exactly the pool; each member split off was the first weakest, below the threshold; the survivors all meet it, or fewer than two were left |
| AssocClusters.Emit | ip_assoc.go:924-934 | every entity of the nodes gets the whole cluster, no other entry changes |
| AssocClusters.ClusterPool | ip_assoc.go:978-989 | one turn of the pool loop: survivors emitted, every node clustered or left; without progress nothing changed and the whole pool peels away |
| AssocClusters.ClusterComponent | ip_assoc.go:973-990 | the pool loop ends; earlier clusters stay as they were, new ones lie inside the component, and the nodes no cluster took are exactly a pool that peels away to fewer than two |
| AssocClusters.CohesiveNeverPeels | ip_assoc.go:1006-1065 | a group that meets the threshold never peels away, so no nodes left over form one |
| AssocClusters.ClusterNames | ip_assoc.go:992-1001 | afterwards every node of several entities is in a cluster |
| AssocClusters.OwnersCluster | ip_assoc.go:924-1001 | clusters are disjoint, of two distinct entities or more, each entity's entry its own cluster |
| AssocClustering.ClusterEntities | ip_assoc.go:744-1004 | the whole pass: disjoint clusters of two or more, linked names together, each a single named node or a cohesive group inside one component, exact components and weights, and the loose nodes of every component a pool that peels away |
| AssocClustering.SharingIsLinked | ip_assoc.go:763-778 | entities that share a base name are linked, hence always together |
| AssocPublish.StepInv | ip_assoc.go:458-540 | every step of shed, recording, pass and publication keeps the protocol invariant |
| AssocPublish.RunFresh | ip_assoc.go:458-540 | under every interleaving the published clusters are empty or come only from activity after the latest shed |
| AssocPublish.RunFollows | ip_assoc.go:458-540 | in every run a pass holds what was recorded at its capture and whether a shed or an activity came since |
| AssocPublish.PassExactly | ip_assoc.go:478-540 | a pass that reaches its end publishes if and only if no shed came since its capture and its clusters differ from those it saw; the clusters are those of what it captured, under the next version |
| AssocPublish.PassGoesOn | ip_assoc.go:478-540 | a pass can start exactly when none runs and activity came since the last capture; and whatever the others do, a started pass can go on to its end |
| AssocPublish.OnlyThesePublish | ip_assoc.go:458-540 | only the end of a pass and a shed change what is published |
| AssocPublish.ShedPublishes | ip_assoc.go:458-474 | a shed publishes empty clusters, under the next version exactly where there were any |
| AssocPublish.RunVersion | ip_assoc.go:458-540 | under every interleaving the version rises by exactly one at each publication |
| AssocPublish.ShedEmpties | ip_assoc.go:458-474 | right after a shed nothing is published, whatever pass is under way |
| ControlBackoff.BackoffIsPromised | control_family.go:246-252 | for every strike count the 64-bit shift with its guards is min(5 min * 2^(strikes-1), 6 h) |
| ControlFamily.Ledger.Demote | control_family.go:205-259 | refused unless Auto and the other family is usable; a live entry is kept, otherwise one more strike and its backoff |
| ControlFamily.Ledger.Undemote | control_family.go:307-317 | removes exactly that family's entry and says whether there was one |
| ControlFamily.Ledger.Clear | control_family.go:320-329 | empties the ledger |
| ControlFamily.Ledger.LiveDemotion | control_family.go:365-400 | the demotion that applies, in any iteration order, and the entries the read lifts |
| ControlFamily.Ledger.DialNetwork | control_family.go:93-144 | the network dialed under each policy, and the one case that fails |
| ControlFamily.NarrowedExactly | control_family.go:93-144 | a name dial under Auto is narrowed away from a family if and only if it alone is live and the other's probe holds at that read |
| ControlFamily.DemotionNeverFails | control_family.go:93-144 | a dial fails exactly when the policy forbids its explicit family; no demotion ever fails one |
| ControlFamily.ReadTwice | control_family.go:365-400 | a read leaves nothing behind that the next read would lift |
| ControlFamilyRuns.LiveIntervalsDisjoint | control_family.go:205-259 | in every run live intervals of a family never overlap and strikes rise exactly once for each |
| ControlFamilyRuns.LiveIsLastInterval | control_family.go:205-400 | a family is live if and only if its last interval reaches past the clock |
| ControlFamilyRuns.StruckExactly | control_family.go:205-259 | in every run a family is struck exactly by a demotion under Auto while not live and the other usable; its entry counts the strikes since it was last removed and lasts the backoff promised for that count |
| ControlFamilyRuns.RemovedExactly | control_family.go:307-400 | it leaves the ledger exactly when taken off, when the ledger is cleared, or when it alone is live at a read with the other family unusable |
| ControlFamily.ForcedNeverOther | control_family.go:93-144 | under a forced policy a name is never dialed over the other family |
| ControlFamily.DialedAsGiven | control_family.go:93-144 | an address, an explicit family and any other network are dialed as they stand |
| ControlFamilyRuns.BecomesBothLive | control_family.go:205-259 | a step makes both families live if and only if it is a demotion under Auto, the other family usable, while that other family is live |
| ControlFamilyRuns.BothLiveInRun | control_family.go:205-400 | in every run both are live if and only if the last interval of each reaches past the clock |
| ControlFamilyRuns.BothCanBeLive | control_family.go:365-400 | a run of one device, both families usable throughout, after which both are live |
| ControlFamilyRuns.BothLiveNarrowsNothing | control_family.go:365-400 | and then a name dial is not narrowed |
| IcmpFlow.Tracker.Register | ip_icmp_flow_limit.go:34-48 | evicts as specified, then tracks the flow with the next order number |
| IcmpFlow.Tracker.EvictFor | ip_icmp_flow_limit.go:53-104 | victims are least recently active first, ties by registration: of the source while its cap is met, then of all while the global cap is met |
| IcmpFlow.PickFrom | ip_icmp_flow_limit.go:53-77 | in any iteration order, the oldest eligible flow |
| IcmpFlow.Tracker.Release | ip_icmp_flow_limit.go:109-121 | removes one flow from total, per-source count and order, or nothing |
| IcmpFlowRuns.RunCapped | ip_icmp_flow_limit.go:34-121 | in every run under fixed settings both caps hold after every step |
| IcmpFlowRuns.EvictsExactly | ip_icmp_flow_limit.go:53-104 | in every run a registration evicts at most one flow: the least recently active of its source at that cap, else of all at the global cap, ties by registration |
| IcmpFlowRuns.DecrementedOnce | ip_icmp.go:751-763 | in every run the count is flows registered less flows gone: cancel, close and eviction in any order decrement once |
| IcmpFlowRuns.TotalIsSum | ip_icmp_flow_limit.go:34-121 | the total is the number of tracked flows and the sum of the per-source counts |
| TcpOptions.ParseTcpOptions | ip.go:210-259 | the loop computes the recursive option parse, stopping at a malformed tail |
| OptionReading.OptionsExactly | ip.go:210-259 | the options read are the last of each kind and size the endpoint knows, whatever else is listed and whatever ends the list |
| OptionReading.ReadsLast | ip.go:210-259 | any bytes are such a list |
| TcpOptions.SynAckOptionsParse | ip.go:3269-3325 | the SYN-ACK options parse back to MSS (floored at 536), scale (capped at 14) and timestamps |
| TcpOptions.SegmentOptionsParse | ip.go:3345-3357 | the options of other segments parse back to the timestamps alone |
| Tcp.WriteTcp | ip.go:2040-2054 | every header field, the options and the data, nothing before them changed |
| Tcp.BuildTcp | ip.go:3482-3511 | IP header, segment and checksum over all of it |
| Tcp.TcpReceived | ip.go:180-205 | every describable segment is read back with ports, numbers, flags, window, options and data |
| Tcp.TcpVerifies | ip.go:3500-3511 | its checksum verifies over the pseudo header |
| TcpConnection.SynAck | ip.go:3269-3338 | refused exactly when the MTU cannot carry the headers; otherwise the unscaled window and the negotiated options |
| TcpConnection.SynAckReceived | ip.go:3269-3338 | the peer reads the negotiated MSS, scale and timestamps |
| TcpConnection.Control | ip.go:3359-3414 | an empty segment at the current numbers with the negotiated timestamp |
| TcpConnection.RstAck | ip.go:3415-3440 | a reset without options |
| TcpConnection.TcpPacket | ip.go:3482-3511 | a data segment with the given number |
| TcpConnection.DataPackets | ip.go:3441-3480 | refused exactly when the MTU is too small; otherwise one segment for each cut of the data |
| TcpConnection.SegmentsAddUp | ip.go:3441-3480 | the segments concatenate to the input with contiguous numbers, each within the MTU and the peer's budget |
| TcpConnection.SegmentsAreFull | ip.go:3441-3480 | every segment keeps within the MTU and the peer's MSS, and each but the last could not carry one byte more |
| TcpConnection.DataDelivered | ip.go:3441-3511 | the data read from the segments, one after the other, is the input |
| TcpStream.StepInv | ip.go:2535-3157 | every critical section of every goroutine keeps the frontiers: how far the next expected number is ahead of or behind the bytes queued at each point of the loop, and the next sent number |
| TcpStreamRuns.RunInv | ip.go:2535-3157 | in every interleaving of the critical sections: next expected number = SYN number + 1 + what was counted, which is level with the bytes queued between segments, one ahead after a counted FIN and behind by data written but not counted; next sent = SYN number + 1 + bytes sent (+ 1 after FIN) |
| TcpStreamRuns.QueuedIsTaken | ip.go:3048-3137 | in every interleaving the bytes queued are the data of the segments taken, each of which started exactly at the frontier |
| TcpStreamRuns.NextIffAtFrontier | ip.go:3051-3055 | within 2^32 of the frontier a segment passes the sequence test if and only if it starts there |
| TcpStreamRuns.StreamIntegrity | ip.go:3024-3137 | for a client that sends one stream in any order and as often as it likes, repeats its SYN, probes behind the frontier and acknowledges past its FIN, the bytes queued are always a prefix of the stream, and all of it once the FIN was taken |
| TcpStreamRuns.AcksUnqueuedExactly | ip.go:3048-3131 | in every run of a client the next expected number has passed a byte that is not queued if and only if a FIN that came with data is counted and the data not yet written |
| TcpStreamRuns.AckedNeverQueued | ip.go:3074-3103 | a run that acknowledges such a byte and, the write being cancelled, never queues it, whatever follows |
| TcpStreamRuns.RepeatAddsNothing | ip.go:3051-3055 | in every interleaving, a segment whose data was queued is not accepted again within 2^32 bytes |
| TcpStreamRuns.QueuedGrows | ip.go:3083-3131 | what was queued stays queued, so acknowledged positions never move back |
| TcpStreamRuns.DataWithinWindow | ip.go:2872-2903 | data goes out only as far as the client's window |
| TcpStreamRuns.WindowFollowsWrites | ip.go:3084-3126 | a payload counts as waiting or not; a window's worth later the window doubles in 32 bits, halves or stays by how much of it waited |
| TcpStreamRuns.ScaleDownExactly | ip.go:3139-3171 | falls back to the least window, or does nothing there, and closes only when told |
| TcpClient.RunKnows | ip.go:2535-2600 | in every run the window that gates sending is the field of the last accepted acknowledgement that was not behind, scaled as the SYN offered; options and acknowledged position are the client's own |
| TcpClient.SendsWithinOffer | ip.go:2872-2903 | data goes out only as far past the client's acknowledgement as the window it offered with it |
| TcpClient.SendsWhatFits | ip.go:2872-2903 | and it goes out whenever it fits |
| TcpClient.EchoCame | ip.go:3056-3066 | the echoed timestamp came with the SYN or an accepted acknowledgement |
| TcpClient.EchoMovesForward | ip.go:3056-3066 | it never moves back and takes every stamp ahead of it |
| TcpDelivery.WaitsForSyn | ip.go:2535-2647 | before the SYN nothing else moves the sequence; the SYN opens or ends it |
| TcpDelivery.IterationTakes | ip.go:3037-3137 | a segment that continues the stream is queued whole and counted with its FIN, after which the loop is left |
| TcpDelivery.IterationLeaves | ip.go:3037-3072 | any other segment changes nothing, except a RST, which ends the sequence wherever it points |
| TcpDelivery.LoopAlone | ip.go:2838-3171 | whatever the other goroutines do in between, the upward stream is what the loop alone would make it |
| TcpDelivery.FedExactly | ip.go:3037-3137 | of pieces lost, repeated and reordered in any way, exactly those that came after all before them are queued, in order |
| TcpDelivery.StreamComesThrough | ip.go:3037-3137 | the whole stream is queued if and only if every piece came at some time after all before it had come in turn |
| TcpDelivery.RunTold | ip.go:2960-3012 | in every run the number last told the client follows all that was counted at that moment |
| TcpStreamRuns.ResizeBounded | ip.go:3106-3126 | a resize keeps the window within its bounds if and only if doubling does not wrap below the least window |
| TcpStreamRuns.WindowBounded | ip.go:3106-3150 | with a least window of zero or a largest below 2^31 the window stays within its bounds in every run |
| TcpStreamRuns.AlwaysBoundedExactly | ip.go:3106-3150 | the window stays within its bounds in every run if and only if the least is zero or the largest below 2^31 |
| TcpStreamRuns.FedWraps | ip.go:3106-3126 | for every other setting, a run of one-byte segments after which the doubled window has wrapped |
| TcpStreamRuns.WindowWraps | ip.go:3109-3109 | with bounds 1 and 2^31 a run brings the window to zero |
| TcpStreamRuns.AdvertisedWindow | ip.go:3233-3238 | the window field never promises more than the window and loses only the bits the scale drops |
| TcpSequences.TcpSequence.constructor | ip.go:2379-2385 | the initial window clamped to its bounds |
| TcpSequences.TcpSequence.HandleSyn | ip.go:2535-2647 | the first SYN sets both frontiers and the negotiated options and is answered before its number is counted, unless the MTU or the dial fails |
| TcpSequences.TcpSequence.HandleSegment | ip.go:3037-3072 | the first critical section: reset, drop, or accept with the acknowledgement taken |
| TcpSequences.TcpSequence.HandleFin | ip.go:3074-3083 | the second: a FIN is counted ahead of its data |
| TcpSequences.TcpSequence.WritePayload | ip.go:3085-3103 | without the lock: the payload is queued and charged as waiting or not, or the write is cancelled |
| TcpSequences.TcpSequence.CountPayload | ip.go:3104-3137 | the third: the window is resized and the payload counted; after a FIN the loop ends |
| TcpSequences.TcpSequence.Acknowledge | ip.go:3056-3066 | window, acknowledged position and newest timestamp move only when the acknowledgement is not behind |
| TcpSequences.TcpSequence.ResizeWindow | ip.go:3106-3126 | doubles, halves or keeps the window and resets the counts |
| TcpSequences.TcpSequence.HandleScaleDown | ip.go:3139-3171 | falls back to the least window when idle |
| TcpSequences.TcpSequence.HandleRead | ip.go:2851-2910 | data from upstream becomes segments at the current numbers and advances them |
| TcpSequences.TcpSequence.HandleEof | ip.go:2925-2948 | the FIN is sent before its number is counted |
| TcpSequences.TcpSequence.HandlePureAck | ip.go:2960-3012 | acknowledges everything counted so far |
| TcpSequences.AckReadExactly | ip.go:2960-3012 | from every segment built in a run the client reads an acknowledgement of exactly what was counted; it takes in a byte not queued if and only if a counted FIN waits for its data to be written |
| TcpSequences.SegmentsContinue | ip.go:2872-2903 | in every run the data segments continue the numbering of all that was sent before |
| Unreachable.BuildEmbed | ip_packet.go:552-594 | the embedded datagram byte for byte: empty UDP, or the SYN with the flow's sequence number |
| Unreachable.HeaderIs | ip_packet.go:526-540 | the header the writers leave is the only one their contract allows |
| Unreachable.BuildUnreachable | ip_packet.go:157-217 | refused exactly for other versions and protocols; otherwise the signal of the flow byte for byte |
| DialFailure.SignalParses | ip_packet.go:242-420 | the signal of a flow parses to that flow in wire form |
| DialFailure.NormalSignal | ip_packet.go:526-550 | only the wire form of a flow shows in its signal |
| DialFailure.EgressPath | ip_packet.go:292-302 | accepts a packet if and only if it is the signal of some flow, and returns that flow's addresses, ports and sequence number |
| DialFailure.ReturnPath | ip_packet.go:272-281 | the reversed flow, if and only if the packet is that flow's signal |
| DialFailure.SignalNamesFlow | ip_packet.go:157-302 | flows with one signal are one flow on the wire |
| DialFailure.SignalVerifies | ip_packet.go:157-217 | the checksums of the message, of the datagram in it and of both IPv4 headers verify |
| DialFailure.SignalReads | ip_packet.go:157-217 | the signal parses as an ICMP packet from the flow's destination to its source |
| DialFailure.SignalCode | ip_packet.go:66-116 | the code tells a failed TCP dial from a UDP teardown, in either family |
| DialFailure.SignalBytes | ip_packet.go:66-116 | the type and code bytes for each version and protocol |
| Quotations.Quoted6Exactly | ip_packet.go:341-420 | a quoted IPv6 packet names a flow if and only if its headers lead, unfragmented and in at most 15 steps, to eight bytes of TCP or UDP |
| Quotations.QuotationNamesFlow | ip_packet.go:341-440 | the start of any unfragmented packet, cut anywhere past eight bytes of its transport, names the flow of the whole packet |

## Left out

- Sockets, dialing, DNS, egress binding, timers and goroutine scheduling: operating-system behaviour; the critical sections of the TCP endpoint are atomic steps.
- `ipFragmentGate`: one lock around one cache of each family; it would add a dispatch on the version nibble and nothing else.
- Cross-source fairness of reassembly: the limit of 16 datagrams evicts by age whatever the source, so only the byte quotas are stated.
- TCP acknowledgement progress across a sequence wrap: the code compares acknowledgement numbers as plain unsigned integers, so that they always advance is not claimed.
- TCP timestamps: their values are parameters, and only the rule for the echoed value is modelled.
- TCP write side: what happens to payloads after they enter the write channel (partial socket writes, timeouts) is not modelled.
- UDP `DataPackets` buffer reuse: the single-packet path shares a pooled buffer with the caller; packets are values here.
- Message-pool buffers: identities that are counted; capacity and reuse are not modelled.
- `pickShard`: the shard is the hash modulo the shard count and adds nothing to equality of hashes.
- FlowHash.ExtensionHeadersKeepHash: stated for every hash with the xor law; that FNV-1a has it is `FlowHash.FnvLawful`, its distribution is not modelled.
- Floating point: association means are exact rationals over `real`, and the window scale is the exact least shift rather than a rounded logarithm.
- AssocPublish.RunFresh: generation and version counters are unbounded; the 64-bit wrap is not modelled.
- AssocClustering.ClusterEntities: node activity counts are unbounded and cancellation inside a pass is the abort step of the publish protocol; the result of a cancelled pass is not modelled.
- AssocWeights.WeightExactly: for pairs packed with the smaller index first, as every pair the aggregation packs is; the probability is an exact rational.
- UnknownFields.SkipsExactly: for varints in their shortest form; other forms are read by the same functions.
- TcpDelivery.StreamComesThrough: for a stream of fewer than 2^32 bytes, within which a sequence number names one position.
- AssocPairs.SortPairs: the library sort is an insertion sort with the same observable result.
- IcmpFlow.Tracker.Register: last-activity times are read as one snapshot for each registration.
- FastPath.ParseFilteredTransferPath: the parser's index and limits are the remaining slice, except in the varint loop, which keeps them.
- TransferRoundTrip.PackFrameRoundTrip: for messages whose encoding is shorter than 2^64 bytes, which every buffer in memory is.
- RoundTrip.RoundTrip4: for packets of at most 65535 bytes, all that an IPv4 length field can name.
- UdpDelivery.EveryOrderDelivers: for a cache that holds nothing else; other traffic in between is `Feeds.FeedDelivers`.
- IPv4 header options and fragments of options: copied as the first fragment carries them; the meaning of option kinds is not modelled.
- Path-MTU signals, resets toward the source and other out-of-sequence builders: single-branch members.
- HTTP API, JWT, wallet, governor, disk audit, cryptography, other protocol detectors: library calls or single-branch predicates.
