# qrtplib in Dafny

A verification model of `qrtplib`, the RTP/RTCP engine of SDRangel (a port of JRTPLIB that
implements RFC 3550).  It follows the C++ classes file by file: objects that update their
fields are classes whose methods take the same branches and loops, and every method is
proved against a specification that says what its result means.  The main results are about
all inputs, all call sequences or all runs.

`dafny verify dfyconfig.toml` checks everything.

## What is proved

* **The compound packet builder and its readers** (`CompoundFormat`, `CompoundSizes`,
  `CompoundCalls`, `CompoundWriter`, `CompoundBuilder`, `RtcpHeader`, `RtcpPackets`,
  `SdesFormat`, `SdesPacket`, `CompoundParser`, `RtcpReaders`, `CompoundRoundTrip`).  Every
  size predictor gives the size the packet really gets; `EndBuild` writes exactly that many
  bytes, and its packets tile the buffer in the order reports, SDES, APP, BYE and are accepted
  by their own classes.  The SDES scan accepts exactly the bodies of the chunk grammar, and
  the iterators visit exactly the items spelled there.  `ParseData` accepts exactly the
  data that valid packets tile, and there is only one such tiling.  Building and then parsing
  gives everything back, on every host exactly when its length words, its 32-bit fields and
  its loss counts can be read back there.
* **Two results that differ from the documentation.**  The first `AddSDESSource` is let in
  without its 12 bytes, so it can take a packet over its maximum.  After that the unsigned
  difference in `StartSenderReport` and `StartReceiverReport` wraps around, so a report can
  still be started: a packet can be 40 bytes over.  `RunBound` says exactly which call
  sequences stay within the maximum, and `FortyBytesOver` is a sequence that meets the worst
  case.
* **Reading on a little-endian host.**  `RTPEndian::qToHost` changes nothing on either kind of
  host while the writers use network order, so multi-byte fields read back only on a
  big-endian host, or when their bytes are a palindrome.  The host order is a parameter of
  every reader, and the round trips of a field, a report block, a whole compound packet and a
  whole RTP packet state that condition as an if-and-only-if.  On a little-endian host no
  compound packet of less than 1028 bytes is taken apart at all (`LittleEndianRefuses`).
* **What the packets are** (`WireLayout`, `PacketGrammar`, `Padding`, `CallHistory`).  Every
  field stands where RFC 3550 puts it, with the offsets written out.  A packet is of a known
  format exactly if its content in front of the padding spells the fields of its kind, and
  padding is transparent: the padded packet is known iff the other is, and reads the same.
  A compound packet holds exactly what the calls that were let in have added, and whatever
  fits is let in.
* **The report builder** (`ReportPass`, `SdesCycle`, `ReportBuilder`, `ReportRuns`).
  `BuildNextPacket` and `BuildBYEPacket` never fail and never exceed their maximum once the
  builder is initialised; the worst cases are 552 and 560 of the 600 bytes.  Report blocks go
  to exactly the pending sources, in order, up to the count or the first that does not fit;
  over several packets, inside and outside cycles, a source gets a second block before the
  processed flags are cleared only if it left the table and joined it again in between.  The
  SDES items get their turn after at most as many packets as there were sources without a
  block and sources that have joined since.  Without the latter there is no
  bound: `CycleHeldUp` is a run of any length in which the items never get their turn.  An
  SDES cycle sends every due item once, in order, in at most six resumed packets.
* **A source can be reported twice in one packet** (`TopUp`).  When a cycle ends in the packet
  it starts in, a second pass makes up for the sources that were skipped, but begins at the
  front of the table.  `ReportedTwice` says exactly when that gives one source two blocks,
  and `TwiceInOnePacket` is a run of a new builder that gets there.
* **What the reports say** (`BlockContents`, `PacketReception`).  Field by field, a block tells
  the state of its source; over any number of reports the intervals join, so that the loss
  told is the sum of what was lost in them.  A receiver finds in every packet of the builder
  the report, the CNAME and the BYE that were put there.
* **The scheduler and the session** (`SchedulerModel`, `Scheduler`, `CollisionList`,
  `SchedulerLaws`, `SessionModel`, `SessionLaws`, `Session`).  The members together stay
  within the RTCP bandwidth; minimum spacing, bounded response and BYE back-off hold over
  whole runs.  Over runs of polls, and of data sent and delays asked for between them, the
  BYE queue is first in, first out, one per expired timer, and the scheduler waits for a BYE packet exactly while one is queued, except from a send
  that failed while others waited until the next BYE packet is sent; `FailureStalls` is a run
  that gets there.  Two new SSRCs because of the same address are more than the collision
  multiplier times half the minimum interval apart, over any run with a clock.
* **How long the intervals are** (`SchedulerLaws`).  When the packets of a group fit its share,
  its interval is exactly the minimum, or half of it before the first packet; otherwise the
  packets take up exactly the share.  When members leave, what is left on the timer and what
  has passed shrink in proportion to them, so that the timer never runs out later, and
  members who leave one after the other count as if they had left together.
* **The hash table** (`OrderedEntries`, `KeyHashTable`).  Nodes linked into a bucket and into
  the list at once behave as an insertion-ordered map with distinct keys, with a cursor that
  survives deletion; a scan that deletes on a condition visits every entry once and leaves
  exactly the others.
* **The rand48 generator** (`Rand48`).  The 64-bit wrap-around is invisible, the period is
  exactly 2^48 from every seed, and every state occurs.
* **RTP packets** (`RtpFormat`, `RtpPacket`), **the reception queue** (`ReceptionQueue`) and
  **the private SDES items** (`SdesInfo`): round trip, order and conservation, and refinement
  of a map, each with the exact condition under which it holds.

## Conventions

Clock readings, random draws, results of sends and callbacks, and whatever the source table
tells are parameters.  Times are `real`.  Sizes are unbounded, except where a
wrap-around or a cut to 32 bits matters.  C++ packet subclasses are the constructors of one
datatype.  Each class has a ghost value or a `Valid()` that ties its fields to the
specification functions the lemmas are about.

## Model

| member | source | states |
|---|---|---|
| `RtcpHeader.HeaderFields` | qrtplib/rtcpcompoundpacketbuilder.cpp:477-517 | the header written for a packet has version 2, no padding, the count and the type; its length word announces the packet's size iff the size is at most 262144 and the word reads back on the host |
| `Bytes.ReadBig16` | qrtplib/rtpendian.h:26-30 | a 16-bit field written in network order and read with qToHost comes back iff the host is big-endian or its two bytes are equal |
| `Bytes.ReadBig32` | qrtplib/rtpendian.h:26-30 | the same for 32 bits: big-endian host or a byte palindrome |
| `SdesFormat.ScanMeansGrammar` | qrtplib/rtcpsdespacket.cpp:59-134 | a packet body passes the scan iff it is spelled by exactly `count` chunks of the grammar of section 6.5 of RFC 3550 and nothing else, and these chunks are the only ones |
| `SdesFormat.WireItemReads` | qrtplib/rtcpsdespacket.h:246-379 | an ordinary or private item read through the getters is the value that was written |
| `SdesFormat.ChunkAt` | qrtplib/rtcpsdespacket.h:175-210 | the bytes at the position of chunk k spell chunk k |
| `SdesFormat.ItemAt` | qrtplib/rtcpsdespacket.h:212-301 | the bytes at the position of item j of chunk k are its header and data |
| `SdesFormat.ItemsEnd` | qrtplib/rtcpsdespacket.h:225-244 | behind the last item of a chunk is the terminating zero |
| `RtcpPackets.ScanChunk` | qrtplib/rtcpsdespacket.cpp:78-126 | the inner loop accepts a chunk iff one can be parsed there, and consumes exactly its size |
| `RtcpPackets.ScanChunks` | qrtplib/rtcpsdespacket.cpp:59-134 | the outer loop accepts iff exactly `count` chunks fill the body |
| `RtcpPackets.NewSDES` | qrtplib/rtcpsdespacket.cpp:38-137 | knownFormat iff padding is sound and the body is well formed, for arbitrary bytes |
| `RtcpPackets.NewSR` | qrtplib/rtcpsrpacket.cpp:38-65 | knownFormat iff the unpadded length is that of a sender report with `count` blocks |
| `RtcpPackets.NewRR` | qrtplib/rtcprrpacket.cpp:38-65 | the same for receiver reports |
| `RtcpPackets.NewBYE` | qrtplib/rtcpbyepacket.cpp:38-70 | knownFormat iff the SSRCs fit and the reason, if there is one, fits behind them; where the reason starts |
| `RtcpPackets.NewAPP` | qrtplib/rtcpapppacket.cpp:38-62 | knownFormat iff SSRC and name fit; the length of the data without padding |
| `RtcpPackets.StripPadding` | qrtplib/rtcpsrpacket.cpp:48-56 | the padding check: refused iff the pad count is no multiple of four or swallows the packet |
| `SdesPacket.RTCPSDESPacket.constructor` | qrtplib/rtcpsdespacket.cpp:38-137 | the iterators start on no chunk; the chunks they will visit are those the bytes spell |
| `SdesPacket.RTCPSDESPacket.GotoFirstChunk` | qrtplib/rtcpsdespacket.h:162-173 | stands on item 0 of chunk 0 iff there is a chunk |
| `SdesPacket.RTCPSDESPacket.GotoNextChunk` | qrtplib/rtcpsdespacket.h:175-200 | moves to the start of the next chunk iff there is one, past items, zero and padding, and else changes nothing |
| `SdesPacket.RTCPSDESPacket.GetChunkSSRC` | qrtplib/rtcpsdespacket.h:202-210 | the SSRC of the current chunk, 0 without one |
| `SdesPacket.RTCPSDESPacket.GotoFirstItem` | qrtplib/rtcpsdespacket.h:212-223 | stands on the first item iff the chunk has one |
| `SdesPacket.RTCPSDESPacket.GotoNextItem` | qrtplib/rtcpsdespacket.h:225-244 | moves to the next item iff there is one; on the last the cursor stays |
| `SdesPacket.RTCPSDESPacket.GetItemType` | qrtplib/rtcpsdespacket.h:246-277 | the type of the current item, none without one |
| `SdesPacket.RTCPSDESPacket.GetItemData` | qrtplib/rtcpsdespacket.h:279-301 | length and data of the current item |
| `SdesPacket.RTCPSDESPacket.GetPRIV` | qrtplib/rtcpsdespacket.h:304-379 | prefix and value of a private item, nothing for other items or when the prefix length does not fit |
| `SdesPacket.RTCPSDESPacket.WalkItems` | qrtplib/rtpsources.cpp:454-478 | the item loop reads every item of the chunk once, in order |
| `SdesPacket.RTCPSDESPacket.Walk` | qrtplib/rtpsources.cpp:448-486 | the chunk loop visits every chunk of the packet and every item in it, once and in order |
| `CompoundParser.ParseMeansTiling` | qrtplib/rtcpcompoundpacket.cpp:99-186 | data is accepted iff some valid packets tile it, the first an SR or RR, all version 2, padding only on the last; the tiling is unique |
| `CompoundParser.SplitSound` | qrtplib/rtcpcompoundpacket.cpp:99-186 | what the parser splits off is valid and tiles the data |
| `CompoundParser.SplitComplete` | qrtplib/rtcpcompoundpacket.cpp:99-186 | any valid pieces laid end to end are split into these pieces again |
| `CompoundParser.RTCPCompoundPacket.ParseData` | qrtplib/rtcpcompoundpacket.cpp:99-186 | the loop accepts arbitrary data iff a tiling exists and then lists its packets; on failure the packet list is empty |
| `CompoundParser.RTCPCompoundPacket.constructor` | qrtplib/rtcpcompoundpacket.cpp:48-73 | the same from a raw packet, which is refused when it came in on the RTP port |
| `CompoundParser.NewPacket` | qrtplib/rtcpcompoundpacket.cpp:151-172 | the dispatch on the packet type creates the packet object of these bytes |
| `CompoundSizes.ReportPiecesSize` | qrtplib/rtcpcompoundpacketbuilder.h:175-197 | the report packets of a list of blocks take 24 bytes a block, 8 a packet of 31, and 20 for sender info |
| `CompoundSizes.SdesPiecesSize` | qrtplib/rtcpcompoundpacketbuilder.h:313-331 | the SDES packets take their chunks and four bytes a packet of 31 |
| `CompoundBuilder.ReportNeeded` | qrtplib/rtcpcompoundpacketbuilder.h:175-197 | NeededBytes of the report is the size of the packets EndBuild writes for it |
| `CompoundBuilder.ReportNeededWithBlock` | qrtplib/rtcpcompoundpacketbuilder.h:199-212 | the predictor for one more block is that size after the block was added |
| `CompoundBuilder.SourceNeededIsSize` | qrtplib/rtcpcompoundpacketbuilder.h:240-249 | NeededBytes of a source is the size of its chunk, padding included |
| `CompoundBuilder.SdesNeededBytes` | qrtplib/rtcpcompoundpacketbuilder.h:313-331 | NeededBytes of the SDES part is the size of the packets EndBuild writes for it |
| `CompoundBuilder.SdesNeededBytesWithExtraItem` | qrtplib/rtcpcompoundpacketbuilder.h:333-352 | the predictor for one more item is that size after the item was added; 0 without a source |
| `CompoundBuilder.SdesNeededBytesWithExtraSource` | qrtplib/rtcpcompoundpacketbuilder.h:354-376 | the predictor for one more source is that size after it was added, except that it is 0 for the first source |
| `CompoundCalls.PerformBound` | qrtplib/rtcpcompoundpacketbuilder.cpp:123-445 | one call keeps the packet within its maximum iff it was within it and the call is not a first source with less than 12 bytes left |
| `CompoundCalls.RunBound` | qrtplib/rtcpcompoundpacketbuilder.cpp:83-445 | over any sequence of calls the packet stays within its maximum iff no first source came with less than 12 bytes left; it is never more than 40 bytes over |
| `CompoundCalls.RunBoundReportFirst` | qrtplib/rtcpcompoundpacketbuilder.cpp:123-445 | when sources come after the report was started, the packet is at most 12 bytes over |
| `CompoundCalls.FortyBytesOver` | qrtplib/rtcpcompoundpacketbuilder.cpp:123-179 | a sequence of three calls that makes a packet of maximum size 600 exactly 640 bytes long |
| `CompoundCalls.OutgrowsBuffer` | qrtplib/rtcpcompoundpacketbuilder.cpp:103-121 | a packet outgrows the buffer it is built into iff a first source came with less than 12 bytes of it left, and by at most 40 bytes |
| `CompoundCalls.ApplySize` | qrtplib/rtcpcompoundpacketbuilder.cpp:123-445 | no call makes the packet shorter; starting a report adds at most 28 bytes, the first source exactly 12 |
| `CompoundBuilder.RTCPCompoundPacketBuilder.InitBuild` | qrtplib/rtcpcompoundpacketbuilder.cpp:83-101 | starts building iff nothing is being built, nothing was built, and the maximum is at least 600; else the error of the first check that fails and no change |
| `CompoundBuilder.RTCPCompoundPacketBuilder.InitBuildInto` | qrtplib/rtcpcompoundpacketbuilder.cpp:103-121 | the same for a buffer of the caller's |
| `CompoundBuilder.RTCPCompoundPacketBuilder.StartSenderReport` | qrtplib/rtcpcompoundpacketbuilder.cpp:123-154 | let in iff no report was started and it fits, or the packet is over its maximum already; then the packet says it and else nothing changes |
| `CompoundBuilder.RTCPCompoundPacketBuilder.StartReceiverReport` | qrtplib/rtcpcompoundpacketbuilder.cpp:156-179 | the same for a receiver report |
| `CompoundBuilder.RTCPCompoundPacketBuilder.AddReportBlock` | qrtplib/rtcpcompoundpacketbuilder.cpp:181-212 | let in iff a report was started and the packet with the block fits |
| `CompoundBuilder.RTCPCompoundPacketBuilder.AddSDESSource` | qrtplib/rtcpcompoundpacketbuilder.cpp:214-230 | let in iff the packet with the source fits, or it is the first source and the packet is within its maximum |
| `CompoundBuilder.RTCPCompoundPacketBuilder.AddSDESNormalItem` | qrtplib/rtcpcompoundpacketbuilder.cpp:232-289 | let in iff there is a source, the type has an id and the packet with the item fits |
| `CompoundBuilder.RTCPCompoundPacketBuilder.AddSDESPrivateItem` | qrtplib/rtcpcompoundpacketbuilder.cpp:292-328 | let in iff there is a source, prefix and value fit one item and the packet with the item fits |
| `CompoundBuilder.RTCPCompoundPacketBuilder.AddBYEPacket` | qrtplib/rtcpcompoundpacketbuilder.cpp:331-395 | let in iff there are at most 31 SSRCs and the packet fits |
| `CompoundBuilder.EncodeBye` | qrtplib/rtcpcompoundpacketbuilder.cpp:339-389 | the buffer of a BYE packet is the spelling of its SSRCs and reason, padded to a word |
| `CompoundBuilder.RTCPCompoundPacketBuilder.AddAPPPacket` | qrtplib/rtcpcompoundpacketbuilder.cpp:397-445 | let in iff subtype and length are legal and the packet fits |
| `CompoundBuilder.RTCPCompoundPacketBuilder.EndBuild` | qrtplib/rtcpcompoundpacketbuilder.cpp:447-629 | writes exactly the size of everything added, namely its spelling, and lists the packets that tile it |
| `CompoundBuilder.RTCPCompoundPacketBuilder.Layout` | qrtplib/rtcpcompoundpacketbuilder.cpp:454-625 | the buffer has the predicted size, or is the caller's, and is filled with the spelling |
| `CompoundWriter.WriteReports` | qrtplib/rtcpcompoundpacketbuilder.cpp:471-523 | the report loops write the report packets of the header and blocks, 31 blocks to a packet |
| `CompoundWriter.WriteNextReport` | qrtplib/rtcpcompoundpacketbuilder.cpp:475-523 | one turn of the report loop writes the first of the packets left, and leaves the others |
| `CompoundWriter.WriteNextSdes` | qrtplib/rtcpcompoundpacketbuilder.cpp:531-588 | one turn of the SDES loop writes the first of the packets left, and leaves the others |
| `CompoundWriter.WriteSdes` | qrtplib/rtcpcompoundpacketbuilder.cpp:527-590 | the SDES loops write the SDES packets of the sources, 31 chunks to a packet, each chunk padded |
| `CompoundWriter.WriteCollected` | qrtplib/rtcpcompoundpacketbuilder.cpp:592-622 | the APP and BYE loops copy the collected packets, one behind the other |
| `CompoundWriter.WriteReportPacket` | qrtplib/rtcpcompoundpacketbuilder.cpp:475-523 | one report packet: header data and up to 31 of the remaining blocks, count and length filled in afterwards |
| `CompoundWriter.WriteSource` | qrtplib/rtcpcompoundpacketbuilder.cpp:543-576 | one chunk: SSRC, items, zero byte, padding |
| `CompoundRoundTrip.PiecesWritten` | qrtplib/rtcpcompoundpacketbuilder.cpp:447-629 | the packets of any buildable state are word-aligned, of version 2, without padding and accepted by their own class, in the order reports, SDES, APP, BYE, and together are the spelling |
| `CompoundRoundTrip.ParsesBack` | qrtplib/rtcpcompoundpacket.cpp:99-186 | the parser finds the packets EndBuild wrote iff every length word reads back on the host |
| `CompoundRoundTrip.SdesPieceChunks` | qrtplib/rtcpsdespacket.cpp:38-137 | the scan accepts every SDES packet EndBuild writes and finds its chunks |
| `CompoundRoundTrip.SdesRoundTrip` | qrtplib/rtcpsdespacket.h:162-379 | walking the SDES packets in order visits exactly the added sources and items, in order, on any host; only SSRCs depend on its byte order |
| `CompoundRoundTrip.WholeReads` | qrtplib/rtcpcompoundpacket.cpp:99-186 | on any host, the packets of a compound read as its contents with every 32-bit field as the host sees it and loss counts cut to 24 bits |
| `CompoundRoundTrip.ReportsRead` | qrtplib/rtcprrpacket.h:121-201 | what header, sender information and blocks come back as on any host, across however many packets they took: each 32-bit field as the host sees it, loss counts cut to 24 bits, nothing else changed |
| `CompoundRoundTrip.AppsRead` | qrtplib/rtcpapppacket.h:88-127 | what the APP packets come back as on any host: only the SSRCs depend on it |
| `CompoundRoundTrip.ByesRead` | qrtplib/rtcpbyepacket.h:89-135 | what the BYE packets come back as on any host: the reasons always, the SSRCs as the host sees them |
| `CompoundRoundTrip.CompoundRoundTrip` | qrtplib/rtcpcompoundpacket.cpp:99-186 | for every compound packet and every host: it is parsed into the packets written and they give back all that was added iff every length word reads back, every loss count fits 24 bits, and the host is big-endian or every 32-bit field is a byte palindrome; on a big-endian host all length words of up to 262144 bytes read back |
| `CompoundRoundTrip.SeenIsAdded` | qrtplib/rtcprrpacket.h:121-201 | what is read is what was added iff every loss count fits 24 bits and the host is big-endian or every 32-bit field of header, sender information, blocks, sources, APP and BYE packets is a byte palindrome |
| `CompoundRoundTrip.LittleEndianRefuses` | qrtplib/rtcpcompoundpacket.cpp:99-150 | on a little-endian host no compound packet of less than 1028 bytes is taken apart: its first length word announces more than there is |
| `CompoundRoundTrip.SmallestReportRefused` | qrtplib/rtcpcompoundpacket.cpp:99-150 | the failing input: an 8-byte receiver report, whose length word announces 1028 bytes on a little-endian host |
| `RtcpReaders.LostRoundTrip` | qrtplib/rtcprrpacket.h:159-169 | the 24-bit loss field gives the count back iff it lies in [-2^23, 2^23), and else its low 24 bits sign-extended |
| `RtcpReaders.BlockRoundTrip` | qrtplib/rtcprrpacket.h:143-201 | a report block reads back iff its loss count fits 24 bits and the host is big-endian or every field is a byte palindrome |
| `ReportPass.CompletePass` | qrtplib/rtcppacketbuilder.cpp:321-501 | with room for all, a pass that is not full leaves no eligible source unreported |
| `ReportPass.NoSecondBlock` | qrtplib/rtcppacketbuilder.cpp:309-319 | between flag clears a source, told by its SSRC, is covered by two passes only if it has joined the table again in between; other sources may join, leave and change |
| `ReportPass.PassProgress` | qrtplib/rtcppacketbuilder.cpp:321-501 | a pass that hands out a block leaves fewer sources of the table without one |
| `ReportPass.BlocksMeanCovered` | qrtplib/rtcppacketbuilder.cpp:321-501 | a pass has a block about exactly the SSRCs of the pending sources it covers |
| `ReportPass.OneBlockEach` | qrtplib/rtcppacketbuilder.cpp:321-501 | and never two about the same |
| `SdesCycle.CycleSendsEachOnce` | qrtplib/rtcppacketbuilder.cpp:503-620 | however a cycle is cut into packets, once all is sent each due item has been sent exactly once, in order |
| `SdesCycle.SentToMeans` | qrtplib/rtcppacketbuilder.cpp:503-620 | what one packet sends are exactly the due items up to where it stopped that were not sent before, each once, in order |
| `SdesCycle.CycleLength` | qrtplib/rtcppacketbuilder.cpp:503-620 | when every packet sends something the cycle takes at most as many packets as items are left, six at most |
| `ReportBuilder.SixHundredSuffices` | qrtplib/rtpdefines.h:39 | sender report, CNAME and one more item of 255 bytes take at most 552 bytes; with a report block instead, 320 |
| `ReportBuilder.ByeSuffices` | qrtplib/rtcppacketbuilder.cpp:627-735 | sender report, CNAME and a BYE packet with a reason take at most 560 bytes |
| `ReportBuilder.FirstBlockFits` | qrtplib/rtcppacketbuilder.cpp:188-198 | the first report block of a packet always fits |
| `ReportBuilder.FirstItemFits` | qrtplib/rtcppacketbuilder.cpp:262-272 | the first item of a resumed cycle always fits |
| `ReportBuilder.RTCPPacketBuilder.Init` | qrtplib/rtcppacketbuilder.cpp:55-91 | the limits that are refused; CNAME cut at 255 bytes; all flags clear and no item due |
| `ReportBuilder.RTCPPacketBuilder.SetLocalItem` | qrtplib/rtcppacketbuilder.h:215-220 | items longer than 255 bytes are refused |
| `ReportBuilder.RTCPPacketBuilder.FillInReportBlocks` | qrtplib/rtcppacketbuilder.cpp:321-501 | adds, in list order, exactly the blocks of the pending sources up to the count or the first that does not fit, and marks these sources; atendoflist iff none is pending any more |
| `ReportBuilder.RTCPPacketBuilder.NoneLeft` | qrtplib/rtcppacketbuilder.cpp:455-499 | the search at the end says whether a pending source is left |
| `ReportBuilder.RTCPPacketBuilder.FillInSDES` | qrtplib/rtcppacketbuilder.cpp:503-620 | adds the due items in the order NAME, EMAIL, LOC, PHONE, TOOL, NOTE, up to the first that does not fit; processedall iff none is left |
| `ReportBuilder.RTCPPacketBuilder.StartPacket` | qrtplib/rtcppacketbuilder.cpp:113-181 | report, source and CNAME go into every packet, without fail, in at most 296 bytes |
| `ReportBuilder.RTCPPacketBuilder.ReportsFirst` | qrtplib/rtcppacketbuilder.cpp:183-255 | outside a cycle: blocks for all pending sources; if they all fit, a cycle starts |
| `ReportBuilder.RTCPPacketBuilder.StartCycle` | qrtplib/rtcppacketbuilder.cpp:200-254 | a cycle starts with the items now due, all flags cleared, and blocks for skipped sources behind the last item |
| `ReportBuilder.RTCPPacketBuilder.ResumeItems` | qrtplib/rtcppacketbuilder.cpp:256-295 | inside a cycle: items first, at least one, then blocks when all items are sent |
| `ReportBuilder.RTCPPacketBuilder.BuildNextPacket` | qrtplib/rtcppacketbuilder.cpp:101-307 | never fails, never exceeds its maximum, writes the spelling of one of the three kinds of packet; in a cycle something is left to send, outside one all item flags are clear |
| `ReportBuilder.RTCPPacketBuilder.BuildBYEPacket` | qrtplib/rtcppacketbuilder.cpp:627-735 | never fails; at most 560 bytes: report, CNAME and our BYE with the reason cut at 255 bytes |
| `ReportRuns.FinishedCycle` | qrtplib/rtcppacketbuilder.cpp:183-295 | over a run of packets a finished cycle has sent every item due in it exactly once, in order, whatever changed in between, in at most six packets after the first |
| `ReportRuns.NoSourceTwice` | qrtplib/rtcppacketbuilder.cpp:183-255 | over a run of packets inside and outside cycles, sources joining and leaving between them: while no packet in between clears the flags, a source with a block in the last pass of one packet has one in the opening pass of a later packet only if it has joined again in between |
| `ReportRuns.BlocksArePasses` | qrtplib/rtcppacketbuilder.cpp:183-295 | the report blocks of any packet are those of its opening pass and, when it clears the flags after that, those of the pass that follows; the table is left as the last pass has marked it |
| `ReportRuns.CycleComes` | qrtplib/rtcppacketbuilder.cpp:183-255 | reports hold a cycle up for at most as many packets as there were sources without a block at the start plus sources that have joined since |
| `ReportRuns.CycleHeldUp` | qrtplib/rtcppacketbuilder.cpp:183-255 | without the sources that join there is no bound: tables of ourselves and 14 others, all new at every packet, hold a cycle up for any number of packets, each starting from the state the one before has left |
| `ReportRuns.AtMostSix` | qrtplib/rtcppacketbuilder.cpp:256-295 | no cycle takes more than six resumed packets |
| `ReportRuns.CycleItems` | qrtplib/rtcppacketbuilder.cpp:183-295 | what the packets of a cycle have sent so far |
| `ReportRuns.ItemsAreWritten` | qrtplib/rtcppacketbuilder.cpp:503-620 | the items are in the packets, behind the CNAME, in that order |
| `SchedulerModel.MinimumSpacing` | qrtplib/rtcpscheduler.cpp:184-239 | two true results of IsTime in one run without BYE are at least half of `minInterval` over 1.21828 apart, or a quarter of it while nothing was sent and half at startup is configured, even across reverse reconsideration |
| `SchedulerModel.BoundedResponse` | qrtplib/rtcpscheduler.cpp:184-360 | when no interval exceeds d, every poll after the first call is true once 1.5 d over 1.21828, and the time a call takes, have passed since the interval started |
| `SchedulerModel.BandwidthKept` | qrtplib/rtcpscheduler.cpp:253-301 | at the deterministic interval senders and receivers together stay within the RTCP bandwidth, each group within its share when senders are few |
| `SchedulerModel.NotAgainRightAway` | qrtplib/rtcpscheduler.h:185-189 | asked again before half of `minInterval` over 1.21828 has passed, or a quarter of it before the first packet where so configured, IsTime is false |
| `SchedulerModel.ReverseOnlyRaises` | qrtplib/rtcpscheduler.cpp:321-360 | reverse reconsideration never moves the start of the interval back, since it runs only when members left |
| `SchedulerModel.KeepsBounded` | qrtplib/rtcpscheduler.cpp:184-360 | every step keeps the timer within the longest wait or the present |
| `SchedulerModel.ByeBacksOff` | qrtplib/rtcpscheduler.cpp:362-423 | in a group of 50 or more, or unless an immediate BYE was asked for, the BYE waits at least half of `minInterval` over 1.21828, or a quarter of it where half at startup is configured, over any run |
| `SchedulerModel.ByeImmediately` | qrtplib/rtcpscheduler.cpp:362-423 | otherwise the first poll after it was scheduled sends it |
| `SchedulerModel.SpreadBounds` | qrtplib/rtcpscheduler.cpp:303-319 | a random draw spreads the interval over half to one and a half times itself over 1.21828 |
| `Scheduler.RTCPSchedulerParams.SetRTCPBandwidth` | qrtplib/rtcpscheduler.cpp:60-66 | refuses exactly the values of the bandwidth that would make the parameters invalid |
| `Scheduler.RTCPSchedulerParams.SetSenderBandwidthFraction` | qrtplib/rtcpscheduler.cpp:68-74 | refuses exactly the values of the sender fraction that would make the parameters invalid |
| `Scheduler.RTCPSchedulerParams.SetMinimumTransmissionInterval` | qrtplib/rtcpscheduler.cpp:76-85 | refuses exactly the values of the minimum interval that would make the parameters invalid |
| `Scheduler.RTCPScheduler.constructor` | qrtplib/rtcpscheduler.cpp:87-98 | the initial state |
| `Scheduler.RTCPScheduler.Reset` | qrtplib/rtcpscheduler.cpp:104-112 | back to the first call, no BYE scheduled |
| `Scheduler.RTCPScheduler.AnalyseIncoming` | qrtplib/rtcpscheduler.cpp:114-140 | the average of packet sizes, or of BYE sizes and their number while we wait to send one |
| `Scheduler.RTCPScheduler.AnalyseOutgoing` | qrtplib/rtcpscheduler.cpp:142-161 | the average of packet sizes without BYE; a packet was sent |
| `Scheduler.RTCPScheduler.GetTransmissionDelay` | qrtplib/rtcpscheduler.cpp:163-182 | the step of SchedulerModel that starts the timer, and how long until it expires |
| `Scheduler.RTCPScheduler.IsTime` | qrtplib/rtcpscheduler.cpp:184-239 | the step of SchedulerModel the run lemmas are about: timer reconsideration at its expiry |
| `Scheduler.RTCPScheduler.CalculateDeterministicInterval` | qrtplib/rtcpscheduler.cpp:253-301 | the interval of section 6.3.1 of RFC 3550 for the senders or the others |
| `Scheduler.RTCPScheduler.CalculateBYETransmissionInterval` | qrtplib/rtcpscheduler.cpp:397-423 | the interval of the BYE back-off; none when it may go at once |
| `Scheduler.RTCPScheduler.PerformReverseReconsideration` | qrtplib/rtcpscheduler.cpp:321-360 | both ends of the running interval move towards the present in proportion to the members left |
| `Scheduler.RTCPScheduler.ActiveMemberDecrease` | qrtplib/rtcpscheduler.cpp:391-395 | reverse reconsideration iff members are fewer than before |
| `Scheduler.RTCPScheduler.ScheduleBYEPacket` | qrtplib/rtcpscheduler.cpp:362-389 | a BYE waits from now; nothing changes when one waits already |
| `CollisionList.RTPCollisionList.UpdateAddress` | qrtplib/rtpcollisionlist.cpp:53-77 | created iff the address was absent; else the time of its entry is renewed |
| `CollisionList.RTPCollisionList.HasAddress` | qrtplib/rtpcollisionlist.cpp:79-90 | true iff some entry has this address |
| `CollisionList.RTPCollisionList.Timeout` | qrtplib/rtpcollisionlist.cpp:92-109 | the one-pass erasing loop leaves exactly the entries not older than the check time, in order |
| `CollisionList.UpdatedTimes` | qrtplib/rtpcollisionlist.cpp:53-77 | an update changes the time of its address and of no other, and keeps addresses distinct |
| `CollisionList.KeptTimes` | qrtplib/rtpcollisionlist.cpp:92-109 | a timeout forgets exactly the addresses last seen before the check time |
| `CollisionList.ListTellsLastSeen` | qrtplib/rtpcollisionlist.cpp:53-109 | after any run the list tells for each address when it was last seen unless that has timed out since |
| `CollisionList.CreatedAgain` | qrtplib/rtpcollisionlist.cpp:53-109 | an entry is created a second time only after a timeout whose check time was later than its last sighting |
| `SessionModel.PollKeepsQueue` | qrtplib/rtpsession.cpp:995-1144 | one poll: BYE packets leave in order, at most one per expired timer, no report while one waits; the scheduler stays in step with the queue iff no send failed while more were queued, and the next BYE sent repairs that |
| `SessionModel.ByesLeaveInOrder` | qrtplib/rtpsession.cpp:995-1144 | over any run of polls, and of data sent and delays asked for between them, the BYE packets sent are the first of those queued, in order, each once; the others are still queued |
| `SessionModel.ByeScheduledIffQueued` | qrtplib/rtpsession.cpp:995-1144 | over any such run the scheduler waits for a BYE packet exactly while the queue holds one, iff the last BYE packet sent did not fail while others waited; otherwise some are queued and it does not wait |
| `SessionModel.FailureStalls` | qrtplib/rtpsession.cpp:1097-1142 | a run from a new session that ends that way: data, a collision, data, another collision, each with a new SSRC, and the first BYE packet cannot be sent |
| `SessionModel.SharesSuffice` | qrtplib/rtpsession.cpp:995-1144 | every poll is possible from every state when senders and receivers have shares of the bandwidth |
| `SessionModel.EveryPollDivides` | qrtplib/rtpsession.cpp:1079-1090 | where no arrival fails the receivers must have one: every poll divides by it, so none with a sender fraction of 1 can be polled without dividing by zero |
| `SessionModel.OneTurnMore` | qrtplib/rtpsession.cpp:351-380 | every turn of the waiting loop sends the next BYE packet exactly if its timer has expired, so the last of the queue leaves after all others |
| `SessionModel.TransmitKeepsQueue` | qrtplib/rtpsession.cpp:1092-1142 | what is sent when the timer has expired: the first BYE packet, or a report when none is queued |
| `SessionModel.OnCollision` | qrtplib/rtpsession.cpp:1022-1075 | a new SSRC exactly on the first collision with an address, if the BYE packet could be built; a BYE packet is queued only then and only if the old SSRC had sent |
| `SessionModel.RenewedAgain` | qrtplib/rtpsession.cpp:1022-1090 | over any run a second new SSRC because of the same address comes only after its entry timed out |
| `Session.RTPSession.HandleArrival` | qrtplib/rtpsession.cpp:1000-1077 | one packet that arrived: scheduler, collision list, BYE queue and SSRC as SessionModel.Receive says |
| `Session.RTPSession.HandleArrivals` | qrtplib/rtpsession.cpp:1000-1077 | the packets in order, up to the first that fails |
| `Session.RTPSession.SendDue` | qrtplib/rtpsession.cpp:1092-1142 | the timer and what is sent, as SessionModel.Transmit says |
| `Session.RTPSession.ProcessPolledData` | qrtplib/rtpsession.cpp:995-1144 | the whole poll as SessionModel.PollResult says, which the run lemmas are about |
| `Session.RTPSession.SendData` | qrtplib/rtpsession.cpp:458-477 | data that could be sent marks the SSRC as one that has sent; nothing else changes |
| `Session.RTPSession.GetRTCPDelay` | qrtplib/rtpsession.cpp:689-698 | the delay until the timer expires, which the first call starts; 0 without a session or with a thread that polls |
| `Session.RTPSession.BYEDestroy` | qrtplib/rtpsession.cpp:322-398 | our own BYE packet joins the queue last; the turns of the loop each send the next BYE packet iff its timer has expired, until all have left or the time is up; then queue, collision list and scheduler are cleared |
| `Session.RTPSession.SendByes` | qrtplib/rtpsession.cpp:351-380 | the waiting loop takes turns, one BYE packet per expired timer, until the queue is empty or the time is up |
| `KeyHashTable.RTPKeyHashTable.constructor` | qrtplib/rtpkeyhashtable.h:127-134 | an empty table; the cursor is not set |
| `KeyHashTable.RTPKeyHashTable.AddElement` | qrtplib/rtpkeyhashtable.h:274-321 | adds the entry at the end iff its key is new and its index valid; the cursor stays on its entry |
| `KeyHashTable.RTPKeyHashTable.Insert` | qrtplib/rtpkeyhashtable.h:297-320 | a node linked to the front of its bucket and to the end of the list keeps both consistent |
| `KeyHashTable.RTPKeyHashTable.LinkIntoBucket` | qrtplib/rtpkeyhashtable.h:301-305 | the bucket's chain is one longer and doubly linked, the other buckets are as before |
| `KeyHashTable.RTPKeyHashTable.LinkIntoList` | qrtplib/rtpkeyhashtable.h:309-319 | the list is one longer and doubly linked |
| `KeyHashTable.RTPKeyHashTable.Search` | qrtplib/rtpkeyhashtable.h:206-212 | the loop along a bucket finds the node with the key iff the table has one |
| `KeyHashTable.RTPKeyHashTable.GotoElement` | qrtplib/rtpkeyhashtable.h:194-216 | the cursor stands on the entry with the key, at the end when there is none, and does not move for an invalid index |
| `KeyHashTable.RTPKeyHashTable.HasElement` | qrtplib/rtpkeyhashtable.h:218-239 | true iff an entry has the key |
| `KeyHashTable.RTPKeyHashTable.GotoFirstElement` | qrtplib/rtpkeyhashtable.h:57-60 | the cursor stands on the first entry |
| `KeyHashTable.RTPKeyHashTable.GotoLastElement` | qrtplib/rtpkeyhashtable.h:61-64 | the cursor stands on the last entry |
| `KeyHashTable.RTPKeyHashTable.GotoNextElement` | qrtplib/rtpkeyhashtable.h:241-246 | the cursor moves one on, at most to the end |
| `KeyHashTable.RTPKeyHashTable.GotoPreviousElement` | qrtplib/rtpkeyhashtable.h:248-253 | the cursor moves one back, before the first entry to the end |
| `KeyHashTable.RTPKeyHashTable.DeleteCurrentElement` | qrtplib/rtpkeyhashtable.h:136-192 | exactly the current entry goes and the next becomes current |
| `KeyHashTable.RTPKeyHashTable.RelinkBucket` | qrtplib/rtpkeyhashtable.h:146-160 | the bucket around a node is doubly linked without it |
| `KeyHashTable.RTPKeyHashTable.RelinkList` | qrtplib/rtpkeyhashtable.h:164-183 | the list around a node is doubly linked without it, first and last included |
| `KeyHashTable.RTPKeyHashTable.DeleteElement` | qrtplib/rtpkeyhashtable.h:323-332 | the entry with the key goes iff there is one |
| `KeyHashTable.RTPKeyHashTable.Clear` | qrtplib/rtpkeyhashtable.h:255-272 | no entries; the cursor is left where it was |
| `KeyHashTable.DeleteMatching` | qrtplib/rtpsources.cpp:877-921 | a scan that deletes the current element on a condition visits every entry once, in order, and leaves exactly those it does not hold of |
| `OrderedEntries.DeletionRemovesKey` | qrtplib/rtpkeyhashtable.h:136-192 | deleting an entry removes its key from the map the entries stand for, and nothing else |
| `OrderedEntries.ScanRestrictsMap` | qrtplib/rtpsources.cpp:884-916 | after such a scan the map is the old one restricted to the keys the condition spares |
| `OrderedEntries.MapHasEntries` | qrtplib/rtpkeyhashtable.h:47-125 | with distinct keys every entry is what its key maps to |
| `Rand48.FullPeriod` | qrtplib/rtprandomrand48.cpp:72-89 | two draws leave the same state iff their numbers differ by a multiple of 2^48, whatever the seed |
| `Rand48.EveryStateOccurs` | qrtplib/rtprandomrand48.cpp:72-89 | every 48-bit state occurs within one period |
| `Rand48.WrapDoesNotMatter` | qrtplib/rtprandomrand48.cpp:74-74 | the 64-bit wrap-around of product and sum never changes the step |
| `Rand48.AfterInClosedForm` | qrtplib/rtprandomrand48.cpp:72-89 | the state after n draws in closed form |
| `Rand48.GeometricDivisibility` | qrtplib/rtprandomrand48.cpp:74-74 | a power of two divides 1 + a + ... + a^(n-1) iff it divides n, for a multiplier that is 1 modulo 4 |
| `Rand48.RTPRandomRand48.SetSeed` | qrtplib/rtprandomrand48.cpp:53-56 | the state of a seed |
| `Rand48.RTPRandomRand48.GetRandom32` | qrtplib/rtprandomrand48.cpp:72-79 | one step; the 32 high bits of the 48 |
| `Rand48.RTPRandomRand48.GetRandom16` | qrtplib/rtprandomrand48.cpp:65-70 | one step; the 16 high bits |
| `Rand48.RTPRandomRand48.GetRandom8` | qrtplib/rtprandomrand48.cpp:58-63 | one step; the 8 high bits |
| `Rand48.RTPRandomRand48.GetRandomDouble` | qrtplib/rtprandomrand48.cpp:81-89 | one step; exactly the state divided by 2^48, hence in [0, 1) |
| `RtpFormat.ParsesMeansSpelled` | qrtplib/rtppacket.cpp:148-247 | a packet is accepted iff some fields and padding spell it, it does not look like RTCP and its payload is shorter than 2^31 bytes |
| `RtpFormat.ParsedIsSpelled` | qrtplib/rtppacket.cpp:148-247 | the fields and padding read from an accepted packet spell it |
| `RtpFormat.SpelledReads` | qrtplib/rtppacket.cpp:148-247 | spelled fields read back, whatever the padding |
| `RtpFormat.NetworkRoundTrip` | qrtplib/rtppacket.cpp:148-369 | a packet in network order reads back iff its payload is shorter than 2^31 bytes and the host is big-endian or every multi-byte field is a byte palindrome |
| `RtpFormat.CsrcAt` | qrtplib/rtppacket.cpp:249-262 | a contributing source is the word at its place |
| `RtpFormat.OutsideIsRefused` | qrtplib/rtppacket.cpp:196-217 | the length of a header extension is read from behind the packet iff the extension bit is set and the extension's own header does not fit; such packets have less than 76 bytes and are refused |
| `RtpFormat.ShortestOutside` | qrtplib/rtppacket.cpp:196-204 | an input for which it happens: 12 bytes with the extension bit set |
| `RtpPacket.OutgrowsItsBuffer` | qrtplib/rtppacket.cpp:280-309 | an accepted request is longer than the size counted for it, and than the buffer made for it, iff the 32-bit size has wrapped around |
| `RtpPacket.ShortestWrapped` | qrtplib/rtppacket.cpp:280-309 | the input: a payload of 2^32 - 12 bytes is accepted with a size of 0 |
| `RtpPacket.BuiltIsParsed` | qrtplib/rtppacket.cpp:148-369 | the same for every accepted build request |
| `RtpPacket.RTPPacket.Parsed` | qrtplib/rtppacket.cpp:63-68 | the packet object of a raw packet: accepted iff it arrived on the RTP port and parses, and then with the fields it spells |
| `RtpPacket.RTPPacket.Built` | qrtplib/rtppacket.cpp:70-104 | a new packet of exactly the size of the request, holding its spelling |
| `RtpPacket.RTPPacket.BuiltInto` | qrtplib/rtppacket.cpp:106-146 | the same in a buffer of the caller's, refused when it is null or empty |
| `RtpPacket.RTPPacket.ParseRawPacket` | qrtplib/rtppacket.cpp:148-247 | as above, and what lies behind the packet when the length of a header extension is read there never matters; lengths are cut to 32 bits |
| `RtpPacket.FindLayout` | qrtplib/rtppacket.cpp:164-217 | the checks in their order accept exactly the packets that parse, and find their parts; the length is read outside exactly when OutsideIsRefused says so |
| `RtpPacket.CheckHeader` | qrtplib/rtppacket.cpp:154-193 | the checks on length, version, type and padding |
| `RtpPacket.RTPPacket.BuildPacket` | qrtplib/rtppacket.cpp:264-369 | the answer to every request, and the bytes written for an accepted one |
| `RtpPacket.RTPPacket.GetCSRC` | qrtplib/rtppacket.cpp:249-262 | the contributing source with this number, 0 when there is none |
| `ReceptionQueue.RTPInternalSourceData.ProcessRTPPacket` | qrtplib/rtpinternalsourcedata.cpp:52-148 | the backward search inserts an accepted, unhandled packet in its place and drops a duplicate; stored iff somebody keeps the packet |
| `ReceptionQueue.RTPInternalSourceData.GetNextPacket` | qrtplib/rtpsourcedata.h:775-787 | the packet with the lowest number leaves, if the source is validated |
| `ReceptionQueue.InsertMeans` | qrtplib/rtpinternalsourcedata.cpp:108-145 | insertion keeps the queue strictly increasing, loses nothing, and takes the packet in iff its number is absent |
| `ReceptionQueue.InsertBetween` | qrtplib/rtpinternalsourcedata.cpp:116-145 | inserting between the lower and the higher numbers is insertion in order |
| `ReceptionQueue.QueueOverRun` | qrtplib/rtpinternalsourcedata.cpp:52-148 | whatever arrives, is accepted, handled, taken or flushed: the queue stays strictly increasing and every packet that entered is queued or has left, once |
| `ReceptionQueue.TakesLowest` | qrtplib/rtpsourcedata.h:775-787 | what is taken has the lowest number queued |
| `SdesInfo.RTCPSDESInfo.SetPrivateValue` | qrtplib/rtcpsdesinfo.cpp:50-97 | the value of the prefix is replaced, or a new entry comes in front; a full store refuses a new prefix and does not change |
| `SdesInfo.RTCPSDESInfo.DeletePrivatePrefix` | qrtplib/rtcpsdesinfo.cpp:99-130 | the entry of the prefix goes iff there is one |
| `SdesInfo.RTCPSDESInfo.GetPrivateValue` | qrtplib/rtcpsdesinfo.cpp:147-175 | found iff an entry has the prefix, and then its value |
| `SdesInfo.RTCPSDESInfo.GetNextPrivateValue` | qrtplib/rtcpsdesinfo.cpp:137-145 | the iteration returns the entries one after the other |
| `SdesInfo.RTCPSDESInfo.SetNonPrivateItem` | qrtplib/rtcpsdesinfo.h:186-191 | refused iff longer than 255 bytes |
| `SdesInfo.SetUpdatesMap` | qrtplib/rtcpsdesinfo.cpp:50-97 | for prefixes of at most 255 bytes setting is the update of a map with values cut at 255 bytes; it fails iff the store is full and the prefix is new |
| `SdesInfo.DeleteRemovesKey` | qrtplib/rtcpsdesinfo.cpp:99-130 | deleting removes the prefix from that map |
| `SdesInfo.FindIsLookup` | qrtplib/rtcpsdesinfo.cpp:147-175 | looking a prefix up is looking it up in that map |
| `SdesInfo.SetThenGet` | qrtplib/rtcpsdesinfo.cpp:50-97 | what was set is found under the same prefix iff the prefix has at most 255 bytes |
| `SdesInfo.SetKeepsDistinct` | qrtplib/rtcpsdesinfo.cpp:50-97 | prefixes stay distinct iff the prefix has at most 255 bytes or its cut is not stored |
| `SdesInfo.StoreIsMap` | qrtplib/rtcpsdesinfo.cpp:50-130 | after any operations with prefixes of at most 255 bytes the list stands for the map the same operations make, with distinct prefixes and at most 256 entries |
| `CollisionList.RTPCollisionList.Clear` | qrtplib/rtpcollisionlist.cpp:44-51 | no addresses are left |
| `CompoundBuilder.RTCPCompoundPacketBuilder.constructor` | qrtplib/rtcpcompoundpacketbuilder.cpp:44-52 | nothing is being built and nothing was added |
| `CompoundBuilder.RTCPCompoundPacketBuilder.ClearBuildBuffers` | qrtplib/rtcpcompoundpacketbuilder.cpp:61-81 | everything that was added is forgotten |
| `CompoundBuilder.RTCPCompoundPacketBuilder.PushSource` | qrtplib/rtcpcompoundpacketbuilder.h:296-303 | the new source is the last one, and later items go to it |
| `CompoundBuilder.RTCPCompoundPacketBuilder.PushItem` | qrtplib/rtcpcompoundpacketbuilder.h:262-266 | the item is behind the others of the last source, whose size grows by it |
| `CompoundBuilder.SumOfNeeded` | qrtplib/rtcpcompoundpacketbuilder.h:322-323 | the loop over the sources adds up the sizes of their chunks |
| `CompoundWriter.WriteBlocks` | qrtplib/rtcpcompoundpacketbuilder.cpp:497-505 | up to 31 of the remaining blocks, in order |
| `CompoundWriter.WriteItems` | qrtplib/rtcpcompoundpacketbuilder.cpp:549-558 | the items of a source, in order |
| `CompoundWriter.WriteSources` | qrtplib/rtcpcompoundpacketbuilder.cpp:543-576 | up to 31 of the remaining chunks, in order |
| `CompoundWriter.WriteSdesPacket` | qrtplib/rtcpcompoundpacketbuilder.cpp:534-583 | one SDES packet: header and up to 31 of the remaining chunks |
| `KeyHashTable.RTPKeyHashTable.HasCurrentElement` | qrtplib/rtpkeyhashtable.h:65-68 | true iff the cursor stands on an entry |
| `KeyHashTable.RTPKeyHashTable.GetCurrentElement` | qrtplib/rtpkeyhashtable.h:70-73 | the element of the entry the cursor stands on |
| `KeyHashTable.RTPKeyHashTable.GetCurrentKey` | qrtplib/rtpkeyhashtable.h:74-77 | the key of the entry the cursor stands on |
| `KeyHashTable.RTPKeyHashTable.UnlinkFromBucket` | qrtplib/rtpkeyhashtable.h:146-160 | the node leaves its bucket and no other bucket changes |
| `KeyHashTable.RTPKeyHashTable.UnlinkFromList` | qrtplib/rtpkeyhashtable.h:164-183 | the node leaves the list; the next one is returned |
| `KeyHashTable.RTPKeyHashTable.KeysAreDistinct` | qrtplib/rtpkeyhashtable.h:281-295 | no two entries of a table have the same key |
| `Rand48.RTPRandomRand48.constructor` | qrtplib/rtprandomrand48.cpp:44-47 | the generator starts from the state of its seed |
| `ReceptionQueue.RTPInternalSourceData.FlushPackets` | qrtplib/rtpsourcedata.h:789-796 | the queue is empty |
| `ReportBuilder.RTCPPacketBuilder.TryItem` | qrtplib/rtcppacketbuilder.cpp:515-531 | one of the six items: added and marked iff it is due, was not sent in this cycle and fits |
| `ReportBuilder.RTCPPacketBuilder.SetInterval` | qrtplib/rtcppacketbuilder.h:142-147 | only one interval changes, and only once the builder is initialised |
| `Scheduler.RTCPScheduler.FindBye` | qrtplib/rtcpscheduler.cpp:119-124 | the loop says whether the compound packet holds a BYE packet |
| `Scheduler.RTCPScheduler.SetHeaderOverhead` | qrtplib/rtcpscheduler.h:154-157 | only the overhead changes |
| `Scheduler.RTCPScheduler.CalculateNextRTCPTime` | qrtplib/rtcpscheduler.cpp:241-251 | the timer is set to a newly drawn interval from now |
| `Scheduler.RTCPScheduler.CalculateTransmissionInterval` | qrtplib/rtcpscheduler.cpp:303-319 | the deterministic interval, spread by a draw |
| `SdesInfo.RTCPSDESInfo.Search` | qrtplib/rtcpsdesinfo.cpp:55-74 | the loop every operation on a prefix starts with finds the first entry with this prefix |
| `SdesInfo.RTCPSDESInfo.Clear` | qrtplib/rtcpsdesinfo.cpp:38-47 | no private items are left |
| `SdesInfo.RTCPSDESInfo.GotoFirstPrivateValue` | qrtplib/rtcpsdesinfo.cpp:132-135 | the iteration stands on the first entry |
| `SdesPacket.RTCPSDESPacket.GetChunkCount` | qrtplib/rtcpsdespacket.h:154-160 | the number of chunks the bytes spell, 0 for an unknown format |
| `SdesPacket.RTCPSDESPacket.SkipChunk` | qrtplib/rtcpsdespacket.h:184-195 | the loop over the items arrives at the start of the next chunk |
| `SdesPacket.RTCPSDESPacket.ReadCurrent` | qrtplib/rtpsources.cpp:460-472 | the current item as the session's sources read it |
| `Session.RTPSession.TellScheduler` | qrtplib/rtpsessionsources.cpp:45-89 | what the source table reports reaches the scheduler, in order |
| `Session.RTPSession.SendIfDue` | qrtplib/rtpsession.cpp:362-376 | one turn of the waiting loop: the first BYE packet leaves iff the timer has expired, and the next is scheduled |
| `RtpPacket.Write` | qrtplib/rtppacket.cpp:330-367 | the bytes of a request, part after part, are its spelling |
| `SchedulerLaws.IntervalMeans` | qrtplib/rtcpscheduler.cpp:253-301 | the deterministic interval is the minimum, halved before the first packet where so configured, when a packet from each member of the group fits the group's share within it; else those packets take up exactly the share |
| `SchedulerLaws.HalfAtStartup` | qrtplib/rtcpscheduler.cpp:291-293 | the first packet sent doubles the interval of a group that fits |
| `SchedulerLaws.Sharing` | qrtplib/rtcpscheduler.cpp:253-290 | senders share their fraction, the others the rest, when senders are at most their fraction of all; else everybody shares everything |
| `SchedulerLaws.ByeIntervalMeans` | qrtplib/rtcpscheduler.cpp:397-423 | the BYE interval spreads the minimum, halved where so configured, or the time in which the BYE packets of all who say goodbye take up the receivers' bandwidth |
| `SchedulerLaws.ByeTimer` | qrtplib/rtcpscheduler.cpp:362-389 | scheduling a BYE packet sets the timer to the present in a small group where so configured, else behind the BYE interval of one packet of its size |
| `SchedulerLaws.ByePoll` | qrtplib/rtcpscheduler.cpp:184-239 | with a BYE packet waiting, an expired timer lets it go iff the BYE interval of all BYE packets heard by now has passed, and else is set to when it will have |
| `SchedulerLaws.ByesHeard` | qrtplib/rtcpscheduler.cpp:114-140 | over any run in which it waits: one member for ourselves and one for every BYE packet heard |
| `SchedulerLaws.ByesBackOff` | qrtplib/rtcpscheduler.cpp:397-423 | more members who leave and larger BYE packets never make the interval shorter |
| `SchedulerLaws.SpreadMeans` | qrtplib/rtcpscheduler.cpp:303-319 | the draw adds in proportion, from half of the interval over 1.21828 to one and a half times it |
| `SchedulerLaws.SpreadReaches` | qrtplib/rtcpscheduler.cpp:303-319 | every length in that range is drawn |
| `SchedulerLaws.PollSetsTimer` | qrtplib/rtcpscheduler.cpp:184-251 | where a poll without BYE leaves the timer: set from the clock at the first call and when it says yes, from the start of the running interval when it says no |
| `SchedulerLaws.DelayMeans` | qrtplib/rtcpscheduler.cpp:163-182 | the delay that is told is exactly the time after which a poll finds the timer expired |
| `SchedulerLaws.LeavingScales` | qrtplib/rtcpscheduler.cpp:321-360 | when members leave, (next' - now) * before == left * (next - now), and the same for what has passed since prev |
| `SchedulerLaws.LeavingIsEarlier` | qrtplib/rtcpscheduler.cpp:321-360 | so a timer that lies ahead runs out strictly earlier, and one that has expired is set to the present |
| `SchedulerLaws.LeavingTogether` | qrtplib/rtcpscheduler.cpp:321-360 | members who leave one after the other at one time change the timer as if they had left together |
| `SchedulerLaws.NeverLater` | qrtplib/rtcpscheduler.cpp:321-395 | over any run in which nothing is asked the timer runs out no later than it would have, and earlier as soon as members have left while it lay ahead |
| `SchedulerLaws.AverageMeans` | qrtplib/rtcpscheduler.cpp:114-161 | the average takes a sixteenth of the new size and fifteen of the old, rounded down |
| `SchedulerLaws.PacketsCount` | qrtplib/rtcpscheduler.cpp:114-161 | which packets count in which average, with the header overhead |
| `SchedulerLaws.AverageOverRun` | qrtplib/rtcpscheduler.cpp:114-161 | over any run the average stays within the sizes averaged, but for fifteen bytes of rounding |
| `SchedulerLaws.HasSentMeans` | qrtplib/rtcpscheduler.cpp:142-161 | over any run: a packet was sent before it or in it |
| `SchedulerLaws.FreshMeans` | qrtplib/rtcpscheduler.cpp:87-98 | the first interval of a new scheduler is half the minimum when 1000 bytes from each member fit |
| `SchedulerLaws.ResetIsFresh` | qrtplib/rtcpscheduler.cpp:104-112 | after a reset the next poll answers and goes on as that of a new scheduler |
| `BlockContents.FractionMeans` | qrtplib/rtcppacketbuilder.cpp:385-399 | the fraction f satisfies f * expected <= 256 * lost < (f + 1) * expected iff at least one packet came; when none came it says 0 |
| `BlockContents.BlockTells` | qrtplib/rtcppacketbuilder.cpp:366-434 | field by field: highest number and jitter of the source; the loss congruent to extended highest number minus base minus received modulo 2^32; the fraction for what was expected since the last block; the middle 32 bits of the 64-bit NTP time and the delay in 1/65536 seconds |
| `BlockContents.PassTells` | qrtplib/rtcppacketbuilder.cpp:337-440 | the blocks of a pass tell, in order, about exactly the sources to be reported in front of its end |
| `BlockContents.PassMarks` | qrtplib/rtcppacketbuilder.cpp:416-434 | a source with a block starts a new interval at its highest number, and nothing else changes |
| `BlockContents.NextFraction` | qrtplib/rtpsourcedata.h:219-223 | the next fraction is about the numbers from the highest that the block before has told |
| `BlockContents.LossesAddUp` | qrtplib/rtpsourcedata.h:219-223 | over any number of reports the loss told is, modulo 2^32, what the intervals have lost together since the first packet |
| `Padding.PaddingIsTransparent` | qrtplib/rtcprrpacket.cpp:38-65 | for all five types: the padded packet is of known format iff the other is, and accessors, chunks, reason and APP data read the same |
| `Padding.BadPaddingRefused` | qrtplib/rtcpbyepacket.cpp:38-70 | a pad count that is no multiple of four or not below the packet's length makes a packet of any type unknown |
| `Padding.NoPadding` | qrtplib/rtcpapppacket.cpp:38-62 | a pad count of 0 takes nothing away |
| `Padding.LastMayBePadded` | qrtplib/rtcpcompoundpacket.cpp:99-186 | a compound whose last packet gets padding that its length word counts is taken apart as before |
| `PacketGrammar.ContentMeans` | qrtplib/rtcpsdespacket.cpp:47-57 | what is in front of the padding, stated on the bytes |
| `PacketGrammar.SenderReportMeans` | qrtplib/rtcpsrpacket.cpp:38-65 | a known SR iff its content is spelled by some sender information and as many blocks as the count says |
| `PacketGrammar.ReceiverReportMeans` | qrtplib/rtcprrpacket.cpp:38-65 | a known RR iff its content is spelled by an SSRC and as many blocks as the count says |
| `PacketGrammar.ByeMeans` | qrtplib/rtcpbyepacket.cpp:38-70 | a known BYE iff its content is as many SSRCs as the count says, then nothing or a counted reason and any filling |
| `PacketGrammar.AppMeans` | qrtplib/rtcpapppacket.cpp:38-62 | a known APP iff its content is an SSRC, a name and data |
| `WireLayout.ReportLayout` | qrtplib/rtcpcompoundpacketbuilder.cpp:475-523 | type, count, length, SSRC, sender information and every block at the offsets of section 6.4 of RFC 3550 |
| `WireLayout.SdesLayout` | qrtplib/rtcpcompoundpacketbuilder.cpp:531-588 | type, count and length of an SDES packet, and its first SSRC |
| `WireLayout.ByeLayout` | qrtplib/rtcpcompoundpacketbuilder.cpp:331-395 | SSRCs, reason length and reason at the offsets of section 6.6 of RFC 3550 |
| `WireLayout.AppLayout` | qrtplib/rtcpcompoundpacketbuilder.cpp:397-445 | subtype, SSRC, name and data at the offsets of section 6.7 of RFC 3550 |
| `WireLayout.RtpLayout` | qrtplib/rtppacket.cpp:330-367 | flags, numbers, contributing sources, extension and payload at the offsets of section 5.1 of RFC 3550 |
| `SdesFormat.StandardIds` | qrtplib/rtpdefines.h:56-63 | the first byte of an item is the id of section 6.5 of RFC 3550 |
| `CallHistory.RunHolds` | qrtplib/rtcpcompoundpacketbuilder.cpp:123-445 | after any sequence of calls the packet holds exactly what the calls let in have added: blocks, sources with their items, APP and BYE packets unchanged and in the order of the calls |
| `CallHistory.RefusedDoesNotFit` | qrtplib/rtcpcompoundpacketbuilder.cpp:123-445 | a call that makes sense is refused only when the packet would not fit with it |
| `CallHistory.WhatFitsIsLetIn` | qrtplib/rtcpcompoundpacketbuilder.cpp:123-445 | calls whose whole packet fits are all let in, whatever their order |
| `PacketReception.ReceiverSees` | qrtplib/rtcppacketbuilder.cpp:113-181 | every packet of the builder is parsed whole; a sender's report with the sender's information iff we have sent, our SSRC, and the CNAME in front of all other items |
| `PacketReception.ByeIsRecognised` | qrtplib/rtcpscheduler.cpp:114-161 | the loop that looks for a BYE packet finds one iff one was added |
| `SessionLaws.PollKeepsRecent` | qrtplib/rtpsession.cpp:1079-1090 | a poll keeps every collision no older than the collision multiplier times half of `minInterval` |
| `SessionLaws.PollForgetsOld` | qrtplib/rtpsession.cpp:1079-1090 | and, once its arrivals are handled, none older than the multiplier times the interval: the minimum, or the time in which a packet from each of the members that share the receivers' bandwidth takes it up |
| `SessionLaws.NewSsrcsApart` | qrtplib/rtpsession.cpp:1022-1090 | over any run with a clock that does not go back, two new SSRCs because of the same address come more than the multiplier times half of `minInterval` apart |
| `SessionLaws.SentMeans` | qrtplib/rtpsession.cpp:1032-1131 | over any run an SSRC counts as having sent iff data, a report or a BYE packet was sent since it was taken |
| `SessionLaws.EnqueuedSize` | qrtplib/rtpsession.cpp:1049-1053 | a BYE packet that joins an empty queue is scheduled by its own size; one that joins others changes nothing for them |
| `SessionLaws.RescheduledSize` | qrtplib/rtpsession.cpp:1133-1136 | when a BYE packet has been sent the next is scheduled by its own size |
| `SessionLaws.OneEffect` | qrtplib/rtpsession.cpp:1015-1089 | a packet heard counts in the averages, and members who have left bring the timer forward |
| `SessionLaws.EffectsInOrder` | qrtplib/rtpsession.cpp:1015-1089 | what the source table reports reaches the scheduler in order |
| `SessionLaws.ArrivalIsHeard` | qrtplib/rtpsession.cpp:1015-1022 | a packet that arrives is heard by the scheduler even when it is not accepted |
| `SessionLaws.ArrivalFails` | qrtplib/rtpsession.cpp:1015-1075 | an arrival fails iff the source table does not take it, or its first collision cannot be answered |
| `SessionLaws.ArrivalsInOrder` | qrtplib/rtpsession.cpp:1009-1077 | arrivals are handled one after the other, up to the first that fails |
| `SessionLaws.TimedOutMembers` | qrtplib/rtpsession.cpp:1079-1094 | members timed out in a poll bring the timer forward before it is asked |
| `SessionLaws.SentExactly` | qrtplib/rtpsession.cpp:1094-1137 | once the arrivals are handled, something is sent iff the timer says so: the first BYE packet that waits, else the report if it could be built |
| `SessionLaws.TurnSchedules` | qrtplib/rtpsession.cpp:355-385 | when a turn at the end of a session sends a BYE packet, the next is scheduled by its own size |
| `SessionLaws.OwnByeComesLast` | qrtplib/rtpsession.cpp:322-398 | an SSRC that has sent says goodbye behind all who wait: what is sent is a front of the queue with our own BYE at its end, all of it unless time runs out |
| `SessionLaws.NoOwnBye` | qrtplib/rtpsession.cpp:335-350 | one that has not sent says none |
| `CollisionList.SameButForRtcpPort` | qrtplib/rtpaddress.cpp:47-65 | addresses are the same iff they differ at most in the port RTCP is sent to |
| `SdesCycle.DueOnceInN` | qrtplib/rtcppacketbuilder.cpp:202-224 | an item with interval n is due in exactly one of any n cycles in a row, first in the n-th; one whose interval is not positive never |
| `ReportRuns.EveryNthCycle` | qrtplib/rtcppacketbuilder.cpp:202-224 | over a run from the beginning the items due in a cycle are those whose interval divides its number |
| `ReportPass.SkippedMeans` | qrtplib/rtcppacketbuilder.cpp:360-365 | the sources a pass comes to are those it gives a block and those it counts as skipped |
| `ReportRuns.BlocksTell` | qrtplib/rtcppacketbuilder.cpp:183-295 | every block of any packet tells about a source of its table that was to be reported |
| `ReportRuns.ClearsAll` | qrtplib/rtcppacketbuilder.cpp:309-319 | clearing the flags makes everybody who is to be reported pending again and changes nothing else; outside a cycle nobody was pending before |
| `ReportRuns.SinceMoves` | qrtplib/rtcppacketbuilder.cpp:303-305 | the next packet reports only what was heard after this one was built |
| `ReportRuns.PacketIsFull` | qrtplib/rtcppacketbuilder.cpp:183-255 | a packet that starts no cycle has no room for the block of some source that is still pending |
| `ReportRuns.NextItemDoesNotFit` | qrtplib/rtcppacketbuilder.cpp:226-272 | a packet that leaves items of its cycle has no room for the first of them |
| `RtpPacket.AcceptedMeans` | qrtplib/rtppacket.cpp:281-302 | a request whose fields have a place in a packet that does not look like RTCP is accepted iff its bytes are within the limit |
| `ReportRuns.LastPacketIsFull` | qrtplib/rtcppacketbuilder.cpp:274-294 | a packet that sends the last items of a resumed cycle has reported everybody or has no room for the block of some source that is still pending |
| `TopUp.SkippedIsMadeUp` | qrtplib/rtcppacketbuilder.cpp:235-252 | the second pass of a packet whose cycle ends at once hands out at most one block for every source that was skipped, and as many unless the packet is full |
| `TopUp.ReportedTwice` | qrtplib/rtcppacketbuilder.cpp:235-252 | such a packet with room for them has two blocks about one source iff a source reported for the first time stands in front of one that was skipped, because the second pass starts at the front again |
| `TopUp.SecondExpectsNothing` | qrtplib/rtcppacketbuilder.cpp:372-382 | and then the second block expects no packet, so that the code divides 0 by 0 |
| `TopUp.TwiceInOnePacket` | qrtplib/rtcppacketbuilder.cpp:235-252 | a run of two packets of a new builder whose second packet has two blocks about one source |

## Left out

- Sockets, transmitters, the `On*` callbacks, CNAME lookup, threads and error strings.  Sends are a success flag, callbacks and the source table arbitrary results.
- `RTPSources`, `RTPSourceData` and the reception statistics: sources are a list of records, acceptance and extended sequence numbers are arbitrary, and between two reports the statistics move by arbitrary intervals (`BlockContents.Interval`).
- Rounding of floating-point numbers: times, intervals and bandwidths are `real`.
- `SchedulerModel` and `SessionModel`: a step is excluded exactly where an interval it computes would be divided by a share of the bandwidth that is zero; parameters stay fixed during a run.
- Pointer ownership and bit-field layout; packet objects hold their bytes by value, so later changes of the buffer they were read from are not seen.
- The report, its blocks and the sources of `RTCPCompoundPacketBuilder` are values in fields of the builder, which owns the only reference to them in the source as well.
- The overloads of setters and getters that only read or write one field, `RTPPacketBuilder`, session parameters, the other random generators and the seeds taken from the environment.
- CompoundBuilder.RTCPCompoundPacketBuilder.EndBuild: when a report was started, an external buffer must hold everything that was added; `OutgrowsBuffer` says when it does not, and the code then writes behind it.
- CompoundBuilder.RTCPCompoundPacketBuilder.Layout: the same.
- ReportBuilder.RTCPPacketBuilder.FillInReportBlocks: the fraction lost is 0 when no packet was expected, where the code divides by zero (`TopUp.SecondExpectsNothing`), and when all were lost, where it casts 256 to a byte; the delay since the last SR is computed on `real` times and cut to 32 bits.
- ReportBuilder.RTCPPacketBuilder.BuildNextPacket: needs a nonempty list of sources; sender information, clock and SSRC are parameters.  The error returns for packets filled too soon are proved unreachable.  Initialising again in the middle of a cycle is not modelled.
- ReceptionQueue.RTPInternalSourceData.ProcessRTPPacket: the branch that limits the queue of a source on probation is not part of the model; the code sets `validated` before it asks for it, so it cannot be reached.
- RtpPacket.RTPPacket.BuildPacket: an accepted request whose 32-bit size has wrapped around is excluded, because the code writes it behind a buffer that is too short; `OutgrowsItsBuffer` says when that is.  The pointer to the extension data, which the code leaves unset, is not part of what the contract promises.
- RtpPacket.RTPPacket.Built: the same requests are excluded.
- RtpPacket.RTPPacket.BuiltInto: the same requests are excluded.
- KeyHashTable.RTPKeyHashTable.GotoNextElement: the cursor must have been set since the table was created or cleared, because neither sets it.  The three identical search loops are one method.
- KeyHashTable.RTPKeyHashTable.constructor: the index function never gives a negative number; the code does not check for one.
- Session.RTPSession.ProcessPolledData: the scheduler hears of packets and of members that left through a list of effects; source timeouts are arbitrary effects of that kind.
- Session.RTPSession.BYEDestroy: every turn that is given must be possible while BYE packets wait, and the clock reaches the end of the waiting time in one of the turns that are given; results of sends are ignored as in the code.
- Session.RTPSession.SendData: stands for every SendPacket call and for SendRTCPAPPPacket; what they build and send is a success flag.
- SdesInfo.RTCPSDESInfo.GetNextPrivateValue: deleting the entry the iteration stands on leaves it nowhere until it is restarted.
