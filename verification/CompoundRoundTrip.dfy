/** What a receiver gets back out of a compound packet the builder has written. */
module CompoundRoundTrip {
  import opened Bytes
  import opened Wrappers
  import opened RtcpHeader
  import opened SdesFormat
  import opened RtcpPackets
  import opened RtcpReaders
  import opened CompoundParser
  import opened CompoundFormat
  import opened CompoundBuilder
  import opened SdesPacket

  // ---- every packet written is well formed and of known format ----

  /** Headers every written packet has, whatever the host. */
  predicate GoodPiece(piece: seq<byte>, packetType: byte) {
    && |piece| >= HEADER_SIZE && |piece| % 4 == 0
    && Version(piece) == RTP_VERSION && !HasPadding(piece)
    && piece[1] == packetType
  }

  /** Its own class accepts the packet. */
  predicate Known(piece: seq<byte>) {
    && |piece| >= HEADER_SIZE
    && var p := PacketOf(piece); !p.UnknownPacket? && p.knownFormat
  }

  predicate LengthsAgree(host: HostOrder, piece: seq<byte>) {
    |piece| >= HEADER_SIZE && (AnnouncedLength(host, piece) == |piece| <==> LengthReadsBack(host, |piece|))
  }

  lemma ReportPieceGood(host: HostOrder, h: ReportHeader, blocks: seq<ReportBlock>)
    requires !h.NoReport? && |blocks| <= PER_PACKET
    ensures var piece := ReportPiece(h, blocks);
            GoodPiece(piece, ReportType(h)) && Known(piece) && Count(piece) == |blocks| && LengthsAgree(host, piece)
  {
    hide Header, LengthReadsBack, BlocksBytes, AnnouncedLength;
    var body := HeaderData(h) + BlocksBytes(blocks);
    HeaderFields(host, |blocks|, ReportType(h), 4 + |body|, body);
  }

  lemma SdesPieceGood(host: HostOrder, sources: seq<Source>)
    requires |sources| <= PER_PACKET
    ensures var piece := SdesPiece(sources);
            && GoodPiece(piece, TYPE_SDES) && Count(piece) == |sources| && LengthsAgree(host, piece)
            && ContentLength(piece) == Some(|piece|) && piece[HEADER_SIZE..] == SourcesBytes(sources)
  {
    hide Header, LengthReadsBack, SourcesBytes, AnnouncedLength;
    var body := SourcesBytes(sources);
    HeaderFields(host, |sources|, TYPE_SDES, 4 + |body|, body);
  }

  lemma AppPieceGood(host: HostOrder, a: App)
    ensures var piece := AppPiece(a);
            GoodPiece(piece, TYPE_APP) && Known(piece) && Count(piece) == a.subtype && LengthsAgree(host, piece)
  {
    hide Header, LengthReadsBack, AnnouncedLength, Big32;
    var body := Big32(a.ssrc) + a.name + a.data;
    HeaderFields(host, a.subtype, TYPE_APP, 12 + |a.data|, body);
    assert AppPiece(a) == Header(a.subtype, TYPE_APP, 12 + |a.data|) + body;
  }

  lemma ByePieceGood(host: HostOrder, b: Bye)
    ensures var piece := ByePiece(b);
            GoodPiece(piece, TYPE_BYE) && Known(piece) && Count(piece) == |b.ssrcs| && LengthsAgree(host, piece)
  {
    hide Header, LengthReadsBack, AnnouncedLength, SsrcBytes;
    var body := SsrcBytes(b.ssrcs) + ReasonBytes(b.reason);
    HeaderFields(host, |b.ssrcs|, TYPE_BYE, 4 + |body|, body);
    var piece := ByePiece(b);
    if b.reason != [] {
      assert piece[ByeSsrcEnd(piece)] == body[4 * |b.ssrcs|] == ReasonBytes(b.reason)[0];
    }
  }

  // ---- SDES ----

  function WireChunks(sources: seq<Source>): (r: seq<Chunk>)
    ensures |r| == |sources|
    ensures forall i :: 0 <= i < |r| ==> r[i] == WireChunk(sources[i])
  {
    seq(|sources|, i requires 0 <= i < |sources| => WireChunk(sources[i]))
  }

  lemma SourceSpells(s: Source)
    ensures SpellsChunk(SourceBytes(s), WireChunk(s))
  {
    hide ItemsBytes, Big32, WireItems;
  }

  lemma {:induction false} SourcesSpell(sources: seq<Source>)
    ensures SpellsChunks(SourcesBytes(sources), WireChunks(sources))
  {
    hide SpellsChunk, SourceBytes, WireChunk, ChunkSize;
    if sources != [] {
      SourcesSpell(sources[1..]);
      SourceSpells(sources[0]);
      assert WireChunks(sources)[1..] == WireChunks(sources[1..]);
      var b, n := SourcesBytes(sources), |SourceBytes(sources[0])|;
      assert b[..n] == SourceBytes(sources[0]) && b[n..] == SourcesBytes(sources[1..]);
    }
  }

  /** The scan accepts every SDES packet the builder writes, and finds its chunks. */
  lemma SdesPieceChunks(sources: seq<Source>)
    requires |sources| <= PER_PACKET
    ensures |SdesPiece(sources)| >= HEADER_SIZE
    ensures PacketChunks(SdesPiece(sources)) == Some(WireChunks(sources))
    ensures Known(SdesPiece(sources))
  {
    hide SdesPiece, SourcesBytes, Count, ContentLength, ParseChunks;
    SdesPieceGood(BigEndianHost, sources);
    SourcesSpell(sources);
    ParseChunksComplete(SourcesBytes(sources), WireChunks(sources));
    var piece := SdesPiece(sources);
    assert piece[HEADER_SIZE..|piece|] == piece[HEADER_SIZE..];
  }

  /** What a walk over the chunk of a source visits. */
  function VisitOfSource(host: HostOrder, s: Source): Visit {
    Visit(Seen(host, s.ssrc), s.values)
  }

  lemma VisitsSource(host: HostOrder, s: Source)
    ensures VisitOf(host, WireChunk(s)) == VisitOfSource(host, s)
  {
    hide Big32, Read32, WireItem, ReadItem;
    forall i | 0 <= i < |s.values|
      ensures ReadItem(WireItems(s.values)[i]) == s.values[i]
    {
      WireItemReads(s.values[i]);
    }
    assert ReadItems(WireItems(s.values)) == s.values;
  }

  // ---- reading a list of packets ----

  /** Everything the accessors and iterators tell about some packets, in order. */
  datatype Reading = Reading(header: ReportHeader, blocks: seq<ReportBlock>, visits: seq<Visit>,
                             apps: seq<RawApp>, byes: seq<RawBye>)

  const Blank := Reading(NoReport, [], [], [], [])

  function Then(a: Reading, b: Reading): Reading {
    Reading(if a.header.NoReport? then b.header else a.header,
            a.blocks + b.blocks, a.visits + b.visits, a.apps + b.apps, a.byes + b.byes)
  }

  /** The visits of a walk over the packet. */
  function Visits(host: HostOrder, data: seq<byte>): (r: seq<Visit>)
    requires |data| >= HEADER_SIZE
  {
    match PacketChunks(data)
    case None => []
    case Some(chunks) =>
      seq(|chunks|, i requires 0 <= i < |chunks| =>
        if |chunks[i].ssrc| == 4 then VisitOf(host, chunks[i]) else Visit(0, []))
  }

  function ReadPacket(host: HostOrder, p: RTCPPacket): Reading
    requires Made(p)
  {
    match p
    case SR(_, _) =>
      Blank.(header := SenderReport(GetSenderSSRC(host, p), GetSenderInfo(host, p)), blocks := GetReportBlocks(host, p))
    case RR(_, _) =>
      Blank.(header := ReceiverReport(GetSenderSSRC(host, p)), blocks := GetReportBlocks(host, p))
    case SDES(data, _) => Blank.(visits := Visits(host, data))
    case BYE(_, _, _) => Blank.(byes := [RawBye(GetByeSSRCs(host, p), GetReason(p))])
    case APP(_, _, _) =>
      (match GetApp(host, p) case None => Blank case Some(a) => Blank.(apps := [a]))
    case UnknownPacket(_) => Blank
  }

  function ReadAll(host: HostOrder, ps: seq<RTCPPacket>): Reading
    requires forall i :: 0 <= i < |ps| ==> Made(ps[i])
  {
    if ps == [] then Blank else Then(ReadPacket(host, ps[0]), ReadAll(host, ps[1..]))
  }

  lemma {:induction false} ReadAllConcat(host: HostOrder, a: seq<RTCPPacket>, b: seq<RTCPPacket>)
    requires forall i :: 0 <= i < |a| ==> Made(a[i])
    requires forall i :: 0 <= i < |b| ==> Made(b[i])
    ensures ReadAll(host, a + b) == Then(ReadAll(host, a), ReadAll(host, b))
  {
    hide Made, ReadPacket;
    if a == [] {
      assert a + b == b;
    } else {
      ReadAllConcat(host, a[1..], b);
      assert (a + b)[0] == a[0] && (a + b)[1..] == a[1..] + b;
      ThenAssociative(ReadPacket(host, a[0]), ReadAll(host, a[1..]), ReadAll(host, b));
    }
  }

  lemma ThenAssociative(x: Reading, y: Reading, z: Reading)
    ensures Then(Then(x, y), z) == Then(x, Then(y, z))
    ensures Then(x, Blank) == x && Then(Blank, x) == x
  {
  }

  lemma ReadOne(host: HostOrder, p: RTCPPacket)
    requires Made(p)
    ensures ReadAll(host, [p]) == ReadPacket(host, p)
  {
    hide ReadPacket, Made;
    assert [p][1..] == [];
    ThenAssociative(ReadPacket(host, p), Blank, Blank);
  }

  /** Reading the packets of some pieces, one after the other. */
  function ReadPieces(host: HostOrder, pieces: seq<seq<byte>>): Reading
    requires AllHeaders(pieces)
  {
    ReadAll(host, PacketsOf(pieces))
  }

  lemma ReadPiecesConcat(host: HostOrder, a: seq<seq<byte>>, b: seq<seq<byte>>)
    requires AllHeaders(a) && AllHeaders(b)
    ensures AllHeaders(a + b) && ReadPieces(host, a + b) == Then(ReadPieces(host, a), ReadPieces(host, b))
  {
    hide PacketOf, Then;
    PacketsOfConcat(a, b);
    ReadAllConcat(host, PacketsOf(a), PacketsOf(b));
  }

  lemma ReadOnePiece(host: HostOrder, piece: seq<byte>)
    requires |piece| >= HEADER_SIZE
    ensures AllHeaders([piece]) && ReadPieces(host, [piece]) == ReadPacket(host, PacketOf(piece))
  {
    hide PacketOf;
    assert PacketsOf([piece]) == [PacketOf(piece)];
    ReadOne(host, PacketOf(piece));
  }

  // ---- reports ----

  /** Report blocks as they come back. */
  function SeenBlocks(host: HostOrder, blocks: seq<ReportBlock>): (r: seq<ReportBlock>)
    ensures |r| == |blocks|
    ensures forall i :: 0 <= i < |r| ==> r[i] == SeenBlock(host, blocks[i])
  {
    seq(|blocks|, i requires 0 <= i < |blocks| => SeenBlock(host, blocks[i]))
  }

  function SeenInfo(host: HostOrder, i: SenderInfo): SenderInfo {
    SenderInfo(Seen(host, i.ntpMsw), Seen(host, i.ntpLsw), Seen(host, i.rtpTimestamp),
               Seen(host, i.packetCount), Seen(host, i.octetCount))
  }

  /** A report header as it comes back. */
  function SeenHeader(host: HostOrder, h: ReportHeader): ReportHeader {
    match h
    case NoReport => NoReport
    case SenderReport(ssrc, info) => SenderReport(Seen(host, ssrc), SeenInfo(host, info))
    case ReceiverReport(ssrc) => ReceiverReport(Seen(host, ssrc))
  }

  lemma {:induction false} BlocksBytesAt(blocks: seq<ReportBlock>, i: nat)
    requires i < |blocks|
    ensures BlocksBytes(blocks)[24 * i..24 * i + 24] == BlockBytes(blocks[i])
  {
    hide BlockBytes;
    var b := BlocksBytes(blocks);
    if i > 0 {
      BlocksBytesAt(blocks[1..], i - 1);
      assert b[24..] == BlocksBytes(blocks[1..]);
      assert b[24 * i..24 * i + 24] == b[24..][24 * (i - 1)..24 * (i - 1) + 24];
    }
  }

  lemma ReportBody(h: ReportHeader, blocks: seq<ReportBlock>, i: nat)
    requires !h.NoReport? && |blocks| <= PER_PACKET && i < |blocks|
    ensures var piece, at := ReportPiece(h, blocks), 4 + |HeaderData(h)| + 24 * i;
            piece[at..at + 24] == BlockBytes(blocks[i])
  {
    hide Header, HeaderData, BlockBytes, BlocksBytes;
    BlocksBytesAt(blocks, i);
    var piece, bb := ReportPiece(h, blocks), BlocksBytes(blocks);
    var start := 4 + |HeaderData(h)|;
    assert piece[start..] == bb;
    SliceOfSlice(piece, start, |piece|, 24 * i, 24 * i + 24);
    assert piece[start..|piece|] == piece[start..];
  }

  lemma ReportHead(h: ReportHeader, blocks: seq<ReportBlock>)
    requires !h.NoReport? && |blocks| <= PER_PACKET
    ensures ReportPiece(h, blocks)[4..8] == Big32(h.ssrc)
    ensures h.SenderReport? ==> ReportPiece(h, blocks)[8..28] == InfoBytes(h.info)
  {
    hide Header, InfoBytes, Big32, BlocksBytes;
  }

  lemma InfoSlices(data: seq<byte>, i: SenderInfo)
    requires |data| >= 28 && data[8..28] == InfoBytes(i)
    ensures data[8..12] == Big32(i.ntpMsw) && data[12..16] == Big32(i.ntpLsw) && data[16..20] == Big32(i.rtpTimestamp)
    ensures data[20..24] == Big32(i.packetCount) && data[24..28] == Big32(i.octetCount)
  {
    hide Big32;
    var x := data[8..28];
    SliceOfSlice(data, 8, 28, 0, 4);
    SliceOfSlice(data, 8, 28, 4, 8);
    SliceOfSlice(data, 8, 28, 8, 12);
    SliceOfSlice(data, 8, 28, 12, 16);
    SliceOfSlice(data, 8, 28, 16, 20);
    assert x[0..4] == Big32(i.ntpMsw) && x[4..8] == Big32(i.ntpLsw) && x[8..12] == Big32(i.rtpTimestamp);
    assert x[12..16] == Big32(i.packetCount) && x[16..20] == Big32(i.octetCount);
  }

  lemma ReportReads(host: HostOrder, h: ReportHeader, blocks: seq<ReportBlock>)
    requires !h.NoReport? && |blocks| <= PER_PACKET
    ensures ReadPacket(host, PacketOf(ReportPiece(h, blocks))) ==
            Blank.(header := SeenHeader(host, h), blocks := SeenBlocks(host, blocks))
  {
    hide ReportPiece, HeaderData, InfoBytes, Big32, Read32, ReadBlock, BlockBytes, SeenBlock;
    var piece := ReportPiece(h, blocks);
    ReportPieceGood(host, h, blocks);
    ReportHead(h, blocks);
    if h.SenderReport? {
      InfoSlices(piece, h.info);
    }
    var p := PacketOf(piece);
    forall i | 0 <= i < |blocks|
      ensures GetReportBlock(host, p, i) == SeenBlocks(host, blocks)[i]
    {
      ReportBody(h, blocks, i);
      BlockReads(host, blocks[i]);
    }
    assert GetReportBlocks(host, p) == SeenBlocks(host, blocks);
  }

  lemma JoinBlocks(host: HostOrder, h: ReportHeader, front: seq<ReportBlock>, rest: seq<ReportBlock>)
    requires !h.NoReport?
    ensures Then(Blank.(header := SeenHeader(host, h), blocks := SeenBlocks(host, front)),
                 Blank.(header := SeenHeader(host, Continued(h)), blocks := SeenBlocks(host, rest)))
         == Blank.(header := SeenHeader(host, h), blocks := SeenBlocks(host, front + rest))
  {
    hide SeenBlock, SeenInfo, Seen;
    assert SeenBlocks(host, front) + SeenBlocks(host, rest) == SeenBlocks(host, front + rest);
  }

  /** What the header and the blocks come back as, across however many packets they took. */
  lemma {:induction false} ReportsRead(host: HostOrder, h: ReportHeader, blocks: seq<ReportBlock>)
    requires !h.NoReport?
    ensures AllHeaders(ReportPieces(h, blocks))
    ensures ReadPieces(host, ReportPieces(h, blocks)) ==
            Blank.(header := SeenHeader(host, h), blocks := SeenBlocks(host, blocks))
    decreases |blocks|
  {
    hide ReportPiece, ReadPacket, ReadPieces, SeenBlocks, Seen, SeenHeader, PacketOf, Then;
    if |blocks| <= PER_PACKET {
      ReportReads(host, h, blocks);
      ReadOnePiece(host, ReportPiece(h, blocks));
    } else {
      var front, rest := blocks[..PER_PACKET], blocks[PER_PACKET..];
      ReportReads(host, h, front);
      ReadOnePiece(host, ReportPiece(h, front));
      ReportsRead(host, Continued(h), rest);
      ReadPiecesConcat(host, [ReportPiece(h, front)], ReportPieces(Continued(h), rest));
      assert front + rest == blocks;
      JoinBlocks(host, h, front, rest);
    }
  }

  // ---- SDES, APP, BYE ----

  function VisitsOfSources(host: HostOrder, sources: seq<Source>): (r: seq<Visit>)
    ensures |r| == |sources|
    ensures forall i :: 0 <= i < |r| ==> r[i] == VisitOfSource(host, sources[i])
  {
    seq(|sources|, i requires 0 <= i < |sources| => VisitOfSource(host, sources[i]))
  }

  lemma SdesReads(host: HostOrder, sources: seq<Source>)
    requires |sources| <= PER_PACKET
    ensures ReadPacket(host, PacketOf(SdesPiece(sources))) == Blank.(visits := VisitsOfSources(host, sources))
  {
    hide SdesPiece, PacketChunks, WireItems, Big32, Read32, VisitOf;
    SdesPieceGood(host, sources);
    SdesPieceChunks(sources);
    forall i | 0 <= i < |sources|
      ensures |WireChunks(sources)[i].ssrc| == 4
      ensures VisitOf(host, WireChunks(sources)[i]) == VisitsOfSources(host, sources)[i]
    {
      VisitsSource(host, sources[i]);
    }
    assert Visits(host, SdesPiece(sources)) == VisitsOfSources(host, sources);
  }

  /** Walking the SDES packets in order visits exactly the added sources and items,
      in order, on any host; only the SSRCs depend on its byte order. */
  lemma {:induction false} SdesRoundTrip(host: HostOrder, sources: seq<Source>)
    ensures AllHeaders(SdesPieces(sources))
    ensures ReadPieces(host, SdesPieces(sources)) == Blank.(visits := VisitsOfSources(host, sources))
    decreases |sources|
  {
    hide SdesPiece, ReadPacket, ReadPieces, VisitOfSource, PacketOf;
    if sources == [] {
      NothingToRead(host);
    } else if |sources| <= PER_PACKET {
      SdesReads(host, sources);
      ReadOnePiece(host, SdesPiece(sources));
    } else {
      var front, rest := sources[..PER_PACKET], sources[PER_PACKET..];
      SdesReads(host, front);
      ReadOnePiece(host, SdesPiece(front));
      SdesRoundTrip(host, rest);
      ReadPiecesConcat(host, [SdesPiece(front)], SdesPieces(rest));
      assert VisitsOfSources(host, front) + VisitsOfSources(host, rest) == VisitsOfSources(host, sources);
    }
  }

  lemma NothingToRead(host: HostOrder)
    ensures ReadPieces(host, []) == Blank
  {
    assert PacketsOf([]) == [];
  }

  /** An APP packet as it comes back. */
  function SeenApp(host: HostOrder, a: App): RawApp {
    RawApp(a.subtype, Seen(host, a.ssrc), a.name, a.data)
  }

  function SeenApps(host: HostOrder, apps: seq<App>): (r: seq<RawApp>)
    ensures |r| == |apps|
    ensures forall i :: 0 <= i < |r| ==> r[i] == SeenApp(host, apps[i])
  {
    seq(|apps|, i requires 0 <= i < |apps| => SeenApp(host, apps[i]))
  }

  lemma AppReads(host: HostOrder, a: App)
    ensures ReadPacket(host, PacketOf(AppPiece(a))) == Blank.(apps := [SeenApp(host, a)])
  {
    hide Header, Big32, Read32;
    AppPieceGood(host, a);
    var piece := AppPiece(a);
    assert piece[4..8] == Big32(a.ssrc) && piece[8..12] == a.name && piece[12..12 + |a.data|] == a.data;
  }

  function SeenSsrcs(host: HostOrder, ssrcs: seq<u32>): (r: seq<u32>)
    ensures |r| == |ssrcs|
    ensures forall i :: 0 <= i < |r| ==> r[i] == Seen(host, ssrcs[i])
  {
    seq(|ssrcs|, i requires 0 <= i < |ssrcs| => Seen(host, ssrcs[i]))
  }

  /** A BYE packet as it comes back. */
  function SeenBye(host: HostOrder, b: Bye): RawBye {
    RawBye(SeenSsrcs(host, b.ssrcs), b.reason)
  }

  function SeenByes(host: HostOrder, byes: seq<Bye>): (r: seq<RawBye>)
    ensures |r| == |byes|
    ensures forall i :: 0 <= i < |r| ==> r[i] == SeenBye(host, byes[i])
  {
    seq(|byes|, i requires 0 <= i < |byes| => SeenBye(host, byes[i]))
  }

  lemma JoinReadings(host: HostOrder, a: App, apps: seq<App>, b: Bye, byes: seq<Bye>)
    ensures Then(Blank.(apps := [SeenApp(host, a)]), Blank.(apps := SeenApps(host, apps))) ==
            Blank.(apps := SeenApps(host, [a] + apps))
    ensures Then(Blank.(byes := [SeenBye(host, b)]), Blank.(byes := SeenByes(host, byes))) ==
            Blank.(byes := SeenByes(host, [b] + byes))
  {
    hide SeenApp, SeenBye;
    assert [SeenApp(host, a)] + SeenApps(host, apps) == SeenApps(host, [a] + apps);
    assert [SeenBye(host, b)] + SeenByes(host, byes) == SeenByes(host, [b] + byes);
  }

  lemma AppPiecesNext(a: App, apps: seq<App>)
    ensures AppPieces([a] + apps) == [AppPiece(a)] + AppPieces(apps)
  {
    hide AppPiece;
  }

  lemma {:induction false} AppsRead(host: HostOrder, apps: seq<App>)
    ensures AllHeaders(AppPieces(apps))
    ensures ReadPieces(host, AppPieces(apps)) == Blank.(apps := SeenApps(host, apps))
    decreases |apps|
  {
    hide AppPiece, AppPieces, ReadPacket, ReadPieces, SeenApp, SeenApps, PacketOf, Then;
    if apps == [] {
      NothingToRead(host);
      NothingSeen(host);
    } else {
      var a, rest := apps[0], apps[1..];
      assert apps == [a] + rest;
      AppReads(host, a);
      ReadOnePiece(host, AppPiece(a));
      AppsRead(host, rest);
      ReadPiecesConcat(host, [AppPiece(a)], AppPieces(rest));
      AppPiecesNext(a, rest);
      JoinReadings(host, a, rest, RawBye([], []), []);
    }
  }

  lemma NothingSeen(host: HostOrder)
    ensures AppPieces([]) == [] && SeenApps(host, []) == []
    ensures ByePieces([]) == [] && SeenByes(host, []) == []
  {
  }

  lemma {:induction false} SsrcBytesAt(ssrcs: seq<u32>, i: nat)
    requires i < |ssrcs|
    ensures SsrcBytes(ssrcs)[4 * i..4 * i + 4] == Big32(ssrcs[i])
  {
    hide Big32;
    var b := SsrcBytes(ssrcs);
    if i > 0 {
      SsrcBytesAt(ssrcs[1..], i - 1);
      assert b[4..] == SsrcBytes(ssrcs[1..]);
      assert b[4 * i..4 * i + 4] == b[4..][4 * (i - 1)..4 * (i - 1) + 4];
    }
  }

  lemma ByeBody(b: Bye)
    ensures var piece, end := ByePiece(b), 4 + 4 * |b.ssrcs|;
            piece[4..end] == SsrcBytes(b.ssrcs) && piece[end..] == ReasonBytes(b.reason)
  {
    hide Header, SsrcBytes, ReasonBytes;
  }

  lemma ByeSsrcs(host: HostOrder, b: Bye)
    ensures Made(PacketOf(ByePiece(b)))
    ensures GetByeSSRCs(host, PacketOf(ByePiece(b))) == SeenSsrcs(host, b.ssrcs)
  {
    hide ByePiece, SsrcBytes, Big32, Read32;
    ByePieceGood(host, b);
    ByeBody(b);
    var piece := ByePiece(b);
    var p := PacketOf(piece);
    forall i | 0 <= i < |b.ssrcs|
      ensures GetByeSSRC(host, p, i) == Seen(host, b.ssrcs[i])
    {
      SsrcBytesAt(b.ssrcs, i);
      SliceOfSlice(piece, 4, 4 + 4 * |b.ssrcs|, 4 * i, 4 * i + 4);
    }
  }

  lemma ByeReason(b: Bye)
    ensures Made(PacketOf(ByePiece(b)))
    ensures GetReason(PacketOf(ByePiece(b))) == b.reason
    ensures HasReasonForLeaving(PacketOf(ByePiece(b))) <==> b.reason != []
  {
    hide ByePiece;
    ByePieceGood(BigEndianHost, b);
    ByeBody(b);
    var piece, end := ByePiece(b), 4 + 4 * |b.ssrcs|;
    var r := ReasonBytes(b.reason);
    assert ContentLength(piece) == Some(|piece|);
    if b.reason != [] {
      assert piece[end..] == piece[end..|piece|] == r;
      assert piece[end] == r[0] == |b.reason|;
      SliceOfSlice(piece, end, |piece|, 1, 1 + |b.reason|);
      assert r[1..1 + |b.reason|] == b.reason;
    }
  }

  lemma ByeReads(host: HostOrder, b: Bye)
    ensures ReadPacket(host, PacketOf(ByePiece(b))) == Blank.(byes := [SeenBye(host, b)])
  {
    hide ByePiece, GetByeSSRCs, GetReason, HasReasonForLeaving, SeenSsrcs;
    ByePieceGood(host, b);
    ByeSsrcs(host, b);
    ByeReason(b);
  }

  lemma ByePiecesNext(b: Bye, byes: seq<Bye>)
    ensures ByePieces([b] + byes) == [ByePiece(b)] + ByePieces(byes)
  {
    hide ByePiece;
  }

  lemma {:induction false} ByesRead(host: HostOrder, byes: seq<Bye>)
    ensures AllHeaders(ByePieces(byes))
    ensures ReadPieces(host, ByePieces(byes)) == Blank.(byes := SeenByes(host, byes))
    decreases |byes|
  {
    hide ByePiece, ByePieces, ReadPacket, ReadPieces, SeenBye, SeenByes, PacketOf, Then;
    if byes == [] {
      NothingToRead(host);
      NothingSeen(host);
    } else {
      var b, rest := byes[0], byes[1..];
      assert byes == [b] + rest;
      ByeReads(host, b);
      ReadOnePiece(host, ByePiece(b));
      ByesRead(host, rest);
      ReadPiecesConcat(host, [ByePiece(b)], ByePieces(rest));
      ByePiecesNext(b, rest);
      JoinReadings(host, RawApp(0, 0, [0, 0, 0, 0], []), [], b, rest);
    }
  }

  // ---- the whole compound packet ----

  /** Reports first, SR before RR, then SDES, APP and BYE. */
  function Rank(piece: seq<byte>): nat
    requires |piece| >= HEADER_SIZE
  {
    if piece[1] == TYPE_SR then 0
    else if piece[1] == TYPE_RR then 1
    else if piece[1] == TYPE_SDES then 2
    else if piece[1] == TYPE_APP then 3
    else 4
  }

  /** A packet as it should be written: word-aligned, version 2, without padding, a
      type of this rank or more, and accepted by its own class. */
  predicate WellWritten(host: HostOrder, piece: seq<byte>, lo: nat, hi: nat) {
    && |piece| >= HEADER_SIZE && |piece| % 4 == 0
    && Version(piece) == RTP_VERSION && !HasPadding(piece) && Count(piece) <= 31
    && lo <= Rank(piece) <= hi
    && Known(piece) && LengthsAgree(host, piece)
  }

  ghost predicate AllWellWritten(host: HostOrder, pieces: seq<seq<byte>>, lo: nat, hi: nat) {
    forall i :: 0 <= i < |pieces| ==> WellWritten(host, pieces[i], lo, hi)
  }

  ghost predicate Ordered(pieces: seq<seq<byte>>) {
    AllHeaders(pieces) && forall i, j :: 0 <= i < j < |pieces| ==> Rank(pieces[i]) <= Rank(pieces[j])
  }

  lemma ReportPieceWritten(host: HostOrder, h: ReportHeader, blocks: seq<ReportBlock>)
    requires !h.NoReport? && |blocks| <= PER_PACKET
    ensures var piece, rank := ReportPiece(h, blocks), if h.SenderReport? then 0 else 1;
            WellWritten(host, piece, rank, rank) && StartsWithReport(piece)
  {
    hide ReportPiece, Known, LengthsAgree, Version, HasPadding;
    ReportPieceGood(host, h, blocks);
  }

  lemma {:induction false} ReportsWritten(host: HostOrder, h: ReportHeader, blocks: seq<ReportBlock>)
    requires !h.NoReport?
    ensures var pieces := ReportPieces(h, blocks);
            && AllWellWritten(host, pieces, if h.SenderReport? then 0 else 1, 1)
            && Ordered(pieces) && StartsWithReport(pieces[0])
    decreases |blocks|
  {
    hide ReportPiece, Known, LengthsAgree, Version, HasPadding, Count, Rank;
    if |blocks| <= PER_PACKET {
      ReportPieceWritten(host, h, blocks);
    } else {
      var first, rest := ReportPiece(h, blocks[..PER_PACKET]), ReportPieces(Continued(h), blocks[PER_PACKET..]);
      ReportPieceWritten(host, h, blocks[..PER_PACKET]);
      ReportsWritten(host, Continued(h), blocks[PER_PACKET..]);
      JoinRanks(host, first, rest, if h.SenderReport? then 0 else 1);
    }
  }

  lemma JoinRanks(host: HostOrder, first: seq<byte>, rest: seq<seq<byte>>, rank: nat)
    requires WellWritten(host, first, rank, rank) && rank <= 1
    requires AllWellWritten(host, rest, 1, 1) && Ordered(rest)
    ensures AllWellWritten(host, [first] + rest, rank, 1) && Ordered([first] + rest)
  {
    hide Known, LengthsAgree, Version, HasPadding, Count, Rank;
    var all := [first] + rest;
    forall i | 0 < i < |all|
      ensures all[i] == rest[i - 1] && WellWritten(host, all[i], 1, 1)
    {
      assert WellWritten(host, rest[i - 1], 1, 1);
    }
  }

  lemma SdesPieceWritten(host: HostOrder, sources: seq<Source>)
    requires |sources| <= PER_PACKET
    ensures WellWritten(host, SdesPiece(sources), 2, 2)
  {
    hide SdesPiece, Known, LengthsAgree, Version, HasPadding, SourcesBytes, PacketChunks;
    SdesPieceGood(host, sources);
    SdesPieceChunks(sources);
  }

  lemma {:induction false} SdesWritten(host: HostOrder, sources: seq<Source>)
    ensures AllWellWritten(host, SdesPieces(sources), 2, 2)
    decreases |sources|
  {
    hide SdesPiece, WellWritten;
    if sources == [] {
    } else if |sources| <= PER_PACKET {
      SdesPieceWritten(host, sources);
    } else {
      SdesPieceWritten(host, sources[..PER_PACKET]);
      SdesWritten(host, sources[PER_PACKET..]);
    }
  }

  lemma AppsWritten(host: HostOrder, apps: seq<App>)
    ensures AllWellWritten(host, AppPieces(apps), 3, 3)
  {
    hide AppPiece, Known, LengthsAgree, Version, HasPadding, Count;
    forall i | 0 <= i < |apps|
      ensures WellWritten(host, AppPieces(apps)[i], 3, 3)
    {
      AppPieceGood(host, apps[i]);
    }
  }

  lemma ByesWritten(host: HostOrder, byes: seq<Bye>)
    ensures AllWellWritten(host, ByePieces(byes), 4, 4)
  {
    hide ByePiece, Known, LengthsAgree, Version, HasPadding, Count;
    forall i | 0 <= i < |byes|
      ensures WellWritten(host, ByePieces(byes)[i], 4, 4)
    {
      ByePieceGood(host, byes[i]);
    }
  }

  /** The packets of a compound: all well written, in the order reports, SDES, APP,
      BYE, starting with a report; together they are the spelling. */
  lemma PiecesWritten(host: HostOrder, c: Compound)
    requires !c.header.NoReport?
    ensures var pieces := Pieces(c);
            && pieces != [] && StartsWithReport(pieces[0])
            && AllWellWritten(host, pieces, 0, 4) && Ordered(pieces)
            && Flatten(pieces) == Spelling(c)
  {
    hide ReportPieces, SdesPieces, AppPieces, ByePieces, Known, LengthsAgree, Version, HasPadding, Count,
      Rank, Flatten;
    var rp, sp, ap, bp := ReportPieces(c.header, c.blocks), SdesPieces(c.sources), AppPieces(c.apps), ByePieces(c.byes);
    ReportsWritten(host, c.header, c.blocks);
    SdesWritten(host, c.sources);
    AppsWritten(host, c.apps);
    ByesWritten(host, c.byes);
    JoinOrdered(host, rp, sp, 0, 1, 2, 2);
    JoinOrdered(host, rp + sp, ap, 0, 2, 3, 3);
    JoinOrdered(host, rp + sp + ap, bp, 0, 3, 4, 4);
    assert Pieces(c)[0] == rp[0];
  }

  lemma JoinOrdered(host: HostOrder, a: seq<seq<byte>>, b: seq<seq<byte>>, alo: nat, ahi: nat, blo: nat, bhi: nat)
    requires AllWellWritten(host, a, alo, ahi) && Ordered(a)
    requires AllWellWritten(host, b, blo, bhi) && alo <= ahi <= blo == bhi
    ensures AllWellWritten(host, a + b, alo, bhi) && Ordered(a + b)
  {
    hide Known, LengthsAgree, Version, HasPadding, Count, Rank;
    var ab := a + b;
    forall i | 0 <= i < |ab|
      ensures WellWritten(host, ab[i], alo, bhi)
    {
      if i < |a| {
        assert WellWritten(host, a[i], alo, ahi);
      } else {
        assert WellWritten(host, b[i - |a|], blo, bhi);
      }
    }
    forall i, j | 0 <= i < j < |ab|
      ensures Rank(ab[i]) <= Rank(ab[j])
    {
      if i < |a| && j < |a| {
        assert ab[i] == a[i] && ab[j] == a[j];
      } else if i < |a| {
        assert WellWritten(host, a[i], alo, ahi) && WellWritten(host, b[j - |a|], blo, bhi);
      } else {
        assert WellWritten(host, b[i - |a|], blo, bhi) && WellWritten(host, b[j - |a|], blo, bhi);
      }
    }
  }

  /** Every length word of the packet reads back. */
  predicate LengthsReadBack(host: HostOrder, c: Compound) {
    forall i :: 0 <= i < |Pieces(c)| ==> |Pieces(c)[i]| >= HEADER_SIZE && LengthReadsBack(host, |Pieces(c)[i]|)
  }

  /** The parser takes the packet apart into the packets it was written as. */
  predicate ParsedBack(host: HostOrder, c: Compound) {
    Split(host, Spelling(c)) == Some(Pieces(c)) && StartsWithReport(Spelling(c))
  }

  /** The parser finds the same packets again iff every length word reads back:
      sizes up to 262144, on a big-endian host or with palindromic words. */
  lemma ParsesBack(host: HostOrder, c: Compound)
    requires !c.header.NoReport?
    ensures ParsedBack(host, c) <==> LengthsReadBack(host, c)
  {
    hide Pieces, Spelling, LengthReadsBack, AnnouncedLength, Version, HasPadding, Count, Known, Rank, Split,
      StartsWithReport;
    PiecesWritten(host, c);
    var pieces := Pieces(c);
    if LengthsReadBack(host, c) {
      forall i | 0 <= i < |pieces|
        ensures ValidPiece(host, pieces[i], i == |pieces| - 1)
      {
        assert WellWritten(host, pieces[i], 0, 4);
      }
      SplitComplete(host, pieces);
      SplitSound(host, Spelling(c));
    }
    if Split(host, Spelling(c)) == Some(pieces) {
      SplitSound(host, Spelling(c));
      forall i | 0 <= i < |pieces|
        ensures |pieces[i]| >= HEADER_SIZE && LengthReadsBack(host, |pieces[i]|)
      {
        assert ValidPiece(host, pieces[i], i == |pieces| - 1);
        assert WellWritten(host, pieces[i], 0, 4);
      }
    }
  }

  lemma {:induction false} PieceFits(pieces: seq<seq<byte>>, i: nat)
    requires i < |pieces|
    ensures |pieces[i]| <= |Flatten(pieces)|
  {
    if i > 0 {
      PieceFits(pieces[1..], i - 1);
    }
  }

  /** On a big-endian host up to 262144 bytes every length word reads back. */
  lemma BigEndianLengths(c: Compound)
    requires !c.header.NoReport? && Size(c) <= 262144
    ensures LengthsReadBack(BigEndianHost, c)
  {
    hide Pieces, Flatten, WellWritten;
    PiecesWritten(BigEndianHost, c);
    forall i | 0 <= i < |Pieces(c)|
      ensures |Pieces(c)[i]| >= HEADER_SIZE && LengthReadsBack(BigEndianHost, |Pieces(c)[i]|)
    {
      PieceFits(Pieces(c), i);
    }
  }

  /** The length word of a small packet, with its two bytes swapped. */
  lemma SwappedLength(count: nat, packetType: byte, size: nat, rest: seq<byte>)
    requires count <= 31 && 8 <= size < 1028 && size % 4 == 0
    ensures AnnouncedLength(LittleEndianHost, Header(count, packetType, size) + rest) == 4 + 1024 * (size / 4 - 1)
  {
    var data, words: u16 := Header(count, packetType, size) + rest, size / 4 - 1;
    assert data[2..4] == Big16(words);
    hide Header;
    SwappedWord(words);
  }

  lemma SwappedWord(w: u16)
    requires w < 0x100
    ensures Read16(LittleEndianHost, Big16(w)) == 256 * w
  {
  }

  lemma TooMuchAnnounced(host: HostOrder, data: seq<byte>)
    requires |data| >= HEADER_SIZE && AnnouncedLength(host, data) > |data|
    ensures Split(host, data) == None
  {
    hide AnnouncedLength, Version, HasPadding;
  }

  lemma FirstReport(c: Compound)
    requires !c.header.NoReport?
    ensures Pieces(c) != [] && exists blocks :: |blocks| <= PER_PACKET && Pieces(c)[0] == ReportPiece(c.header, blocks)
  {
    hide ReportPiece, SdesPieces, AppPieces, ByePieces;
  }

  /** On a little-endian host no compound packet of less than 1028 bytes is taken apart
      at all: its first length word announces more than there is. */
  lemma LittleEndianRefuses(c: Compound)
    requires !c.header.NoReport? && Size(c) < 1028
    ensures Split(LittleEndianHost, Spelling(c)) == None
  {
    hide Pieces, BlocksBytes, HeaderData, Header, AnnouncedLength, Split;
    FirstReport(c);
    var blocks :| |blocks| <= PER_PACKET && Pieces(c)[0] == ReportPiece(c.header, blocks);
    PieceFits(Pieces(c), 0);
    var first, body := Pieces(c)[0], HeaderData(c.header) + BlocksBytes(blocks);
    var head, rest := Header(|blocks|, ReportType(c.header), |first|), Flatten(Pieces(c)[1..]);
    assert Spelling(c) == head + (body + rest) by {
      ConcatAssociative(head, body, rest);
    }
    SwappedLength(|blocks|, ReportType(c.header), |first|, body + rest);
    TooMuchAnnounced(LittleEndianHost, Spelling(c));
  }

  // ---- what comes back of the whole ----

  lemma ThenParts(h: ReportHeader, blocks: seq<ReportBlock>, visits: seq<Visit>, apps: seq<RawApp>, byes: seq<RawBye>)
    ensures Then(Then(Then(Blank.(header := h, blocks := blocks), Blank.(visits := visits)), Blank.(apps := apps)),
                 Blank.(byes := byes)) == Reading(h, blocks, visits, apps, byes)
  {
  }

  /** The reading of a compound packet on a host, when it is parsed at all. */
  function SeenCompound(host: HostOrder, c: Compound): Reading {
    Reading(SeenHeader(host, c.header), SeenBlocks(host, c.blocks), VisitsOfSources(host, c.sources),
            SeenApps(host, c.apps), SeenByes(host, c.byes))
  }

  lemma WholeReads(host: HostOrder, c: Compound)
    requires !c.header.NoReport?
    ensures AllHeaders(Pieces(c))
    ensures ReadPieces(host, Pieces(c)) == SeenCompound(host, c)
  {
    hide ReportPieces, SdesPieces, AppPieces, ByePieces, ReadPieces, VisitsOfSources, SeenHeader, SeenBlocks,
      SeenApps, SeenByes, Then;
    ThenParts(SeenHeader(host, c.header), SeenBlocks(host, c.blocks), VisitsOfSources(host, c.sources),
              SeenApps(host, c.apps), SeenByes(host, c.byes));
    var rp, sp, ap, bp := ReportPieces(c.header, c.blocks), SdesPieces(c.sources), AppPieces(c.apps), ByePieces(c.byes);
    ReportsRead(host, c.header, c.blocks);
    SdesRoundTrip(host, c.sources);
    AppsRead(host, c.apps);
    ByesRead(host, c.byes);
    ReadPiecesConcat(host, rp, sp);
    ReadPiecesConcat(host, rp + sp, ap);
    ReadPiecesConcat(host, rp + sp + ap, bp);
  }

  predicate PalindromeHeader(h: ReportHeader) {
    match h
    case NoReport => true
    case SenderReport(ssrc, i) =>
      Palindrome32(ssrc) && Palindrome32(i.ntpMsw) && Palindrome32(i.ntpLsw) && Palindrome32(i.rtpTimestamp) &&
      Palindrome32(i.packetCount) && Palindrome32(i.octetCount)
    case ReceiverReport(ssrc) => Palindrome32(ssrc)
  }

  predicate PalindromeSsrcs(ssrcs: seq<u32>) {
    forall i :: 0 <= i < |ssrcs| ==> Palindrome32(ssrcs[i])
  }

  /** Every 32-bit field of the packet reads the same in both directions. */
  predicate PalindromeCompound(c: Compound) {
    && PalindromeHeader(c.header)
    && (forall i :: 0 <= i < |c.blocks| ==> PalindromeBlock(c.blocks[i]))
    && (forall i :: 0 <= i < |c.sources| ==> Palindrome32(c.sources[i].ssrc))
    && (forall i :: 0 <= i < |c.apps| ==> Palindrome32(c.apps[i].ssrc))
    && (forall i :: 0 <= i < |c.byes| ==> PalindromeSsrcs(c.byes[i].ssrcs))
  }

  predicate LossesFit(c: Compound) {
    forall i :: 0 <= i < |c.blocks| ==> LossFits(c.blocks[i])
  }

  /** The sources as they were added. */
  function VisitsAdded(sources: seq<Source>): (r: seq<Visit>)
    ensures |r| == |sources|
    ensures forall i :: 0 <= i < |r| ==> r[i] == Visit(sources[i].ssrc, sources[i].values)
  {
    seq(|sources|, i requires 0 <= i < |sources| => Visit(sources[i].ssrc, sources[i].values))
  }

  /** The reading that gives back what was put in. */
  function WhatWasAdded(c: Compound): Reading {
    Reading(c.header, c.blocks, VisitsAdded(c.sources), c.apps, c.byes)
  }

  lemma HeaderComesBack(host: HostOrder, h: ReportHeader)
    ensures SeenHeader(host, h) == h <==> host.BigEndianHost? || PalindromeHeader(h)
  {
    hide Seen, Palindrome32;
    match h
    case NoReport =>
    case SenderReport(ssrc, i) =>
      SeenIsSame(host, ssrc);
      SeenIsSame(host, i.ntpMsw);
      SeenIsSame(host, i.ntpLsw);
      SeenIsSame(host, i.rtpTimestamp);
      SeenIsSame(host, i.packetCount);
      SeenIsSame(host, i.octetCount);
    case ReceiverReport(ssrc) =>
      SeenIsSame(host, ssrc);
  }

  lemma BlocksComeBack(host: HostOrder, blocks: seq<ReportBlock>)
    ensures SeenBlocks(host, blocks) == blocks <==>
            forall i :: 0 <= i < |blocks| ==> LossFits(blocks[i]) && (host.BigEndianHost? || PalindromeBlock(blocks[i]))
  {
    hide SeenBlock, LossFits, PalindromeBlock, ReadBlock;
    forall i | 0 <= i < |blocks|
      ensures SeenBlocks(host, blocks)[i] == blocks[i] <==>
              LossFits(blocks[i]) && (host.BigEndianHost? || PalindromeBlock(blocks[i]))
    {
      BlockRoundTrip(host, blocks[i]);
    }
  }

  lemma SourcesComeBack(host: HostOrder, sources: seq<Source>)
    ensures VisitsOfSources(host, sources) == VisitsAdded(sources) <==>
            host.BigEndianHost? || forall i :: 0 <= i < |sources| ==> Palindrome32(sources[i].ssrc)
  {
    hide Seen, Palindrome32;
    forall i | 0 <= i < |sources|
      ensures VisitsOfSources(host, sources)[i] == VisitsAdded(sources)[i] <==>
              host.BigEndianHost? || Palindrome32(sources[i].ssrc)
    {
      SeenIsSame(host, sources[i].ssrc);
    }
  }

  lemma AppsComeBack(host: HostOrder, apps: seq<App>)
    ensures SeenApps(host, apps) == apps <==>
            host.BigEndianHost? || forall i :: 0 <= i < |apps| ==> Palindrome32(apps[i].ssrc)
  {
    hide Seen, Palindrome32;
    forall i | 0 <= i < |apps|
      ensures SeenApps(host, apps)[i] == apps[i] <==> host.BigEndianHost? || Palindrome32(apps[i].ssrc)
    {
      SeenIsSame(host, apps[i].ssrc);
    }
  }

  lemma SsrcsComeBack(host: HostOrder, ssrcs: seq<u32>)
    ensures SeenSsrcs(host, ssrcs) == ssrcs <==> host.BigEndianHost? || PalindromeSsrcs(ssrcs)
  {
    hide Seen, Palindrome32;
    forall i | 0 <= i < |ssrcs|
      ensures SeenSsrcs(host, ssrcs)[i] == ssrcs[i] <==> host.BigEndianHost? || Palindrome32(ssrcs[i])
    {
      SeenIsSame(host, ssrcs[i]);
    }
  }

  lemma ByesComeBack(host: HostOrder, byes: seq<Bye>)
    ensures SeenByes(host, byes) == byes <==>
            host.BigEndianHost? || forall i :: 0 <= i < |byes| ==> PalindromeSsrcs(byes[i].ssrcs)
  {
    hide SeenSsrcs, PalindromeSsrcs;
    forall i | 0 <= i < |byes|
      ensures SeenByes(host, byes)[i] == byes[i] <==> host.BigEndianHost? || PalindromeSsrcs(byes[i].ssrcs)
    {
      SsrcsComeBack(host, byes[i].ssrcs);
    }
  }

  /** What was added is what is read iff every loss count fits 24 bits and the host is
      big-endian or every 32-bit field is a byte palindrome. */
  lemma SeenIsAdded(host: HostOrder, c: Compound)
    ensures SeenCompound(host, c) == WhatWasAdded(c) <==>
            LossesFit(c) && (host.BigEndianHost? || PalindromeCompound(c))
  {
    hide SeenHeader, SeenBlocks, VisitsOfSources, VisitsAdded, SeenApps, SeenByes, LossFits, PalindromeHeader,
      PalindromeBlock, Palindrome32, PalindromeSsrcs;
    HeaderComesBack(host, c.header);
    BlocksComeBack(host, c.blocks);
    SourcesComeBack(host, c.sources);
    AppsComeBack(host, c.apps);
    ByesComeBack(host, c.byes);
  }

  /** On every host: a compound packet is parsed into the packets it was written as, and
      they give back what was added, iff every length word reads back, every loss count
      fits 24 bits, and the host is big-endian or every 32-bit field a byte palindrome. */
  lemma CompoundRoundTrip(host: HostOrder, c: Compound)
    requires !c.header.NoReport?
    ensures AllHeaders(Pieces(c))
    ensures ParsedBack(host, c) && ReadPieces(host, Pieces(c)) == WhatWasAdded(c) <==>
            LengthsReadBack(host, c) && LossesFit(c) && (host.BigEndianHost? || PalindromeCompound(c))
    ensures Size(c) <= 262144 ==> LengthsReadBack(BigEndianHost, c)
  {
    hide Pieces, ReadPieces, ParsedBack, LengthsReadBack, LossesFit, PalindromeCompound, SeenCompound,
      WhatWasAdded, Size;
    WholeReads(host, c);
    ParsesBack(host, c);
    SeenIsAdded(host, c);
    if Size(c) <= 262144 {
      BigEndianLengths(c);
    }
  }

  /** The smallest report, on a little-endian host: its length word, 1, is read as 256. */
  lemma SmallestReportRefused()
    ensures var data := ReportPiece(ReceiverReport(1), []);
            && |data| == 8 && AnnouncedLength(LittleEndianHost, data) == 1028 && Split(LittleEndianHost, data) == None
  {
    hide Split;
    var body := HeaderData(ReceiverReport(1)) + BlocksBytes([]);
    SwappedLength(0, TYPE_RR, 8, body);
    TooMuchAnnounced(LittleEndianHost, ReportPiece(ReceiverReport(1), []));
  }
}
