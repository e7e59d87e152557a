/** What a receiver learns from the packets of the report builder, on a host that reads
    network order. */
module PacketReception {
  import opened Bytes
  import opened Wrappers
  import opened SdesFormat
  import opened RtcpHeader
  import opened RtcpPackets
  import opened CompoundFormat
  import opened CompoundBuilder
  import opened CompoundParser
  import opened CompoundRoundTrip
  import opened ReportPass
  import opened SdesCycle
  import opened ReportBuilder
  import opened ReportRuns
  import Scheduler

  /** What stays of the head of a packet, whatever is filled in. */
  lemma HeadStays(p: ReportRuns.Packet, h: ReportHeader, ssrc: u32, cname: Text)
    requires IsBuilt(p) && p.head == Head(h, ssrc, cname, [])
    ensures p.c.header == h && p.c.apps == [] && p.c.byes == [] && |p.c.sources| == 1
    ensures p.c.sources[0].ssrc == ssrc
    ensures p.c.sources[0].values != [] && p.c.sources[0].values[0] == Normal(CNAME, cname)
  {
    hide Size, BlocksTo, MarkTo, ValuesTo, DoneAfter, DueAt, IsPass, SkippedTo, SentTo, Pending;
  }

  /** Every packet of the builder comes back as it was built: parsed whole, a sender's report
      with the sender's information exactly when we have sent, our SSRC, and the CNAME in
      front of all other items. */
  lemma ReceiverSees(p: ReportRuns.Packet, ssrc: u32, sender: Option<SenderInfo>, cname: Text)
    requires IsBuilt(p) && p.head == Head(HeaderFor(ssrc, sender), ssrc, cname, []) && Size(p.c) <= 262144
    ensures ParsedBack(BigEndianHost, p.c) && AllHeaders(Pieces(p.c))
    ensures var seen := ReadPieces(BigEndianHost, Pieces(p.c));
            && (sender.None? ==> seen.header == ReceiverReport(ssrc))
            && (sender.Some? ==> seen.header == SenderReport(ssrc, sender.value))
            && |seen.blocks| == |p.c.blocks| && seen.apps == [] && seen.byes == [] && |seen.visits| == 1
            && seen.visits[0].ssrc == ssrc && seen.visits[0].values != []
            && seen.visits[0].values[0] == Normal(CNAME, cname)
  {
    HeadStays(p, HeaderFor(ssrc, sender), ssrc, cname);
    hide IsBuilt, Size, Pieces, ParsedBack, LengthsReadBack, ReadPieces, SeenBlocks;
    BigEndianLengths(p.c);
    ParsesBack(BigEndianHost, p.c);
    WholeReads(BigEndianHost, p.c);
    HeaderComesBack(BigEndianHost, p.c.header);
    SourcesComeBack(BigEndianHost, p.c.sources);
  }

  // ---- recognising a BYE ----

  lemma HasByeConcat(a: seq<RTCPPacket>, b: seq<RTCPPacket>)
    ensures Scheduler.HasBye(a + b) <==> Scheduler.HasBye(a) || Scheduler.HasBye(b)
  {
    if p :| p in a + b && p.BYE? {
      assert p in a || p in b;
    }
    if p :| p in a && p.BYE? {
      assert p in a + b;
    }
    if p :| p in b && p.BYE? {
      assert p in a + b;
    }
  }

  lemma NoBye(host: HostOrder, pieces: seq<seq<byte>>, lo: nat, hi: nat)
    requires AllWellWritten(host, pieces, lo, hi) && hi < 4
    ensures AllHeaders(pieces) && !Scheduler.HasBye(PacketsOf(pieces))
  {
    hide Known, LengthsAgree, Version, HasPadding, Count, IsSR, IsRR, IsSDES, IsBYE, IsAPP;
    forall i | 0 <= i < |pieces|
      ensures |pieces[i]| >= HEADER_SIZE && !PacketOf(pieces[i]).BYE?
    {
      assert WellWritten(host, pieces[i], lo, hi);
    }
  }

  /** The packets of a compound hold a BYE packet exactly if one was added. */
  lemma ByeIsRecognised(c: Compound)
    requires !c.header.NoReport?
    ensures AllHeaders(Pieces(c))
    ensures Scheduler.HasBye(PacketsOf(Pieces(c))) <==> c.byes != []
  {
    hide ReportPieces, SdesPieces, AppPieces, ByePiece, Scheduler.HasBye, PacketsOf, WellWritten, Ordered;
    var h := BigEndianHost;
    var rp, sp, ap, bp := ReportPieces(c.header, c.blocks), SdesPieces(c.sources), AppPieces(c.apps), ByePieces(c.byes);
    ReportsWritten(h, c.header, c.blocks);
    SdesWritten(h, c.sources);
    AppsWritten(h, c.apps);
    NoBye(h, rp, if c.header.SenderReport? then 0 else 1, 1);
    NoBye(h, sp, 2, 2);
    NoBye(h, ap, 3, 3);
    ByesAreByes(c.byes);
    PacketsOfConcat(rp, sp);
    PacketsOfConcat(rp + sp, ap);
    PacketsOfConcat(rp + sp + ap, bp);
    HasByeConcat(PacketsOf(rp), PacketsOf(sp));
    HasByeConcat(PacketsOf(rp + sp), PacketsOf(ap));
    HasByeConcat(PacketsOf(rp + sp + ap), PacketsOf(bp));
  }

  lemma ByesAreByes(byes: seq<Bye>)
    ensures AllHeaders(ByePieces(byes))
    ensures Scheduler.HasBye(PacketsOf(ByePieces(byes))) <==> byes != []
  {
    hide ByePiece, IsBYE, Known, LengthsAgree, Count, ContentLength;
    var packets := PacketsOf(ByePieces(byes));
    forall i | 0 <= i < |byes|
      ensures packets[i].BYE? && packets[i] in packets
    {
      ByePieceGood(BigEndianHost, byes[i]);
    }
    if byes != [] {
      assert packets[0] in packets;
    }
  }
}
