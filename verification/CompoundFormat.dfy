/** What a compound packet says, and the packets it is spelled with: reports, SDES,
    APP and BYE (sections 6.4 to 6.7 of RFC 3550), at most 31 report blocks or SDES
    chunks to a packet. */
module CompoundFormat {
  import opened Bytes
  import opened RtcpHeader
  import opened SdesFormat

  datatype SenderInfo = SenderInfo(ntpMsw: u32, ntpLsw: u32, rtpTimestamp: u32, packetCount: u32, octetCount: u32)

  datatype ReportHeader =
    | NoReport
    | SenderReport(ssrc: u32, info: SenderInfo)
    | ReceiverReport(ssrc: u32)

  datatype ReportBlock = ReportBlock(ssrc: u32, fractionLost: byte, packetsLost: i32,
                                     extHighSeq: u32, jitter: u32, lsr: u32, dlsr: u32)

  /** Item values the builder lets in. */
  type Value = v: SdesValue | Writable(v)
    witness Private([], [])

  datatype Source = Source(ssrc: u32, values: seq<Value>)

  datatype RawApp = RawApp(subtype: nat, ssrc: u32, name: seq<byte>, data: seq<byte>)

  type App = a: RawApp | a.subtype <= 31 && |a.name| == 4 && |a.data| % 4 == 0 && |a.data| / 4 + 2 <= 65535
    witness RawApp(0, 0, [0, 0, 0, 0], [])

  datatype RawBye = RawBye(ssrcs: seq<u32>, reason: seq<byte>)

  type Bye = b: RawBye | |b.ssrcs| <= 31 && |b.reason| <= 255
    witness RawBye([], [])

  datatype Compound = Compound(header: ReportHeader, blocks: seq<ReportBlock>,
                               sources: seq<Source>, apps: seq<App>, byes: seq<Bye>)

  const Nothing := Compound(NoReport, [], [], [], [])

  const PER_PACKET := 31

  // ---- reports ----

  function InfoBytes(i: SenderInfo): (r: seq<byte>)
    ensures |r| == 20
  {
    Big32(i.ntpMsw) + Big32(i.ntpLsw) + Big32(i.rtpTimestamp) + Big32(i.packetCount) + Big32(i.octetCount)
  }

  function HeaderData(h: ReportHeader): (r: seq<byte>)
    ensures |r| == match h case NoReport => 0 case SenderReport(_, _) => 24 case ReceiverReport(_) => 4
  {
    match h
    case NoReport => []
    case SenderReport(ssrc, info) => Big32(ssrc) + InfoBytes(info)
    case ReceiverReport(ssrc) => Big32(ssrc)
  }

  function ReportType(h: ReportHeader): byte {
    if h.SenderReport? then TYPE_SR else TYPE_RR
  }

  /** The low 24 bits, most significant byte first. */
  function LostBytes(lost: i32): (r: seq<byte>)
    ensures |r| == 3
  {
    var low: nat := lost % 0x100_0000;
    [low / 0x1_0000, low / 0x100 % 0x100, low % 0x100]
  }

  function BlockBytes(b: ReportBlock): (r: seq<byte>)
    ensures |r| == 24
  {
    Big32(b.ssrc) + [b.fractionLost] + LostBytes(b.packetsLost) +
    Big32(b.extHighSeq) + Big32(b.jitter) + Big32(b.lsr) + Big32(b.dlsr)
  }

  function BlocksBytes(blocks: seq<ReportBlock>): (r: seq<byte>)
    ensures |r| == 24 * |blocks|
  {
    if blocks == [] then [] else BlockBytes(blocks[0]) + BlocksBytes(blocks[1..])
  }

  function ReportPiece(h: ReportHeader, blocks: seq<ReportBlock>): (r: seq<byte>)
    requires !h.NoReport? && |blocks| <= PER_PACKET
    ensures |r| == 4 + |HeaderData(h)| + 24 * |blocks|
  {
    var body := HeaderData(h) + BlocksBytes(blocks);
    Header(|blocks|, ReportType(h), 4 + |body|) + body
  }

  /** What the packets after the first start with. */
  function Continued(h: ReportHeader): ReportHeader
    requires !h.NoReport?
  {
    ReceiverReport(h.ssrc)
  }

  function ReportPieces(h: ReportHeader, blocks: seq<ReportBlock>): (r: seq<seq<byte>>)
    requires !h.NoReport?
    ensures r != []
    decreases |blocks|
  {
    if |blocks| <= PER_PACKET then [ReportPiece(h, blocks)]
    else [ReportPiece(h, blocks[..PER_PACKET])] + ReportPieces(Continued(h), blocks[PER_PACKET..])
  }

  // ---- source descriptions ----

  function WireItems(values: seq<Value>): (r: seq<Item>)
    ensures |r| == |values|
    ensures forall i :: 0 <= i < |r| ==> r[i] == WireItem(values[i])
  {
    seq(|values|, i requires 0 <= i < |values| => WireItem(values[i]))
  }

  function WireChunk(s: Source): Chunk
  {
    Chunk(Big32(s.ssrc), WireItems(s.values))
  }

  function SourceBytes(s: Source): (r: seq<byte>)
    ensures |r| == ChunkSize(WireChunk(s))
  {
    var items := ItemsBytes(WireItems(s.values));
    Big32(s.ssrc) + items + [0] + Zeros(PadLength(5 + |items|))
  }

  function SourcesBytes(sources: seq<Source>): (r: seq<byte>)
    ensures |r| % 4 == 0
  {
    if sources == [] then [] else SourceBytes(sources[0]) + SourcesBytes(sources[1..])
  }

  function SdesPiece(sources: seq<Source>): (r: seq<byte>)
    requires |sources| <= PER_PACKET
    ensures |r| == 4 + |SourcesBytes(sources)|
  {
    var body := SourcesBytes(sources);
    Header(|sources|, TYPE_SDES, 4 + |body|) + body
  }

  function SdesPieces(sources: seq<Source>): seq<seq<byte>>
    decreases |sources|
  {
    if sources == [] then []
    else if |sources| <= PER_PACKET then [SdesPiece(sources)]
    else [SdesPiece(sources[..PER_PACKET])] + SdesPieces(sources[PER_PACKET..])
  }

  // ---- APP and BYE ----

  function AppPiece(a: App): (r: seq<byte>)
    ensures |r| == 12 + |a.data|
  {
    Header(a.subtype, TYPE_APP, 12 + |a.data|) + Big32(a.ssrc) + a.name + a.data
  }

  function AppPieces(apps: seq<App>): (r: seq<seq<byte>>)
    ensures |r| == |apps| && forall i :: 0 <= i < |r| ==> r[i] == AppPiece(apps[i])
  {
    seq(|apps|, i requires 0 <= i < |apps| => AppPiece(apps[i]))
  }

  function SsrcBytes(ssrcs: seq<u32>): (r: seq<byte>)
    ensures |r| == 4 * |ssrcs|
  {
    if ssrcs == [] then [] else Big32(ssrcs[0]) + SsrcBytes(ssrcs[1..])
  }

  /** Nothing for an empty reason; otherwise its length, its text and padding. */
  function ReasonBytes(reason: seq<byte>): (r: seq<byte>)
    requires |reason| <= 255
    ensures |r| % 4 == 0
  {
    if reason == [] then []
    else [|reason|] + reason + Zeros(PadLength(1 + |reason|))
  }

  function ByePiece(b: Bye): (r: seq<byte>)
    ensures |r| == 4 + 4 * |b.ssrcs| + |ReasonBytes(b.reason)|
  {
    var body := SsrcBytes(b.ssrcs) + ReasonBytes(b.reason);
    Header(|b.ssrcs|, TYPE_BYE, 4 + |body|) + body
  }

  function ByePieces(byes: seq<Bye>): (r: seq<seq<byte>>)
    ensures |r| == |byes| && forall i :: 0 <= i < |r| ==> r[i] == ByePiece(byes[i])
  {
    seq(|byes|, i requires 0 <= i < |byes| => ByePiece(byes[i]))
  }

  // ---- the whole ----

  function Reports(c: Compound): seq<seq<byte>> {
    if c.header.NoReport? then [] else ReportPieces(c.header, c.blocks)
  }

  function Pieces(c: Compound): seq<seq<byte>>
  {
    Reports(c) + SdesPieces(c.sources) + AppPieces(c.apps) + ByePieces(c.byes)
  }

  function Spelling(c: Compound): seq<byte>
  {
    Flatten(Pieces(c))
  }

  /** Size in bytes of the compound packet. */
  function Size(c: Compound): nat
  {
    |Spelling(c)|
  }
}
