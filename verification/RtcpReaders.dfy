/** The accessors of the packet objects: what a receiver reads out of the bytes of
    reports, BYE and APP packets.  SDES packets are read by their iterators. */
module RtcpReaders {
  import opened Bytes
  import opened Wrappers
  import opened RtcpHeader
  import opened RtcpPackets
  import opened CompoundFormat

  /** A packet object as its constructor leaves it. */
  predicate Made(p: RTCPPacket) {
    |p.data| >= HEADER_SIZE && p == PacketOf(p.data)
  }

  predicate IsReportPacket(p: RTCPPacket) {
    p.SR? || p.RR?
  }

  /** Offset of the first report block. */
  function BlocksStart(p: RTCPPacket): nat {
    if p.SR? then HEADER_SIZE + 4 + SENDER_INFO_SIZE else HEADER_SIZE + 4
  }

  lemma ReportBounds(p: RTCPPacket)
    requires Made(p) && IsReportPacket(p) && p.knownFormat
    ensures BlocksStart(p) + BLOCK_SIZE * Count(p.data) <= |p.data|
  {
  }

  function GetSenderSSRC(host: HostOrder, p: RTCPPacket): u32
    requires Made(p) && IsReportPacket(p)
  {
    if !p.knownFormat then 0
    else ReportBounds(p); Read32(host, p.data[4..8])
  }

  function GetReceptionReportCount(p: RTCPPacket): nat
    requires Made(p) && IsReportPacket(p)
  {
    if !p.knownFormat then 0 else Count(p.data)
  }

  /** The sender information of an SR: NTP time, RTP time, packet and octet counts. */
  function GetSenderInfo(host: HostOrder, p: RTCPPacket): SenderInfo
    requires Made(p) && p.SR?
  {
    if !p.knownFormat then SenderInfo(0, 0, 0, 0, 0)
    else
      ReportBounds(p);
      SenderInfo(Read32(host, p.data[8..12]), Read32(host, p.data[12..16]), Read32(host, p.data[16..20]),
                 Read32(host, p.data[20..24]), Read32(host, p.data[24..28]))
  }

  /** Three bytes back into a count: bit 23 is the sign, carried into the top byte. */
  function LostCount(b: seq<byte>): i32
    requires |b| == 3
  {
    var count := Word(0, b[0], b[1], b[2]);
    if count / 0x80_0000 % 2 == 1 then count + 0xFF00_0000 - 0x1_0000_0000 else count
  }

  function ReadBlock(host: HostOrder, b: seq<byte>): ReportBlock
    requires |b| == BLOCK_SIZE
  {
    ReportBlock(Read32(host, b[..4]), b[4], LostCount(b[5..8]),
                Read32(host, b[8..12]), Read32(host, b[12..16]), Read32(host, b[16..20]), Read32(host, b[20..24]))
  }

  /** GetSSRC to GetDLSR for report block `index`. */
  function GetReportBlock(host: HostOrder, p: RTCPPacket, index: nat): ReportBlock
    requires Made(p) && IsReportPacket(p) && index < GetReceptionReportCount(p)
  {
    ReportBounds(p);
    var at := BlocksStart(p) + index * BLOCK_SIZE;
    ReadBlock(host, p.data[at..at + BLOCK_SIZE])
  }

  function GetReportBlocks(host: HostOrder, p: RTCPPacket): (r: seq<ReportBlock>)
    requires Made(p) && IsReportPacket(p)
    ensures |r| == GetReceptionReportCount(p)
  {
    seq(GetReceptionReportCount(p), i requires 0 <= i < GetReceptionReportCount(p) => GetReportBlock(host, p, i))
  }

  // ---- BYE ----

  function GetByeSSRC(host: HostOrder, p: RTCPPacket, index: nat): u32
    requires Made(p) && p.BYE? && p.knownFormat && index < Count(p.data)
  {
    Read32(host, p.data[HEADER_SIZE + 4 * index..HEADER_SIZE + 4 * index + 4])
  }

  function GetByeSSRCs(host: HostOrder, p: RTCPPacket): seq<u32>
    requires Made(p) && p.BYE?
  {
    if !p.knownFormat then [] else seq(Count(p.data), i requires 0 <= i < Count(p.data) => GetByeSSRC(host, p, i))
  }

  predicate HasReasonForLeaving(p: RTCPPacket)
    requires p.BYE?
  {
    p.knownFormat && p.reasonOffset != 0
  }

  /** GetReasonLength and GetReasonData: nothing when there is no reason. */
  function GetReason(p: RTCPPacket): seq<byte>
    requires Made(p) && p.BYE?
  {
    if !HasReasonForLeaving(p) then []
    else
      var length := p.data[p.reasonOffset] as nat;
      p.data[p.reasonOffset + 1..p.reasonOffset + 1 + length]
  }

  // ---- APP ----

  function GetApp(host: HostOrder, p: RTCPPacket): Option<RawApp>
    requires Made(p) && p.APP?
  {
    if !p.knownFormat then None
    else Some(RawApp(Count(p.data), Read32(host, p.data[4..8]), p.data[8..12], p.data[12..12 + p.appDataLength]))
  }

  // ---- round trips of one record ----

  /** A 32-bit field, written in network order, as the host reads it back. */
  function Seen(host: HostOrder, x: u32): u32 {
    Read32(host, Big32(x))
  }

  lemma SeenIsSame(host: HostOrder, x: u32)
    ensures Seen(host, x) == x <==> host.BigEndianHost? || Palindrome32(x)
  {
    ReadBig32(host, x);
  }

  /** What the 24-bit field keeps of a loss count. */
  function Lost24(lost: i32): i32 {
    var low := lost % 0x100_0000;
    if low < 0x80_0000 then low else low - 0x100_0000
  }

  lemma LostRoundTrip(lost: i32)
    ensures LostCount(LostBytes(lost)) == Lost24(lost)
    ensures Lost24(lost) == lost <==> -0x80_0000 <= lost < 0x80_0000
  {
    var low: u32 := lost % 0x100_0000;
    var b := LostBytes(lost);
    assert low / 0x100 == low / 0x1_0000 * 0x100 + low / 0x100 % 0x100;
    assert Word(0, b[0], b[1], b[2]) == low;
  }

  /** Whether every multi-byte field of a block reads the same in both directions. */
  predicate PalindromeBlock(b: ReportBlock) {
    Palindrome32(b.ssrc) && Palindrome32(b.extHighSeq) && Palindrome32(b.jitter) &&
    Palindrome32(b.lsr) && Palindrome32(b.dlsr)
  }

  lemma BlockFields(b: ReportBlock)
    ensures var x := BlockBytes(b);
            && x[..4] == Big32(b.ssrc) && x[4] == b.fractionLost && x[5..8] == LostBytes(b.packetsLost)
            && x[8..12] == Big32(b.extHighSeq) && x[12..16] == Big32(b.jitter)
            && x[16..20] == Big32(b.lsr) && x[20..24] == Big32(b.dlsr)
  {
    hide Big32, LostBytes;
  }

  /** A report block as it comes back. */
  function SeenBlock(host: HostOrder, b: ReportBlock): ReportBlock {
    ReportBlock(Seen(host, b.ssrc), b.fractionLost, Lost24(b.packetsLost),
                Seen(host, b.extHighSeq), Seen(host, b.jitter), Seen(host, b.lsr), Seen(host, b.dlsr))
  }

  lemma BlockReads(host: HostOrder, b: ReportBlock)
    ensures ReadBlock(host, BlockBytes(b)) == SeenBlock(host, b)
  {
    hide BlockBytes, LostBytes, Big32, Read32, LostCount, Lost24;
    BlockFields(b);
    LostRoundTrip(b.packetsLost);
  }

  predicate LossFits(b: ReportBlock) {
    -0x80_0000 <= b.packetsLost < 0x80_0000
  }

  /** A report block reads back exactly iff its loss count fits 24 bits and the host
      is big-endian or every field is a byte palindrome. */
  lemma BlockRoundTrip(host: HostOrder, b: ReportBlock)
    ensures ReadBlock(host, BlockBytes(b)) == SeenBlock(host, b)
    ensures SeenBlock(host, b) == b <==> LossFits(b) && (host.BigEndianHost? || PalindromeBlock(b))
  {
    hide BlockBytes, ReadBlock, LostBytes, Seen, LostCount, Lost24, Palindrome32;
    BlockReads(host, b);
    LostRoundTrip(b.packetsLost);
    Fields(host, b);
  }

  lemma Fields(host: HostOrder, b: ReportBlock)
    ensures Seen(host, b.ssrc) == b.ssrc <==> host.BigEndianHost? || Palindrome32(b.ssrc)
    ensures Seen(host, b.extHighSeq) == b.extHighSeq <==> host.BigEndianHost? || Palindrome32(b.extHighSeq)
    ensures Seen(host, b.jitter) == b.jitter <==> host.BigEndianHost? || Palindrome32(b.jitter)
    ensures Seen(host, b.lsr) == b.lsr <==> host.BigEndianHost? || Palindrome32(b.lsr)
    ensures Seen(host, b.dlsr) == b.dlsr <==> host.BigEndianHost? || Palindrome32(b.dlsr)
  {
    hide Seen, Palindrome32;
    SeenIsSame(host, b.ssrc);
    SeenIsSame(host, b.extHighSeq);
    SeenIsSame(host, b.jitter);
    SeenIsSame(host, b.lsr);
    SeenIsSame(host, b.dlsr);
  }
}
