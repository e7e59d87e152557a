/** Where the fields of the packets stand on the wire, with the offsets and the numbers of
    sections 5.1, 5.3.1 and 6.4 to 6.7 of RFC 3550 written out: multi-byte fields are
    numbers, most significant byte first. */
module WireLayout {
  import opened Bytes
  import opened Wrappers
  import opened RtcpHeader
  import opened CompoundFormat
  import RtpFormat

  /** The number that n bytes spell. */
  function Number(data: seq<byte>, at: nat, n: nat): nat
    requires at + n <= |data|
  {
    if n == 0 then 0 else Number(data, at, n - 1) * 0x100 + data[at + n - 1]
  }

  lemma NumberOf1(data: seq<byte>, at: nat)
    requires at < |data|
    ensures Number(data, at, 1) == data[at]
  {
    assert Number(data, at, 0) == 0;
  }

  lemma NumberOf4(data: seq<byte>, at: nat, x: u32)
    requires at + 4 <= |data| && data[at..at + 4] == Big32(x)
    ensures Number(data, at, 4) == x
  {
    var b := data[at..at + 4];
    assert b[0] == data[at] && b[1] == data[at + 1] && b[2] == data[at + 2] && b[3] == data[at + 3];
    WordOfDigits(x);
    NumberOf1(data, at);
    assert Number(data, at, 2) == b[0] as int * 0x100 + b[1];
    assert Number(data, at, 3) == (b[0] as int * 0x100 + b[1]) * 0x100 + b[2];
  }

  lemma NumberOf2(data: seq<byte>, at: nat, x: u16)
    requires at + 2 <= |data| && data[at..at + 2] == Big16(x)
    ensures Number(data, at, 2) == x
  {
    var b := data[at..at + 2];
    assert b[0] == data[at] && b[1] == data[at + 1];
    NumberOf1(data, at);
  }

  lemma NumberOf3(data: seq<byte>, at: nat, lost: i32)
    requires at + 3 <= |data| && data[at..at + 3] == LostBytes(lost)
    ensures Number(data, at, 3) == lost % 0x100_0000
  {
    var b := data[at..at + 3];
    var low: nat := lost % 0x100_0000;
    assert b[0] == data[at] && b[1] == data[at + 1] && b[2] == data[at + 2];
    NumberOf1(data, at);
    assert Number(data, at, 2) == b[0] as int * 0x100 + b[1];
    assert low == low / 0x100 * 0x100 + low % 0x100;
    assert low / 0x100 == low / 0x1_0000 * 0x100 + low / 0x100 % 0x100;
  }

  // ---- reports ----

  /** Section 6.4.1 of RFC 3550: a report block of 24 bytes. */
  ghost predicate IsBlockAt(d: seq<byte>, at: nat, b: ReportBlock) {
    && at + 24 <= |d|
    && Number(d, at, 4) == b.ssrc
    && Number(d, at + 4, 1) == b.fractionLost && Number(d, at + 5, 3) == b.packetsLost % 0x100_0000
    && Number(d, at + 8, 4) == b.extHighSeq && Number(d, at + 12, 4) == b.jitter
    && Number(d, at + 16, 4) == b.lsr && Number(d, at + 20, 4) == b.dlsr
  }

  lemma BlockLayout(d: seq<byte>, at: nat, b: ReportBlock)
    requires at + 24 <= |d| && d[at..at + 24] == BlockBytes(b)
    ensures IsBlockAt(d, at, b)
  {
    hide Big32, LostBytes, Number;
    var bytes := BlockBytes(b);
    assert bytes[0..4] == Big32(b.ssrc) && bytes[4] == b.fractionLost && bytes[5..8] == LostBytes(b.packetsLost);
    assert bytes[8..12] == Big32(b.extHighSeq) && bytes[12..16] == Big32(b.jitter);
    assert bytes[16..20] == Big32(b.lsr) && bytes[20..24] == Big32(b.dlsr);
    hide BlockBytes;
    forall i, j | 0 <= i <= j <= 24
      ensures d[at + i..at + j] == bytes[i..j]
    {
      SliceOfSlice(d, at, at + 24, i, j);
    }
    NumberOf4(d, at, b.ssrc);
    NumberOf1(d, at + 4);
    NumberOf3(d, at + 5, b.packetsLost);
    NumberOf4(d, at + 8, b.extHighSeq);
    NumberOf4(d, at + 12, b.jitter);
    NumberOf4(d, at + 16, b.lsr);
    NumberOf4(d, at + 20, b.dlsr);
  }

  lemma {:induction false} BlocksAt(blocks: seq<ReportBlock>, k: nat)
    requires k < |blocks|
    ensures BlocksBytes(blocks)[24 * k..24 * k + 24] == BlockBytes(blocks[k])
  {
    hide BlockBytes;
    if k > 0 {
      BlocksAt(blocks[1..], k - 1);
      SliceOfSlice(BlocksBytes(blocks), 24, |BlocksBytes(blocks)|, 24 * (k - 1), 24 * k);
      assert BlocksBytes(blocks)[24..] == BlocksBytes(blocks[1..]);
    }
  }

  lemma ReportParts(h: ReportHeader, blocks: seq<ReportBlock>)
    requires !h.NoReport? && |blocks| <= PER_PACKET
    ensures var d := ReportPiece(h, blocks);
            var first := if h.SenderReport? then 28 else 8;
            && |d| == first + 24 * |blocks| && d[..4] == Header(|blocks|, ReportType(h), |d|)
            && d[4..8] == Big32(h.ssrc) && d[first..] == BlocksBytes(blocks)
            && (h.SenderReport? ==> d[8..28] == InfoBytes(h.info))
  {
    hide Big32, Big16, BlocksBytes, InfoBytes;
  }

  /** Sections 6.4.1 and 6.4.2 of RFC 3550: SR has type 200, RR has type 201; behind the
      header stand the SSRC, the sender information in an SR, and the blocks. */
  lemma ReportLayout(h: ReportHeader, blocks: seq<ReportBlock>)
    requires !h.NoReport? && |blocks| <= PER_PACKET
    ensures var d := ReportPiece(h, blocks);
            var first := if h.SenderReport? then 28 else 8;
            && d[0] == 128 + |blocks| && d[1] == (if h.SenderReport? then 200 else 201)
            && Number(d, 2, 2) == |d| / 4 - 1 && |d| == first + 24 * |blocks|
            && Number(d, 4, 4) == h.ssrc
            && (h.SenderReport? ==>
                  && Number(d, 8, 4) == h.info.ntpMsw && Number(d, 12, 4) == h.info.ntpLsw
                  && Number(d, 16, 4) == h.info.rtpTimestamp
                  && Number(d, 20, 4) == h.info.packetCount && Number(d, 24, 4) == h.info.octetCount)
            && (forall k :: 0 <= k < |blocks| ==> IsBlockAt(d, first + 24 * k, blocks[k]))
  {
    hide Big32, BlocksBytes, BlockBytes, InfoBytes, Header, ReportPiece, Number, IsBlockAt;
    var d := ReportPiece(h, blocks);
    var first := if h.SenderReport? then 28 else 8;
    ReportParts(h, blocks);
    HeaderLayout(d, |blocks|, ReportType(h));
    NumberOf4(d, 4, h.ssrc);
    if h.SenderReport? {
      InfoLayout(d, h.info);
    }
    forall k | 0 <= k < |blocks|
      ensures IsBlockAt(d, first + 24 * k, blocks[k])
    {
      BlocksAt(blocks, k);
      SliceOfSlice(d, first, |d|, 24 * k, 24 * k + 24);
      BlockLayout(d, first + 24 * k, blocks[k]);
    }
  }

  lemma HeaderLayout(d: seq<byte>, count: nat, packetType: byte)
    requires count <= 31 && 4 <= |d| <= 262144 && d[..4] == Header(count, packetType, |d|)
    ensures d[0] == 128 + count && d[1] == packetType && Number(d, 2, 2) == |d| / 4 - 1
  {
    var h := d[..4];
    assert d[0] == h[0] && d[1] == h[1];
    assert d[2..4] == h[2..4] == Big16(|d| / 4 - 1);
    NumberOf2(d, 2, |d| / 4 - 1);
  }

  lemma InfoLayout(d: seq<byte>, i: SenderInfo)
    requires |d| >= 28 && d[8..28] == InfoBytes(i)
    ensures Number(d, 8, 4) == i.ntpMsw && Number(d, 12, 4) == i.ntpLsw && Number(d, 16, 4) == i.rtpTimestamp
    ensures Number(d, 20, 4) == i.packetCount && Number(d, 24, 4) == i.octetCount
  {
    hide Big32, Number;
    var bytes := InfoBytes(i);
    assert bytes[0..4] == Big32(i.ntpMsw) && bytes[4..8] == Big32(i.ntpLsw) && bytes[8..12] == Big32(i.rtpTimestamp);
    assert bytes[12..16] == Big32(i.packetCount) && bytes[16..20] == Big32(i.octetCount);
    hide InfoBytes;
    forall a, b | 0 <= a <= b <= 20
      ensures d[8 + a..8 + b] == bytes[a..b]
    {
      SliceOfSlice(d, 8, 28, a, b);
    }
    NumberOf4(d, 8, i.ntpMsw);
    NumberOf4(d, 12, i.ntpLsw);
    NumberOf4(d, 16, i.rtpTimestamp);
    NumberOf4(d, 20, i.packetCount);
    NumberOf4(d, 24, i.octetCount);
  }

  // ---- SDES, BYE and APP ----

  /** Section 6.5 of RFC 3550: type 202; `SdesFormat` says where chunks and items stand. */
  lemma SdesLayout(sources: seq<Source>)
    requires 0 < |sources| <= PER_PACKET && |SourcesBytes(sources)| < 262144
    ensures var d := SdesPiece(sources);
            && d[0] == 128 + |sources| && d[1] == 202 && Number(d, 2, 2) == |d| / 4 - 1
            && |d| >= 8 && Number(d, 4, 4) == sources[0].ssrc
  {
    hide Big32, Big16, SourcesBytes, Number;
    var d := SdesPiece(sources);
    HeaderLayout(d, |sources|, TYPE_SDES);
    FirstSsrc(sources);
    assert d[4..8] == SourcesBytes(sources)[..4];
    NumberOf4(d, 4, sources[0].ssrc);
  }

  lemma FirstSsrc(sources: seq<Source>)
    requires sources != []
    ensures |SourcesBytes(sources)| >= 4 && SourcesBytes(sources)[..4] == Big32(sources[0].ssrc)
  {
    hide Big32, SdesFormat.ItemsBytes;
    assert SourceBytes(sources[0])[..4] == Big32(sources[0].ssrc);
    hide SourceBytes;
  }

  lemma {:induction false} SsrcsAt(ssrcs: seq<u32>, k: nat)
    requires k < |ssrcs|
    ensures SsrcBytes(ssrcs)[4 * k..4 * k + 4] == Big32(ssrcs[k])
  {
    hide Big32;
    if k > 0 {
      SsrcsAt(ssrcs[1..], k - 1);
      SliceOfSlice(SsrcBytes(ssrcs), 4, |SsrcBytes(ssrcs)|, 4 * (k - 1), 4 * k);
      assert SsrcBytes(ssrcs)[4..] == SsrcBytes(ssrcs[1..]);
    }
  }

  /** Section 6.6 of RFC 3550: type 203, the SSRCs, and the reason behind its length. */
  lemma ByeLayout(b: Bye)
    ensures var d := ByePiece(b);
            var end := 4 + 4 * |b.ssrcs|;
            && d[0] == 128 + |b.ssrcs| && d[1] == 203 && Number(d, 2, 2) == |d| / 4 - 1
            && (forall k :: 0 <= k < |b.ssrcs| ==> Number(d, 4 + 4 * k, 4) == b.ssrcs[k])
            && (b.reason == [] ==> |d| == end)
            && (b.reason != [] ==>
                  && end + 1 + |b.reason| <= |d| < end + 5 + |b.reason|
                  && d[end] == |b.reason| && d[end + 1..end + 1 + |b.reason|] == b.reason)
  {
    hide Big32, Big16, SsrcBytes, Number;
    var d := ByePiece(b);
    HeaderLayout(d, |b.ssrcs|, TYPE_BYE);
    forall k | 0 <= k < |b.ssrcs|
      ensures Number(d, 4 + 4 * k, 4) == b.ssrcs[k]
    {
      SsrcsAt(b.ssrcs, k);
      assert d[4..4 + 4 * |b.ssrcs|] == SsrcBytes(b.ssrcs);
      SliceOfSlice(d, 4, 4 + 4 * |b.ssrcs|, 4 * k, 4 * k + 4);
      NumberOf4(d, 4 + 4 * k, b.ssrcs[k]);
    }
  }

  /** Section 6.7 of RFC 3550: type 204, the subtype in the place of the count, the SSRC, a
      name of four bytes, and data. */
  lemma AppLayout(a: App)
    ensures var d := AppPiece(a);
            && d[0] == 128 + a.subtype && d[1] == 204 && Number(d, 2, 2) == |d| / 4 - 1
            && Number(d, 4, 4) == a.ssrc && d[8..12] == a.name && d[12..] == a.data
  {
    hide Big32, Big16, Number;
    var d := AppPiece(a);
    HeaderLayout(d, a.subtype, TYPE_APP);
    assert d[4..8] == Big32(a.ssrc);
    NumberOf4(d, 4, a.ssrc);
  }

  // ---- RTP ----

  lemma {:induction false} CsrcsAt(csrcs: seq<u32>, k: nat)
    requires k < |csrcs|
    ensures RtpFormat.CsrcBytes(BigEndianHost, csrcs)[4 * k..4 * k + 4] == Big32(csrcs[k])
  {
    hide Big32;
    if k < |csrcs| - 1 {
      CsrcsAt(csrcs[..|csrcs| - 1], k);
    }
  }

  lemma RtpParts(r: RtpFormat.Rtp, pad: seq<byte>)
    requires RtpFormat.Fits(r)
    ensures var d, n := RtpFormat.Spell(BigEndianHost, r, pad), |r.csrcs|;
            var extension := RtpFormat.ExtensionBytes(BigEndianHost, r.extension);
            var end := 12 + 4 * n + |extension|;
            && |d| == end + |r.payload| + |pad| && d[end..end + |r.payload|] == r.payload
            && d[..12] == RtpFormat.FixedBytes(BigEndianHost, r, pad != [])
            && d[12..12 + 4 * n] == RtpFormat.CsrcBytes(BigEndianHost, r.csrcs)
            && d[12 + 4 * n..end] == extension
  {
    hide RtpFormat.FixedBytes, RtpFormat.CsrcBytes, RtpFormat.ExtensionBytes;
  }

  lemma FixedLayout(d: seq<byte>, r: RtpFormat.Rtp, padded: bool)
    requires RtpFormat.Fits(r) && |d| >= 12 && d[..12] == RtpFormat.FixedBytes(BigEndianHost, r, padded)
    ensures d[0] == 128 + (if padded then 32 else 0) + (if r.extension.Some? then 16 else 0) + |r.csrcs|
    ensures d[1] == (if r.marker then 128 else 0) + r.payloadType
    ensures Number(d, 2, 2) == r.sequenceNumber && Number(d, 4, 4) == r.timestamp && Number(d, 8, 4) == r.ssrc
  {
    hide Big32, Big16, Number;
    var h := d[..12];
    assert d[0] == h[0] && d[1] == h[1];
    assert d[2..4] == h[2..4] == Big16(r.sequenceNumber);
    assert d[4..8] == h[4..8] == Big32(r.timestamp) && d[8..12] == h[8..12] == Big32(r.ssrc);
    NumberOf2(d, 2, r.sequenceNumber);
    NumberOf4(d, 4, r.timestamp);
    NumberOf4(d, 8, r.ssrc);
  }

  lemma ExtensionLayout(d: seq<byte>, at: nat, e: RtpFormat.Extension)
    requires |e.data| / 4 < 0x1_0000 && at + 4 + |e.data| <= |d|
    requires d[at..at + 4 + |e.data|] == RtpFormat.ExtensionBytes(BigEndianHost, Some(e))
    ensures Number(d, at, 2) == e.id && Number(d, at + 2, 2) == |e.data| / 4
    ensures d[at + 4..at + 4 + |e.data|] == e.data
  {
    hide Big16, Number;
    var x := d[at..at + 4 + |e.data|];
    assert x[0..2] == Big16(e.id) && x[2..4] == Big16(|e.data| / 4) && x[4..] == e.data;
    hide RtpFormat.ExtensionBytes;
    SliceOfSlice(d, at, at + 4 + |e.data|, 0, 2);
    SliceOfSlice(d, at, at + 4 + |e.data|, 2, 4);
    SliceOfSlice(d, at, at + 4 + |e.data|, 4, |x|);
    NumberOf2(d, at, e.id);
    NumberOf2(d, at + 2, |e.data| / 4);
  }

  /** Sections 5.1 and 5.3.1 of RFC 3550. */
  lemma RtpLayout(r: RtpFormat.Rtp, pad: seq<byte>)
    requires RtpFormat.Fits(r)
    ensures var d, n := RtpFormat.Spell(BigEndianHost, r, pad), |r.csrcs|;
            var x := if r.extension.Some? then 4 + |r.extension.value.data| else 0;
            && |d| == 12 + 4 * n + x + |r.payload| + |pad|
            && d[0] == 128 + (if pad != [] then 32 else 0) + (if r.extension.Some? then 16 else 0) + n
            && d[1] == (if r.marker then 128 else 0) + r.payloadType
            && Number(d, 2, 2) == r.sequenceNumber
            && Number(d, 4, 4) == r.timestamp && Number(d, 8, 4) == r.ssrc
            && (forall k :: 0 <= k < n ==> Number(d, 12 + 4 * k, 4) == r.csrcs[k])
            && (r.extension.Some? ==>
                  && Number(d, 12 + 4 * n, 2) == r.extension.value.id
                  && Number(d, 14 + 4 * n, 2) == |r.extension.value.data| / 4
                  && d[16 + 4 * n..12 + 4 * n + x] == r.extension.value.data)
            && d[12 + 4 * n + x..12 + 4 * n + x + |r.payload|] == r.payload
  {
    hide Big32, Number, RtpFormat.Spell, RtpFormat.FixedBytes, RtpFormat.CsrcBytes;
    var d, n := RtpFormat.Spell(BigEndianHost, r, pad), |r.csrcs|;
    RtpParts(r, pad);
    FixedLayout(d, r, pad != []);
    forall k | 0 <= k < n
      ensures Number(d, 12 + 4 * k, 4) == r.csrcs[k]
    {
      CsrcsAt(r.csrcs, k);
      SliceOfSlice(d, 12, 12 + 4 * n, 4 * k, 4 * k + 4);
      NumberOf4(d, 12 + 4 * k, r.csrcs[k]);
    }
    if r.extension.Some? {
      ExtensionLayout(d, 12 + 4 * n, r.extension.value);
    }
  }
}
