/** Which bytes are reports, BYE and APP packets: exactly those whose content in front of
    the padding some fields spell (sections 6.4, 6.6 and 6.7 of RFC 3550). */
module PacketGrammar {
  import opened Bytes
  import opened Wrappers
  import opened RtcpHeader
  import opened RtcpPackets
  import opened RtcpReaders
  import opened CompoundFormat

  // ---- every byte string of the right length is spelled by something ----

  lemma BigOfRead(b: seq<byte>)
    requires |b| == 4
    ensures Big32(Read32(BigEndianHost, b)) == b
  {
    var x := Read32(BigEndianHost, b);
    WordOfDigits(x);
    WordInjective(b[0], b[1], b[2], b[3], x / 0x100_0000, x / 0x1_0000 % 0x100, x / 0x100 % 0x100, x % 0x100);
  }

  lemma Digits(b2: int, b1: int, b0: int)
    requires 0 <= b2 < 0x100 && 0 <= b1 < 0x100 && 0 <= b0 < 0x100
    ensures var low := (b2 * 0x100 + b1) * 0x100 + b0;
            0 <= low < 0x100_0000 && low / 0x1_0000 == b2 && low / 0x100 % 0x100 == b1 && low % 0x100 == b0
  {
    var low := (b2 * 0x100 + b1) * 0x100 + b0;
    assert low / 0x100 == b2 * 0x100 + b1;
    assert low == b2 * 0x1_0000 + (b1 * 0x100 + b0);
  }

  lemma LowOfLost(b: seq<byte>)
    requires |b| == 3
    ensures LostCount(b) % 0x100_0000 == (b[0] as int * 0x100 + b[1]) * 0x100 + b[2]
  {
    Digits(b[0], b[1], b[2]);
    assert Word(0, b[0], b[1], b[2]) == (b[0] as int * 0x100 + b[1]) * 0x100 + b[2];
  }

  lemma LostOfBytes(b: seq<byte>)
    requires |b| == 3
    ensures LostBytes(LostCount(b)) == b
  {
    LowOfLost(b);
    Digits(b[0], b[1], b[2]);
    hide LostCount;
  }

  lemma BlockOfBytes(b: seq<byte>)
    requires |b| == BLOCK_SIZE
    ensures BlockBytes(ReadBlock(BigEndianHost, b)) == b
  {
    BigOfRead(b[..4]);
    LostOfBytes(b[5..8]);
    BigOfRead(b[8..12]);
    BigOfRead(b[12..16]);
    BigOfRead(b[16..20]);
    BigOfRead(b[20..24]);
    hide Big32, Read32, LostBytes, LostCount;
    assert b == b[..4] + [b[4]] + b[5..8] + b[8..12] + b[12..16] + b[16..20] + b[20..24];
  }

  lemma {:induction false} BlocksOfBytes(b: seq<byte>, n: nat) returns (blocks: seq<ReportBlock>)
    requires |b| == BLOCK_SIZE * n
    ensures |blocks| == n && BlocksBytes(blocks) == b
  {
    hide BlockBytes, ReadBlock;
    if n == 0 {
      blocks := [];
    } else {
      var rest := BlocksOfBytes(b[BLOCK_SIZE..], n - 1);
      BlockOfBytes(b[..BLOCK_SIZE]);
      blocks := [ReadBlock(BigEndianHost, b[..BLOCK_SIZE])] + rest;
      assert blocks[1..] == rest && b == b[..BLOCK_SIZE] + b[BLOCK_SIZE..];
    }
  }

  lemma InfoOfBytes(b: seq<byte>) returns (i: SenderInfo)
    requires |b| == SENDER_INFO_SIZE
    ensures InfoBytes(i) == b
  {
    BigOfRead(b[..4]);
    BigOfRead(b[4..8]);
    BigOfRead(b[8..12]);
    BigOfRead(b[12..16]);
    BigOfRead(b[16..20]);
    i := SenderInfo(Read32(BigEndianHost, b[..4]), Read32(BigEndianHost, b[4..8]), Read32(BigEndianHost, b[8..12]),
                    Read32(BigEndianHost, b[12..16]), Read32(BigEndianHost, b[16..20]));
    hide Big32, Read32;
    assert b == b[..4] + b[4..8] + b[8..12] + b[12..16] + b[16..20];
  }

  lemma {:induction false} SsrcsOfBytes(b: seq<byte>, n: nat) returns (ssrcs: seq<u32>)
    requires |b| == 4 * n
    ensures |ssrcs| == n && SsrcBytes(ssrcs) == b
  {
    hide Big32, Read32;
    if n == 0 {
      ssrcs := [];
    } else {
      var rest := SsrcsOfBytes(b[4..], n - 1);
      BigOfRead(b[..4]);
      ssrcs := [Read32(BigEndianHost, b[..4])] + rest;
      assert ssrcs[1..] == rest && b == b[..4] + b[4..];
    }
  }

  // ---- the packets ----

  /** The packet without its padding: all of it, or what is in front of a number of padding
      bytes that is told by the last, a multiple of four and less than all. */
  ghost predicate HasContent(data: seq<byte>, content: seq<byte>) {
    && |data| >= HEADER_SIZE && |content| > 0 && content <= data
    && if data[0] / 32 % 2 == 0 then content == data
       else data[|data| - 1] % 4 == 0 && |content| + data[|data| - 1] == |data|
  }

  lemma ContentMeans(data: seq<byte>)
    requires |data| >= HEADER_SIZE
    ensures forall content :: HasContent(data, content) <==>
              ContentLength(data).Some? && content == data[..ContentLength(data).value]
  {
    forall content | HasContent(data, content)
      ensures content == data[..|content|] && ContentLength(data) == Some(|content|)
    {
    }
  }

  /** A report of the given kind: header, SSRC, sender information in an SR, and as many
      blocks as the count says. */
  ghost predicate SpellsReport(content: seq<byte>, h: ReportHeader, blocks: seq<ReportBlock>) {
    && |content| >= HEADER_SIZE && |blocks| == Count(content)
    && content[HEADER_SIZE..] == HeaderData(h) + BlocksBytes(blocks)
  }

  lemma ReportContent(content: seq<byte>, fixed: nat) returns (blocks: seq<ReportBlock>)
    requires |content| >= HEADER_SIZE && |content| == HEADER_SIZE + fixed + BLOCK_SIZE * Count(content)
    ensures |blocks| == Count(content) && content[HEADER_SIZE + fixed..] == BlocksBytes(blocks)
  {
    blocks := BlocksOfBytes(content[HEADER_SIZE + fixed..], Count(content));
  }

  lemma ReportLength(data: seq<byte>, content: seq<byte>, h: ReportHeader, blocks: seq<ReportBlock>)
    requires HasContent(data, content) && SpellsReport(content, h, blocks)
    ensures IsReport(data, HEADER_SIZE + |HeaderData(h)|)
  {
    hide BlocksBytes, HeaderData;
    ContentMeans(data);
    assert |content[HEADER_SIZE..]| == |HeaderData(h)| + 24 * |blocks|;
    assert content[0] == data[0];
  }

  lemma ContentOf(data: seq<byte>) returns (content: seq<byte>)
    requires |data| >= HEADER_SIZE && ContentLength(data).Some? && ContentLength(data).value >= HEADER_SIZE
    ensures HasContent(data, content) && |content| == ContentLength(data).value && Count(content) == Count(data)
  {
    ContentMeans(data);
    content := data[..ContentLength(data).value];
  }

  lemma SenderReportSpelled(data: seq<byte>)
    returns (content: seq<byte>, ssrc: u32, info: SenderInfo, blocks: seq<ReportBlock>)
    requires |data| >= HEADER_SIZE && IsSR(data)
    ensures HasContent(data, content) && SpellsReport(content, SenderReport(ssrc, info), blocks)
  {
    hide BlocksBytes, InfoBytes, Big32, Read32, HasContent;
    content := ContentOf(data);
    hide ContentLength, Count;
    blocks := ReportContent(content, 4 + SENDER_INFO_SIZE);
    BigOfRead(content[4..8]);
    ssrc := Read32(BigEndianHost, content[4..8]);
    info := InfoOfBytes(content[8..28]);
    assert content[4..] == content[4..8] + content[8..28] + content[28..];
  }

  lemma ReceiverReportSpelled(data: seq<byte>)
    returns (content: seq<byte>, ssrc: u32, blocks: seq<ReportBlock>)
    requires |data| >= HEADER_SIZE && IsRR(data)
    ensures HasContent(data, content) && SpellsReport(content, ReceiverReport(ssrc), blocks)
  {
    hide BlocksBytes, Big32, Read32, HasContent;
    content := ContentOf(data);
    hide ContentLength, Count;
    blocks := ReportContent(content, 4);
    BigOfRead(content[4..8]);
    ssrc := Read32(BigEndianHost, content[4..8]);
    assert content[4..] == content[4..8] + content[8..];
  }

  /** A packet is a known SR iff its content is spelled by the SSRC and information of a
      sender and by report blocks. */
  lemma SenderReportMeans(data: seq<byte>)
    requires |data| >= HEADER_SIZE
    ensures IsSR(data) <==>
            exists content, ssrc, info, blocks ::
              HasContent(data, content) && SpellsReport(content, SenderReport(ssrc, info), blocks)
  {
    if IsSR(data) {
      var content, ssrc, info, blocks := SenderReportSpelled(data);
    }
    hide HasContent, SpellsReport;
    if content, ssrc, info, blocks :|
        HasContent(data, content) && SpellsReport(content, SenderReport(ssrc, info), blocks) {
      ReportLength(data, content, SenderReport(ssrc, info), blocks);
    }
  }

  /** And a known RR iff by the SSRC of a receiver and report blocks. */
  lemma ReceiverReportMeans(data: seq<byte>)
    requires |data| >= HEADER_SIZE
    ensures IsRR(data) <==>
            exists content, ssrc, blocks ::
              HasContent(data, content) && SpellsReport(content, ReceiverReport(ssrc), blocks)
  {
    if IsRR(data) {
      var content, ssrc, blocks := ReceiverReportSpelled(data);
    }
    hide HasContent, SpellsReport;
    if content, ssrc, blocks :| HasContent(data, content) && SpellsReport(content, ReceiverReport(ssrc), blocks) {
      ReportLength(data, content, ReceiverReport(ssrc), blocks);
    }
  }

  /** As many SSRCs as the count says, then nothing, or a counted reason and any filling. */
  ghost predicate SpellsBye(content: seq<byte>, ssrcs: seq<u32>, tail: seq<byte>) {
    && |content| >= HEADER_SIZE && |ssrcs| == Count(content)
    && content[HEADER_SIZE..] == SsrcBytes(ssrcs) + tail
    && (tail == [] || exists reason, filling :: |reason| < 0x100 && tail == [|reason|] + reason + filling)
  }

  lemma Counted(tail: seq<byte>)
    requires tail != []
    ensures 1 + tail[0] as nat <= |tail| <==>
            exists reason, filling :: |reason| < 0x100 && tail == [|reason|] + reason + filling
  {
    var n: nat := tail[0];
    if 1 + n <= |tail| {
      var reason, filling := tail[1..1 + n], tail[1 + n..];
      assert tail == [|reason|] + reason + filling;
    }
  }

  lemma ByeSpelled(data: seq<byte>) returns (content: seq<byte>, ssrcs: seq<u32>, tail: seq<byte>)
    requires |data| >= HEADER_SIZE && IsBYE(data)
    ensures HasContent(data, content) && SpellsBye(content, ssrcs, tail)
  {
    hide SsrcBytes, HasContent;
    var end := ByeSsrcEnd(data);
    content := ContentOf(data);
    hide Count;
    ssrcs := SsrcsOfBytes(content[HEADER_SIZE..end], Count(data));
    tail := content[end..];
    if tail != [] {
      ContentMeans(data);
      assert tail[0] == data[end];
      Counted(tail);
    }
    assert content[HEADER_SIZE..] == content[HEADER_SIZE..end] + tail;
  }

  lemma ByeLength(data: seq<byte>, content: seq<byte>, ssrcs: seq<u32>, tail: seq<byte>)
    requires HasContent(data, content) && SpellsBye(content, ssrcs, tail)
    ensures IsBYE(data)
  {
    hide SsrcBytes;
    ContentMeans(data);
    var end := ByeSsrcEnd(data);
    assert content[0] == data[0];
    assert |content[HEADER_SIZE..]| == 4 * |ssrcs| + |tail|;
    if tail != [] {
      Counted(tail);
      assert content[end] == content[HEADER_SIZE..][4 * |ssrcs|] == tail[0];
    }
  }

  /** A packet is a known BYE iff its content is spelled that way. */
  lemma ByeMeans(data: seq<byte>)
    requires |data| >= HEADER_SIZE
    ensures IsBYE(data) <==>
            exists content, ssrcs, tail :: HasContent(data, content) && SpellsBye(content, ssrcs, tail)
  {
    if IsBYE(data) {
      var content, ssrcs, tail := ByeSpelled(data);
    }
    hide HasContent, SpellsBye;
    if content, ssrcs, tail :| HasContent(data, content) && SpellsBye(content, ssrcs, tail) {
      ByeLength(data, content, ssrcs, tail);
    }
  }

  /** An SSRC, four bytes of name, and data. */
  ghost predicate SpellsApp(content: seq<byte>, ssrc: u32, name: seq<byte>, rest: seq<byte>) {
    |content| >= HEADER_SIZE && |name| == 4 && content[HEADER_SIZE..] == Big32(ssrc) + name + rest
  }

  lemma AppSpelled(data: seq<byte>) returns (content: seq<byte>, ssrc: u32, name: seq<byte>, rest: seq<byte>)
    requires |data| >= HEADER_SIZE && IsAPP(data)
    ensures HasContent(data, content) && SpellsApp(content, ssrc, name, rest)
  {
    hide Big32, Read32, HasContent;
    content := ContentOf(data);
    hide ContentLength, Count;
    BigOfRead(content[4..8]);
    ssrc, name, rest := Read32(BigEndianHost, content[4..8]), content[8..12], content[12..];
    assert content[HEADER_SIZE..] == content[4..8] + name + rest;
  }

  lemma AppLength(data: seq<byte>, content: seq<byte>, ssrc: u32, name: seq<byte>, rest: seq<byte>)
    requires HasContent(data, content) && SpellsApp(content, ssrc, name, rest)
    ensures IsAPP(data)
  {
    hide Big32;
    ContentMeans(data);
    assert |content[HEADER_SIZE..]| == 8 + |rest|;
  }

  /** A packet is a known APP iff its content is spelled that way. */
  lemma AppMeans(data: seq<byte>)
    requires |data| >= HEADER_SIZE
    ensures IsAPP(data) <==>
            exists content, ssrc, name, rest :: HasContent(data, content) && SpellsApp(content, ssrc, name, rest)
  {
    if IsAPP(data) {
      var content, ssrc, name, rest := AppSpelled(data);
    }
    hide HasContent, SpellsApp;
    if content, ssrc, name, rest :| HasContent(data, content) && SpellsApp(content, ssrc, name, rest) {
      AppLength(data, content, ssrc, name, rest);
    }
  }
}
