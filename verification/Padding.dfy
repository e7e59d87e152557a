/** Padding behind an RTCP packet (section 6.4.1 of RFC 3550): the packet objects see the
    packet in front of it as if it were not there, and refuse a count that cannot be. */
module Padding {
  import opened Bytes
  import opened Wrappers
  import opened RtcpHeader
  import opened SdesFormat
  import opened RtcpPackets
  import opened RtcpReaders
  import opened CompoundParser
  import opened CompoundRoundTrip

  /** Whole words, the last byte of which counts them all. */
  predicate IsPadding(pad: seq<byte>) {
    0 < |pad| < 0x100 && |pad| % 4 == 0 && pad[|pad| - 1] == |pad|
  }

  predicate Unpadded(data: seq<byte>) {
    |data| >= HEADER_SIZE && data[0] / 32 % 2 == 0
  }

  /** The packet with the padding bit set, this length word, and padding behind it. */
  function Padded(data: seq<byte>, length: seq<byte>, pad: seq<byte>): (r: seq<byte>)
    requires Unpadded(data) && |length| == 2
    ensures |r| == |data| + |pad|
  {
    [data[0] + 32, data[1]] + length + data[4..] + pad
  }

  lemma PaddedHeader(data: seq<byte>, length: seq<byte>, pad: seq<byte>)
    requires Unpadded(data) && |length| == 2
    ensures var p := Padded(data, length, pad);
            && HasPadding(p) && !HasPadding(data) && Version(p) == Version(data) && Count(p) == Count(data)
            && p[1] == data[1] && p[2..4] == length && p[4..|data|] == data[4..]
            && (forall i, j :: 4 <= i <= j <= |data| ==> p[i..j] == data[i..j])
  {
    var p := Padded(data, length, pad);
    assert p[4..|data|] == data[4..];
    forall i, j | 4 <= i <= j <= |data|
      ensures p[i..j] == data[i..j]
    {
      SliceOfSlice(p, 4, |data|, i - 4, j - 4);
      SliceOfSlice(data, 4, |data|, i - 4, j - 4);
      assert data[4..|data|] == data[4..];
    }
  }

  lemma PaddedLength(data: seq<byte>, length: seq<byte>, pad: seq<byte>)
    requires Unpadded(data) && |length| == 2 && IsPadding(pad)
    ensures ContentLength(Padded(data, length, pad)) == Some(|data|) == ContentLength(data)
  {
    var p := Padded(data, length, pad);
    PaddedHeader(data, length, pad);
    assert p[|p| - 1] == pad[|pad| - 1];
  }

  // ---- reading through the padding ----

  /** The same type, count and content, whatever comes behind. */
  ghost predicate SameContent(data: seq<byte>, p: seq<byte>) {
    && HEADER_SIZE <= |data| <= |p| && p[1] == data[1] && Count(p) == Count(data)
    && ContentLength(p) == Some(|data|) == ContentLength(data)
    && (forall i, j :: 4 <= i <= j <= |data| ==> p[i..j] == data[i..j])
  }

  lemma SameChunks(data: seq<byte>, p: seq<byte>)
    requires SameContent(data, p)
    ensures PacketChunks(p) == PacketChunks(data)
  {
    hide ParseChunks, Count, ContentLength;
  }

  lemma SameReports(host: HostOrder, data: seq<byte>, p: seq<byte>)
    requires SameContent(data, p) && (data[1] == TYPE_SR || data[1] == TYPE_RR)
    ensures (Known(p) <==> Known(data)) && ReadPacket(host, PacketOf(p)) == ReadPacket(host, PacketOf(data))
  {
    hide Count, ContentLength, Read32, ReadBlock;
    var a, b := PacketOf(data), PacketOf(p);
    forall i | 0 <= i < GetReceptionReportCount(a)
      ensures GetReportBlock(host, b, i) == GetReportBlock(host, a, i)
    {
      ReportBounds(a);
    }
    assert GetReportBlocks(host, b) == GetReportBlocks(host, a);
    if a.knownFormat {
      ReportBounds(a);
    }
  }

  ghost predicate SameBye(a: RTCPPacket, b: RTCPPacket) {
    Made(a) && Made(b) && a.BYE? && b.BYE? && SameContent(a.data, b.data)
    && a.knownFormat == b.knownFormat && a.reasonOffset == b.reasonOffset
  }

  lemma SameReason(a: RTCPPacket, b: RTCPPacket)
    requires SameBye(a, b)
    ensures GetReason(a) == GetReason(b)
  {
    var at := a.reasonOffset;
    if HasReasonForLeaving(a) {
      assert b.data[at..at + 1] == a.data[at..at + 1];
      assert b.data[at] == b.data[at..at + 1][0] && a.data[at] == a.data[at..at + 1][0];
    }
  }

  lemma SameByeSsrcs(host: HostOrder, a: RTCPPacket, b: RTCPPacket)
    requires SameBye(a, b)
    ensures GetByeSSRCs(host, a) == GetByeSSRCs(host, b)
  {
    hide Count, ContentLength, Read32;
  }

  lemma SameByes(host: HostOrder, data: seq<byte>, p: seq<byte>)
    requires SameContent(data, p) && data[1] == TYPE_BYE
    ensures (Known(p) <==> Known(data)) && ReadPacket(host, PacketOf(p)) == ReadPacket(host, PacketOf(data))
  {
    hide Count, ContentLength, Read32, GetReason, GetByeSSRCs;
    var end := ByeSsrcEnd(data);
    if end < |data| {
      assert p[end..end + 1] == data[end..end + 1];
      assert p[end] == p[end..end + 1][0] && data[end] == data[end..end + 1][0];
    }
    var a, b := PacketOf(data), PacketOf(p);
    assert a.knownFormat == b.knownFormat && a.reasonOffset == b.reasonOffset;
    SameReason(a, b);
    SameByeSsrcs(host, a, b);
    hide PacketOf, SameContent;
  }

  lemma SameApps(host: HostOrder, data: seq<byte>, p: seq<byte>)
    requires SameContent(data, p) && data[1] == TYPE_APP
    ensures (Known(p) <==> Known(data)) && ReadPacket(host, PacketOf(p)) == ReadPacket(host, PacketOf(data))
  {
    hide Count, ContentLength, Read32;
  }

  lemma SameVisits(host: HostOrder, data: seq<byte>, p: seq<byte>)
    requires |data| >= HEADER_SIZE && |p| >= HEADER_SIZE && PacketChunks(p) == PacketChunks(data)
    ensures Visits(host, p) == Visits(host, data)
  {
    hide PacketChunks;
  }

  lemma SameOthers(host: HostOrder, data: seq<byte>, p: seq<byte>)
    requires SameContent(data, p) && data[1] !in {TYPE_SR, TYPE_RR, TYPE_BYE, TYPE_APP}
    ensures (Known(p) <==> Known(data)) && ReadPacket(host, PacketOf(p)) == ReadPacket(host, PacketOf(data))
  {
    SameChunks(data, p);
    hide PacketChunks;
    SameVisits(host, data, p);
    hide Count, ContentLength, Visits;
  }

  lemma ReadsTheSame(host: HostOrder, data: seq<byte>, p: seq<byte>)
    requires SameContent(data, p)
    ensures (Known(p) <==> Known(data)) && PacketChunks(p) == PacketChunks(data)
    ensures ReadPacket(host, PacketOf(p)) == ReadPacket(host, PacketOf(data))
  {
    hide Count, ContentLength, PacketChunks, PacketOf, ReadPacket;
    SameChunks(data, p);
    if data[1] == TYPE_SR || data[1] == TYPE_RR {
      SameReports(host, data, p);
    } else if data[1] == TYPE_BYE {
      SameByes(host, data, p);
    } else if data[1] == TYPE_APP {
      SameApps(host, data, p);
    } else {
      SameOthers(host, data, p);
    }
  }

  /** The packet is of a known format iff the padded one is, and the two read the same:
      SSRCs, sender information, blocks, chunks, items, reason, APP data. */
  lemma PaddingIsTransparent(host: HostOrder, data: seq<byte>, length: seq<byte>, pad: seq<byte>)
    requires Unpadded(data) && |length| == 2 && IsPadding(pad)
    ensures var p := Padded(data, length, pad);
            && (Known(p) <==> Known(data)) && PacketChunks(p) == PacketChunks(data)
            && ReadPacket(host, PacketOf(p)) == ReadPacket(host, PacketOf(data))
  {
    var p := Padded(data, length, pad);
    PaddedHeader(data, length, pad);
    PaddedLength(data, length, pad);
    hide Padded, ContentLength, HasPadding, Count, Version;
    ReadsTheSame(host, data, p);
  }

  // ---- padding that cannot be, and padding of no length ----

  /** A count that is no multiple of four, or that leaves nothing of the packet, makes a
      packet of any type one of unknown format. */
  lemma BadPaddingRefused(data: seq<byte>)
    requires |data| >= HEADER_SIZE && data[0] / 32 % 2 == 1
    requires data[|data| - 1] % 4 != 0 || data[|data| - 1] >= |data|
    ensures !Known(data)
  {
    hide ParseChunks;
  }

  /** A count of 0 takes nothing away: the packet reads as without the padding bit. */
  lemma NoPadding(host: HostOrder, data: seq<byte>)
    requires Unpadded(data) && |data| > HEADER_SIZE && data[|data| - 1] == 0
    ensures var p := Padded(data, data[2..4], []);
            && (Known(p) <==> Known(data)) && PacketChunks(p) == PacketChunks(data)
            && ReadPacket(host, PacketOf(p)) == ReadPacket(host, PacketOf(data))
  {
    var p := Padded(data, data[2..4], []);
    PaddedHeader(data, data[2..4], []);
    assert p[|p| - 1..|p|] == data[|data| - 1..|data|];
    assert p[|p| - 1] == p[|p| - 1..|p|][0] == 0;
    assert ContentLength(p) == Some(|data|) == ContentLength(data);
    hide Padded, ContentLength, HasPadding, Count, Version;
    ReadsTheSame(host, data, p);
  }

  // ---- padding in a compound packet ----

  /** The last packet of a compound may be padded: when its length word counts the padding,
      the compound is taken apart as before. */
  lemma LastMayBePadded(host: HostOrder, front: seq<seq<byte>>, last: seq<byte>, length: seq<byte>, pad: seq<byte>)
    requires ValidPieces(host, front + [last]) && Unpadded(last) && |length| == 2 && IsPadding(pad)
    requires AnnouncedLength(host, Padded(last, length, pad)) == |last| + |pad|
    ensures Split(host, Flatten(front + [Padded(last, length, pad)])) == Some(front + [Padded(last, length, pad)])
  {
    hide AnnouncedLength, Version, HasPadding, Flatten, Split, Padded;
    var p := Padded(last, length, pad);
    PaddedHeader(last, length, pad);
    var was, now := front + [last], front + [p];
    assert ValidPiece(host, was[|front|], true);
    forall i | 0 <= i < |now|
      ensures ValidPiece(host, now[i], i == |now| - 1)
    {
      if i < |front| {
        assert ValidPiece(host, was[i], i == |was| - 1) && now[i] == was[i];
      }
    }
    SplitComplete(host, now);
  }
}
