/** The packet objects that interpret one RTCP packet each: their validity checks
    and accessors.  A packet keeps the bytes it was created from. */
module RtcpPackets {
  import opened Bytes
  import opened Wrappers
  import opened RtcpHeader
  import opened SdesFormat

  datatype RTCPPacket =
    | SR(data: seq<byte>, knownFormat: bool)
    | RR(data: seq<byte>, knownFormat: bool)
    | SDES(data: seq<byte>, knownFormat: bool)
    | BYE(data: seq<byte>, knownFormat: bool, reasonOffset: nat)
    | APP(data: seq<byte>, knownFormat: bool, appDataLength: nat)
    | UnknownPacket(data: seq<byte>)

  const SENDER_INFO_SIZE := 20
  const BLOCK_SIZE := 24

  // ---- what each format demands of a whole packet ----

  /** Sections 6.4.1 and 6.4.2 of RFC 3550: fixed part, then `count` report blocks. */
  predicate IsReport(data: seq<byte>, fixed: nat)
    requires |data| >= HEADER_SIZE
  {
    ContentLength(data) == Some(fixed + BLOCK_SIZE * Count(data))
  }

  predicate IsSR(data: seq<byte>)
    requires |data| >= HEADER_SIZE
  {
    IsReport(data, HEADER_SIZE + 4 + SENDER_INFO_SIZE)
  }

  predicate IsRR(data: seq<byte>)
    requires |data| >= HEADER_SIZE
  {
    IsReport(data, HEADER_SIZE + 4)
  }

  predicate IsSDES(data: seq<byte>)
    requires |data| >= HEADER_SIZE
  {
    PacketChunks(data).Some?
  }

  function ByeSsrcEnd(data: seq<byte>): nat
    requires |data| >= HEADER_SIZE
  {
    HEADER_SIZE + 4 * Count(data)
  }

  /** Section 6.6 of RFC 3550: the SSRCs, then possibly a counted reason that fits. */
  predicate IsBYE(data: seq<byte>)
    requires |data| >= HEADER_SIZE
  {
    var len := ContentLength(data);
    var end := ByeSsrcEnd(data);
    len.Some? && end <= len.value && (end < len.value ==> end + 1 + data[end] as nat <= len.value)
  }

  predicate IsAPP(data: seq<byte>)
    requires |data| >= HEADER_SIZE
  {
    var len := ContentLength(data);
    len.Some? && HEADER_SIZE + 8 <= len.value
  }

  /** The packet object for these bytes. */
  function PacketOf(data: seq<byte>): (p: RTCPPacket)
    requires |data| >= HEADER_SIZE
    ensures p.data == data
  {
    if data[1] == TYPE_SR then SR(data, IsSR(data))
    else if data[1] == TYPE_RR then RR(data, IsRR(data))
    else if data[1] == TYPE_SDES then SDES(data, IsSDES(data))
    else if data[1] == TYPE_BYE then
      BYE(data, IsBYE(data),
          if IsBYE(data) && ByeSsrcEnd(data) < ContentLength(data).value then ByeSsrcEnd(data) else 0)
    else if data[1] == TYPE_APP then
      APP(data, IsAPP(data), if IsAPP(data) then ContentLength(data).value - HEADER_SIZE - 8 else 0)
    else UnknownPacket(data)
  }

  // ---- the constructors ----

  /** The padding check every constructor starts with; `len` is what is left. */
  method StripPadding(data: seq<byte>) returns (ok: bool, len: nat)
    requires |data| >= HEADER_SIZE
    ensures ok <==> ContentLength(data).Some?
    ensures ok ==> len == ContentLength(data).value
  {
    len := |data|;
    if HasPadding(data) {
      var padCount := data[|data| - 1];
      if padCount % 4 != 0 {
        return false, len;
      }
      if padCount >= len {
        return false, len;
      }
      len := len - padCount;
    }
    return true, len;
  }

  method NewSR(data: seq<byte>) returns (p: RTCPPacket)
    requires |data| >= HEADER_SIZE
    ensures p == SR(data, IsSR(data))
  {
    var ok, len := StripPadding(data);
    if !ok {
      return SR(data, false);
    }
    var expectedLength := HEADER_SIZE + 4 + SENDER_INFO_SIZE;
    expectedLength := expectedLength + BLOCK_SIZE * Count(data);
    if expectedLength != len {
      return SR(data, false);
    }
    return SR(data, true);
  }

  method NewRR(data: seq<byte>) returns (p: RTCPPacket)
    requires |data| >= HEADER_SIZE
    ensures p == RR(data, IsRR(data))
  {
    var ok, len := StripPadding(data);
    if !ok {
      return RR(data, false);
    }
    var expectedLength := HEADER_SIZE + 4;
    expectedLength := expectedLength + BLOCK_SIZE * Count(data);
    if expectedLength != len {
      return RR(data, false);
    }
    return RR(data, true);
  }

  method NewBYE(data: seq<byte>) returns (p: RTCPPacket)
    requires |data| >= HEADER_SIZE
    ensures p.BYE? && p.data == data && p.knownFormat == IsBYE(data)
    ensures p.reasonOffset ==
            if IsBYE(data) && ByeSsrcEnd(data) < ContentLength(data).value then ByeSsrcEnd(data) else 0
  {
    var ok, len := StripPadding(data);
    if !ok {
      return BYE(data, false, 0);
    }
    var ssrcLen := Count(data) * 4 + HEADER_SIZE;
    var reasonOffset := 0;
    if ssrcLen > len {
      return BYE(data, false, 0);
    }
    if ssrcLen < len {
      var reasonLength := data[ssrcLen];
      if reasonLength > len - ssrcLen - 1 {
        return BYE(data, false, 0);
      }
      reasonOffset := ssrcLen;
    }
    return BYE(data, true, reasonOffset);
  }

  method NewAPP(data: seq<byte>) returns (p: RTCPPacket)
    requires |data| >= HEADER_SIZE
    ensures p.APP? && p.data == data && p.knownFormat == IsAPP(data)
    ensures p.appDataLength == if IsAPP(data) then ContentLength(data).value - HEADER_SIZE - 8 else 0
  {
    var ok, len := StripPadding(data);
    if !ok {
      return APP(data, false, 0);
    }
    if len < HEADER_SIZE + 8 {
      return APP(data, false, 0);
    }
    len := len - (HEADER_SIZE + 8);
    return APP(data, true, len);
  }

  /** Where the item loop stands: the items of the chunk parse iff those from
      `offset` on do, and the terminating zero is at the same place. */
  ghost predicate ItemsGoOn(body: seq<byte>, offset: nat) {
    && 8 <= |body| && 4 <= offset <= |body|
    && var whole := ParseItems(body[4..]);
       var rest := ParseItems(body[offset..]);
       && whole.Some? == rest.Some?
       && (whole.Some? ==> 4 + |ItemsBytes(whole.value)| == offset + |ItemsBytes(rest.value)|)
  }

  function ItemEnd(body: seq<byte>, offset: nat): nat
    requires offset + 1 < |body|
  {
    offset + 2 + body[offset + 1] as nat
  }

  lemma ItemsBegin(body: seq<byte>)
    ensures if |body| < 8 then ParseChunk(body) == None else ItemsGoOn(body, 4)
  {
  }

  lemma ItemIsThere(body: seq<byte>, offset: nat, item: Item)
    requires offset + 1 < |body| && ItemEnd(body, offset) <= |body|
    requires item.id == body[offset] && item.data == body[offset + 2..ItemEnd(body, offset)]
    ensures |ItemBytes(item)| == ItemEnd(body, offset) - offset
    ensures body[offset..][..|ItemBytes(item)|] == ItemBytes(item)
  {
  }

  lemma ItemsStep(body: seq<byte>, offset: nat)
    requires ItemsGoOn(body, offset)
    requires offset < |body| && body[offset] != 0 && offset + 1 < |body| && ItemEnd(body, offset) <= |body|
    ensures ItemsGoOn(body, ItemEnd(body, offset))
  {
    hide ItemsBytes, ItemBytes, ParseItems;
    var rest, end := body[offset..], ItemEnd(body, offset);
    var item: Item := RawItem(body[offset], body[offset + 2..end]);
    ItemIsThere(body, offset, item);
    ParseItemsNext(rest, item);
    assert rest[2 + |item.data|..] == body[end..];
    if ParseItems(body[end..]).Some? {
      ItemsBytesFront(item, ParseItems(body[end..]).value);
    }
  }

  lemma ItemsCut(body: seq<byte>, offset: nat)
    requires ItemsGoOn(body, offset)
    requires offset < |body| ==> body[offset] != 0 && (offset + 1 < |body| ==> ItemEnd(body, offset) > |body|)
    ensures ParseChunk(body) == None
  {
    var rest := body[offset..];
    if |rest| >= 2 {
      assert rest[1] == body[offset + 1];
    }
    assert ParseItems(rest) == None;
  }

  lemma ItemsDone(body: seq<byte>, offset: nat)
    requires ItemsGoOn(body, offset) && offset < |body| && body[offset] == 0
    ensures var r := (offset + 1) % 4;
            var next := offset + 1 + if r == 0 then 0 else 4 - r;
            && (ParseChunk(body).Some? <==> next <= |body|)
            && (ParseChunk(body).Some? ==> ChunkSize(ParseChunk(body).value) == next)
  {
    assert ParseItems(body[offset..]) == Some([]);
  }

  /** The inner loop of the SDES scan: one chunk at the front of what is left. */
  method ScanChunk(chunk: seq<byte>) returns (ok: bool, len: nat, chunkOffset: nat)
    ensures ok <==> ParseChunk(chunk).Some?
    ensures ok ==> chunkOffset == ChunkSize(ParseChunk(chunk).value) && len == |chunk| - chunkOffset
  {
    hide ParseItems, ItemsBytes, ItemsGoOn, ParseChunk, ChunkSize;
    len, chunkOffset := |chunk|, 0;
    ItemsBegin(chunk);
    if len < 8 {
      return false, len, chunkOffset;
    }
    len := len - 4;
    chunkOffset := 4;
    while true
      invariant 4 <= chunkOffset && chunkOffset + len == |chunk|
      invariant ItemsGoOn(chunk, chunkOffset)
      decreases len
    {
      if len < 1 {
        ItemsCut(chunk, chunkOffset);
        return false, len, chunkOffset;
      }
      var sdesId := chunk[chunkOffset];
      if sdesId == 0 {
        ItemsDone(chunk, chunkOffset);
        len := len - 1;
        chunkOffset := chunkOffset + 1;
        var r := chunkOffset % 4;
        if r != 0 {
          var addOffset := 4 - r;
          if addOffset > len {
            return false, len, chunkOffset;
          }
          len := len - addOffset;
          chunkOffset := chunkOffset + addOffset;
        }
        return true, len, chunkOffset;
      }
      if len < 2 {
        ItemsCut(chunk, chunkOffset);
        return false, len, chunkOffset;
      }
      var itemLen: nat := chunk[chunkOffset + 1] as nat;
      if itemLen > len - 2 {
        ItemsCut(chunk, chunkOffset);
        return false, len, chunkOffset;
      }
      ItemsStep(chunk, chunkOffset);
      len := len - 2 - itemLen;
      chunkOffset := chunkOffset + 2 + itemLen;
    }
  }

  lemma ScanStep(b: seq<byte>, count: nat)
    requires count > 0 && b != []
    ensures ParseChunks(b, count).Some?
       <==> var c := ParseChunk(b); c.Some? && ParseChunks(b[ChunkSize(c.value)..], count - 1).Some?
  {
    hide ParseChunk, ChunkSize;
  }

  lemma ScanStop(b: seq<byte>, count: nat)
    requires count == 0 || b == []
    ensures ParseChunks(b, count).Some? <==> count == 0 && b == []
  {
  }

  /** The outer loop of the SDES scan over the bytes between the header and `end`. */
  method ScanChunks(data: seq<byte>, end: nat, count: nat) returns (ok: bool)
    requires HEADER_SIZE <= end <= |data|
    ensures ok == ParseChunks(data[HEADER_SIZE..end], count).Some?
  {
    hide ParseChunks, ParseChunk, ChunkSize;
    var ssrcCount := count;
    var chunk := HEADER_SIZE;
    var len := end - HEADER_SIZE;
    while ssrcCount > 0 && len > 0
      invariant 0 <= len && HEADER_SIZE <= chunk && chunk + len == end
      invariant ParseChunks(data[HEADER_SIZE..end], count).Some? == ParseChunks(data[chunk..end], ssrcCount).Some?
      decreases ssrcCount
    {
      ScanStep(data[chunk..end], ssrcCount);
      var good, left, chunkOffset := ScanChunk(data[chunk..end]);
      if !good {
        return false;
      }
      assert data[chunk..end][chunkOffset..] == data[chunk + chunkOffset..end];
      len := left;
      ssrcCount := ssrcCount - 1;
      chunk := chunk + chunkOffset;
    }
    ScanStop(data[chunk..end], ssrcCount);
    if len > 0 {
      return false;
    }
    if ssrcCount > 0 {
      return false;
    }
    return true;
  }

  /** The scan accepts exactly the packets of the grammar. */
  method NewSDES(data: seq<byte>) returns (p: RTCPPacket)
    requires |data| >= HEADER_SIZE
    ensures p == SDES(data, IsSDES(data))
  {
    hide ContentLength, Count, ParseChunks;
    var ok, len := StripPadding(data);
    if !ok {
      return SDES(data, false);
    }
    if Count(data) == 0 {
      if len >= HEADER_SIZE {
        ScanStop(data[HEADER_SIZE..len], 0);
      }
      return SDES(data, len == HEADER_SIZE);
    }
    if len < HEADER_SIZE {
      return SDES(data, false);
    }
    var good := ScanChunks(data, len, Count(data));
    return SDES(data, good);
  }
}
