/** The loops of EndBuild: laying the collected reports, chunks and packets out in
    one buffer, packet after packet. */
module CompoundWriter {
  import opened Bytes
  import opened RtcpHeader
  import opened SdesFormat
  import opened RtcpPackets
  import opened CompoundParser
  import opened CompoundFormat
  import opened CompoundSizes

  /** A source whose chunk is being collected: the items are already encoded. */
  datatype SDESSource = SDESSource(ssrc: u32, items: seq<seq<byte>>, totalItemSize: nat)

  ghost predicate CollectsSource(s: SDESSource, src: Source) {
    && s.ssrc == src.ssrc
    && |s.items| == |src.values|
    && (forall i :: 0 <= i < |s.items| ==> s.items[i] == ItemBytes(WireItem(src.values[i])))
    && s.totalItemSize == |ItemsBytes(WireItems(src.values))|
  }

  ghost predicate CollectsSources(ss: seq<SDESSource>, sources: seq<Source>) {
    |ss| == |sources| && forall i :: 0 <= i < |ss| ==> CollectsSource(ss[i], sources[i])
  }

  ghost predicate CollectsBlocks(buffers: seq<seq<byte>>, blocks: seq<ReportBlock>) {
    |buffers| == |blocks| && forall i :: 0 <= i < |buffers| ==> buffers[i] == BlockBytes(blocks[i])
  }

  // ---- writing into the buffer ----

  /** Version, padding bit and packet type, before the body is written. */
  method BeginPacket(buf: array<byte>, cur: nat, packetType: byte)
    requires cur + HEADER_SIZE <= buf.Length
    modifies buf
    ensures buf[..cur] == old(buf[..cur]) && buf[cur] == 128 && buf[cur + 1] == packetType
  {
    buf[cur] := 128;
    buf[cur + 1] := packetType;
  }

  /** Count and length, once they are known. */
  method FinishPacket(buf: array<byte>, cur: nat, offset: nat, count: nat, ghost packetType: byte,
                      ghost body: seq<byte>)
    requires HEADER_SIZE <= offset && cur + offset <= buf.Length && count <= PER_PACKET
    requires buf[cur] == 128 && buf[cur + 1] == packetType
    requires buf[cur + HEADER_SIZE..cur + offset] == body
    modifies buf
    ensures buf[..cur] == old(buf[..cur])
    ensures buf[cur..cur + offset] == Header(count, packetType, offset) + body
  {
    var numWords := offset / 4;
    var length := Big16((numWords - 1) % 0x1_0000);
    buf[cur + 2] := length[0];
    buf[cur + 3] := length[1];
    buf[cur] := 128 + count;
    ghost var all := buf[cur..cur + offset];
    assert all[..HEADER_SIZE] == Header(count, packetType, offset);
    assert all[HEADER_SIZE..] == buf[cur + HEADER_SIZE..cur + offset] == body;
    assert all == all[..HEADER_SIZE] + all[HEADER_SIZE..];
  }

  // ---- report packets ----

  lemma {:induction false} BlocksBytesSnoc(blocks: seq<ReportBlock>, b: ReportBlock)
    ensures BlocksBytes(blocks + [b]) == BlocksBytes(blocks) + BlockBytes(b)
  {
    hide BlockBytes;
    if blocks == [] {
      assert [] + [b] == [b] && [b][1..] == [];
      assert BlockBytes(b) + [] == BlockBytes(b);
    } else {
      BlocksBytesSnoc(blocks[1..], b);
      assert (blocks + [b])[1..] == blocks[1..] + [b];
      ConcatAssociative(BlockBytes(blocks[0]), BlocksBytes(blocks[1..]), BlockBytes(b));
    }
  }

  /** The inner loop: up to 31 of the remaining blocks. */
  method WriteBlocks(buf: array<byte>, ghost start: nat, at: nat, buffers: seq<seq<byte>>,
                     ghost blocks: seq<ReportBlock>, ghost body: seq<byte>)
    returns (count: nat)
    requires CollectsBlocks(buffers, blocks)
    requires start <= at && at + 24 * TakenFrom(|blocks|) <= buf.Length
    requires buf[start..at] == body
    modifies buf
    ensures count == TakenFrom(|blocks|)
    ensures buf[..start] == old(buf[..start])
    ensures buf[start..at + 24 * count] == body + BlocksBytes(blocks[..count])
  {
    hide BlockBytes, BlocksBytes;
    count := 0;
    assert blocks[..0] == [];
    NoBlocks();
    assert body + [] == body;
    while count < |buffers| && count < PER_PACKET
      invariant 0 <= count <= TakenFrom(|blocks|)
      invariant buf[..start] == old(buf[..start])
      invariant buf[start..at + 24 * count] == body + BlocksBytes(blocks[..count])
    {
      Append(buf, start, at + 24 * count, buffers[count], body + BlocksBytes(blocks[..count]));
      assert blocks[..count + 1] == blocks[..count] + [blocks[count]];
      BlocksBytesSnoc(blocks[..count], blocks[count]);
      ConcatAssociative(body, BlocksBytes(blocks[..count]), BlockBytes(blocks[count]));
      count := count + 1;
    }
  }

  /** How many of n entries go into the next packet. */
  function TakenFrom(n: nat): (r: nat)
    ensures r <= n && r <= PER_PACKET
  {
    if n <= PER_PACKET then n else PER_PACKET
  }

  /** One SR or RR: its header data and up to 31 of the remaining blocks. */
  method WriteReportPacket(buf: array<byte>, cur: nat, headerData: seq<byte>, buffers: seq<seq<byte>>,
                           ghost h: ReportHeader, ghost blocks: seq<ReportBlock>)
    returns (offset: nat, count: nat)
    requires !h.NoReport? && headerData == HeaderData(h) && CollectsBlocks(buffers, blocks)
    requires cur + 4 + |HeaderData(h)| + 24 * TakenFrom(|blocks|) <= buf.Length
    modifies buf
    ensures count == TakenFrom(|blocks|)
    ensures cur + offset <= buf.Length && buf[..cur] == old(buf[..cur])
    ensures buf[cur..cur + offset] == ReportPiece(h, blocks[..count])
  {
    hide HeaderData, BlockBytes, BlocksBytes, Header, TakenFrom;
    var packetType := if |headerData| == 24 then TYPE_SR else TYPE_RR;
    BeginPacket(buf, cur, packetType);
    ghost var start := cur + HEADER_SIZE;
    assert buf[start..start] == [];
    Append(buf, start, cur + HEADER_SIZE, headerData, []);
    assert [] + headerData == headerData;
    count := WriteBlocks(buf, start, cur + HEADER_SIZE + |headerData|, buffers, blocks, headerData);
    offset := HEADER_SIZE + |headerData| + 24 * count;
    assert packetType == ReportType(h);
    FinishPacket(buf, cur, offset, count, packetType, headerData + BlocksBytes(blocks[..count]));
  }

  lemma NoBlocks()
    ensures BlocksBytes([]) == []
  {
  }

  /** Where the outer loops stand: `pieces` are written, `todo` remain. */
  ghost predicate Written(bytes: seq<byte>, at: nat, cur: nat, list: seq<RTCPPacket>,
                          pieces: seq<seq<byte>>, todo: seq<seq<byte>>) {
    && at <= cur && cur + |Flatten(todo)| <= |bytes|
    && bytes[at..cur] == Flatten(pieces)
    && (forall i :: 0 <= i < |pieces| ==> |pieces[i]| >= HEADER_SIZE)
    && list == PacketsOf(pieces)
  }

  lemma WrittenNothing(bytes: seq<byte>, at: nat, todo: seq<seq<byte>>)
    requires at + |Flatten(todo)| <= |bytes|
    ensures Written(bytes, at, at, [], [], todo)
  {
  }

  lemma NextFits(bytes: seq<byte>, at: nat, cur: nat, list: seq<RTCPPacket>,
                 pieces: seq<seq<byte>>, todo: seq<seq<byte>>)
    requires Written(bytes, at, cur, list, pieces, todo) && todo != []
    ensures cur + |todo[0]| <= |bytes|
  {
  }

  /** One more packet has been written behind the others. */
  lemma WrittenStep(was: seq<byte>, now: seq<byte>, at: nat, cur: nat, list: seq<RTCPPacket>,
                    pieces: seq<seq<byte>>, todo: seq<seq<byte>>, piece: seq<byte>, rest: seq<seq<byte>>)
    requires Written(was, at, cur, list, pieces, todo) && todo == [piece] + rest && |piece| >= HEADER_SIZE
    requires cur + |piece| <= |now| == |was| && now[..cur] == was[..cur] && now[cur..cur + |piece|] == piece
    ensures Written(now, at, cur + |piece|, list + [PacketOf(piece)], pieces + [piece], rest)
    ensures pieces + todo == pieces + [piece] + rest
  {
    hide PacketOf;
    FlattenSnoc(pieces, piece);
    assert todo[1..] == rest;
    assert now[at..cur] == now[..cur][at..] == was[..cur][at..] == was[at..cur];
    assert now[at..cur + |piece|] == now[at..cur] + now[cur..cur + |piece|];
  }

  /** The pieces left when the packet with the first 31 blocks has been written. */
  ghost function PiecesLeft(h: ReportHeader, blocks: seq<ReportBlock>): seq<seq<byte>>
    requires !h.NoReport?
  {
    var count := TakenFrom(|blocks|);
    if count == |blocks| then [] else ReportPieces(Continued(h), blocks[count..])
  }

  /** One turn of the loop over the reports. */
  method WriteNextReport(buf: array<byte>, cur: nat, headerData: seq<byte>, buffers: seq<seq<byte>>,
                         ghost h: ReportHeader, ghost blocks: seq<ReportBlock>,
                         ghost list: seq<RTCPPacket>, ghost pieces: seq<seq<byte>>)
    returns (offset: nat, count: nat, p: RTCPPacket)
    requires !h.NoReport? && headerData == HeaderData(h) && CollectsBlocks(buffers, blocks)
    requires Written(buf[..], 0, cur, list, pieces, ReportPieces(h, blocks))
    modifies buf
    ensures count == TakenFrom(|blocks|)
    ensures var now := pieces + [ReportPiece(h, blocks[..count])];
            && Written(buf[..], 0, cur + offset, list + [p], now, PiecesLeft(h, blocks))
            && pieces + ReportPieces(h, blocks) == now + PiecesLeft(h, blocks)
  {
    hide HeaderData, ReportPiece, ReportPieces, BlockBytes, Flatten, Written, TakenFrom, PacketOf, CollectsBlocks;
    ghost var was, todo := buf[..], ReportPieces(h, blocks);
    FirstReport(h, blocks);
    NextFits(was, 0, cur, list, pieces, todo);
    offset, count := WriteReportPacket(buf, cur, headerData, buffers, h, blocks);
    p := NewReport(buf[cur..cur + offset]);
    WrittenStep(was, buf[..], 0, cur, list, pieces, todo, ReportPiece(h, blocks[..count]), PiecesLeft(h, blocks));
  }

  /** All reports: the first packet, then receiver reports for the blocks over 31. */
  method WriteReports(buf: array<byte>, isSR: bool, headerData: seq<byte>, buffers: seq<seq<byte>>,
                      ghost h: ReportHeader, ghost blocks: seq<ReportBlock>)
    returns (cur: nat, list: seq<RTCPPacket>)
    requires !h.NoReport? && headerData == HeaderData(h) && isSR == h.SenderReport?
    requires CollectsBlocks(buffers, blocks)
    requires |Flatten(ReportPieces(h, blocks))| <= buf.Length
    modifies buf
    ensures Written(buf[..], 0, cur, list, ReportPieces(h, blocks), [])
  {
    hide HeaderData, ReportPiece, ReportPieces, BlockBytes, Flatten, Written, PacketOf;
    cur, list := 0, [];
    var firstPacket, done := true, false;
    var it := 0;
    ghost var now := h;
    ghost var pieces: seq<seq<byte>> := [];
    ghost var todo := ReportPieces(h, blocks);
    WrittenNothing(buf[..], 0, todo);
    assert blocks[0..] == blocks;
    assert pieces + todo == todo;
    ShortHeader(h);
    while !done
      invariant 0 <= it <= |buffers|
      invariant now == if firstPacket then h else Continued(h)
      invariant todo == if done then [] else ReportPieces(now, blocks[it..])
      invariant Written(buf[..], 0, cur, list, pieces, todo)
      invariant ReportPieces(h, blocks) == pieces + todo
      decreases !done, |buffers| - it
    {
      ghost var rest := blocks[it..];
      var data := headerData;
      if !(firstPacket && isSR) {
        data := data[..4];
      }
      firstPacket := false;
      var offset, count, p := WriteNextReport(buf, cur, data, buffers[it..], now, rest, list, pieces);
      assert blocks[it + count..] == rest[count..];
      it := it + count;
      list := list + [p];
      cur := cur + offset;
      pieces, todo := pieces + [ReportPiece(now, rest[..count])], PiecesLeft(now, rest);
      now := Continued(now);
      if it == |buffers| {
        done := true;
      }
    }
    assert pieces + [] == pieces;
  }

  lemma ShortHeader(h: ReportHeader)
    requires !h.NoReport?
    ensures HeaderData(h)[..4] == HeaderData(Continued(h))
    ensures h.ReceiverReport? ==> HeaderData(h)[..4] == HeaderData(h)
  {
  }

  lemma FirstReport(h: ReportHeader, blocks: seq<ReportBlock>)
    requires !h.NoReport?
    ensures var count := TakenFrom(|blocks|);
            var piece, todo := ReportPiece(h, blocks[..count]), ReportPieces(h, blocks);
            && |piece| == 4 + |HeaderData(h)| + 24 * count && piece[1] == ReportType(h)
            && todo != [] && todo[0] == piece
            && todo == [piece] + (if count == |blocks| then [] else ReportPieces(Continued(h), blocks[count..]))
            && (count > 0 || |blocks| == 0)
  {
    assert |blocks| <= PER_PACKET ==> blocks[..|blocks|] == blocks;
  }

  /** The packet object of a report that has just been written. */
  method NewReport(bytes: seq<byte>) returns (p: RTCPPacket)
    requires |bytes| >= HEADER_SIZE && bytes[1] in {TYPE_SR, TYPE_RR}
    ensures p == PacketOf(bytes)
  {
    hide IsSR, IsRR;
    if bytes[1] == TYPE_SR {
      p := NewSR(bytes);
    } else {
      p := NewRR(bytes);
    }
  }

  // ---- SDES packets ----

  /** The item loop: the encoded items, one behind the other. */
  method WriteItems(buf: array<byte>, ghost start: nat, at: nat, encoded: seq<seq<byte>>,
                    ghost items: seq<Item>, ghost body: seq<byte>)
    returns (next: nat)
    requires |encoded| == |items| && forall i :: 0 <= i < |items| ==> encoded[i] == ItemBytes(items[i])
    requires start <= at && at + |ItemsBytes(items)| <= buf.Length
    requires buf[start..at] == body
    modifies buf
    ensures next == at + |ItemsBytes(items)|
    ensures buf[..start] == old(buf[..start])
    ensures buf[start..next] == body + ItemsBytes(items)
  {
    hide ItemBytes;
    next := at;
    var j := 0;
    assert items[..0] == [];
    assert body + ItemsBytes([]) == body;
    while j < |encoded|
      invariant 0 <= j <= |encoded|
      invariant next == at + |ItemsBytes(items[..j])| <= at + |ItemsBytes(items)|
      invariant buf[..start] == old(buf[..start])
      invariant buf[start..next] == body + ItemsBytes(items[..j])
    {
      ItemsBytesNext(items, j);
      Append(buf, start, next, encoded[j], body + ItemsBytes(items[..j]));
      ConcatAssociative(body, ItemsBytes(items[..j]), ItemBytes(items[j]));
      next := next + |encoded[j]|;
      j := j + 1;
    }
    assert items[..j] == items;
  }

  method FillZeros(buf: array<byte>, ghost start: nat, at: nat, num: nat, ghost body: seq<byte>)
    requires start <= at && at + num <= buf.Length && buf[start..at] == body
    modifies buf
    ensures buf[..start] == old(buf[..start])
    ensures buf[start..at + num] == body + Zeros(num)
  {
    assert body + Zeros(0) == body;
    for i := 0 to num
      invariant buf[..start] == old(buf[..start])
      invariant buf[start..at + i] == body + Zeros(i)
    {
      Append(buf, start, at + i, [0], body + Zeros(i));
      assert Zeros(i) + [0] == Zeros(i + 1);
    }
  }

  /** The terminating zero and the zeros up to a word boundary of the packet. */
  method WriteZeros(buf: array<byte>, ghost start: nat, cur: nat, offset: nat, ghost body: seq<byte>)
    returns (next: nat)
    requires start <= cur + offset && cur + offset + 1 + PadLength(offset + 1) <= buf.Length
    requires buf[start..cur + offset] == body
    modifies buf
    ensures next == offset + 1 + PadLength(offset + 1)
    ensures buf[..start] == old(buf[..start])
    ensures buf[start..cur + next] == body + [0] + Zeros(PadLength(offset + 1))
  {
    Append(buf, start, cur + offset, [0], body);
    next := offset + 1;
    var r := next % 4;
    var num := 0;
    if r != 0 {
      num := 4 - r;
    }
    assert num == PadLength(offset + 1);
    FillZeros(buf, start, cur + next, num, body + [0]);
    next := next + num;
  }

  /** One chunk at an aligned offset of the packet that starts at `cur`. */
  method WriteSource(buf: array<byte>, ghost start: nat, cur: nat, offset: nat, s: SDESSource,
                     ghost src: Source, ghost body: seq<byte>)
    returns (next: nat)
    requires CollectsSource(s, src) && offset % 4 == 0
    requires start <= cur + offset && cur + offset + |SourceBytes(src)| <= buf.Length
    requires buf[start..cur + offset] == body
    modifies buf
    ensures next == offset + |SourceBytes(src)|
    ensures buf[..start] == old(buf[..start])
    ensures buf[start..cur + next] == body + SourceBytes(src)
  {
    hide ItemBytes, ItemsBytes, PadLength, ChunkSize;
    ghost var items := WireItems(src.values);
    ghost var n := |ItemsBytes(items)|;
    ghost var ssrc := Big32(s.ssrc);
    SourceLayout(src, offset);
    Append(buf, start, cur + offset, Big32(s.ssrc), body);
    next := offset + 4;
    var at := WriteItems(buf, start, cur + next, s.items, items, body + ssrc);
    next := at - cur;
    var end := WriteZeros(buf, start, cur, next, body + ssrc + ItemsBytes(items));
    next := end;
    FourParts(body, ssrc, ItemsBytes(items), [0], Zeros(PadLength(5 + n)));
  }

  lemma SourceLayout(src: Source, offset: nat)
    requires offset % 4 == 0
    ensures var n := |ItemsBytes(WireItems(src.values))|;
            && |SourceBytes(src)| == 5 + n + PadLength(5 + n)
            && PadLength(offset + 5 + n) == PadLength(5 + n)
  {
    SamePad(offset, 5 + |ItemsBytes(WireItems(src.values))|);
    hide ItemsBytes, PadLength, WireItems;
  }

  lemma SamePad(offset: nat, n: nat)
    requires offset % 4 == 0
    ensures PadLength(offset + n) == PadLength(n)
  {
    var q, k, r := offset / 4, n / 4, n % 4;
    assert offset + n == 4 * (q + k) + r;
    SameRest(q + k, r);
  }

  lemma SameRest(q: nat, r: nat)
    requires r < 4
    ensures (4 * q + r) % 4 == r
  {
  }

  lemma FourParts<T>(x: seq<T>, a: seq<T>, b: seq<T>, c: seq<T>, d: seq<T>)
    ensures x + a + b + c + d == x + (a + b + c + d)
  {
  }

  /** The source loop: up to 31 of the remaining sources. */
  method WriteSources(buf: array<byte>, ghost start: nat, cur: nat, ss: seq<SDESSource>, ghost sources: seq<Source>)
    returns (offset: nat, count: nat)
    requires CollectsSources(ss, sources) && start == cur + HEADER_SIZE
    requires start + |SourcesBytes(sources[..TakenFrom(|sources|)])| <= buf.Length
    modifies buf
    ensures count == TakenFrom(|sources|)
    ensures offset == HEADER_SIZE + |SourcesBytes(sources[..count])|
    ensures buf[..start] == old(buf[..start])
    ensures buf[start..cur + offset] == SourcesBytes(sources[..count])
  {
    hide SourceBytes, SourcesBytes, CollectsSource, ChunkSize;
    count, offset := 0, HEADER_SIZE;
    ghost var taken := sources[..TakenFrom(|sources|)];
    assert taken[..0] == [];
    NoSources();
    while count < |ss| && count < PER_PACKET
      invariant 0 <= count <= |taken|
      invariant offset == HEADER_SIZE + |SourcesBytes(taken[..count])| && offset % 4 == 0
      invariant cur + offset <= buf.Length
      invariant buf[..start] == old(buf[..start])
      invariant buf[start..cur + offset] == SourcesBytes(taken[..count])
    {
      SourcesBytesNext(taken, count);
      assert taken[count] == sources[count];
      var next := WriteSource(buf, start, cur, offset, ss[count], sources[count], SourcesBytes(taken[..count]));
      offset := next;
      count := count + 1;
    }
    assert taken[..count] == sources[..count];
  }

  method WriteSdesPacket(buf: array<byte>, cur: nat, ss: seq<SDESSource>, ghost sources: seq<Source>)
    returns (offset: nat, count: nat)
    requires CollectsSources(ss, sources)
    requires cur + |SdesPiece(sources[..TakenFrom(|sources|)])| <= buf.Length
    modifies buf
    ensures count == TakenFrom(|sources|)
    ensures cur + offset <= buf.Length && buf[..cur] == old(buf[..cur])
    ensures buf[cur..cur + offset] == SdesPiece(sources[..count])
  {
    hide SourcesBytes, Header, CollectsSource;
    BeginPacket(buf, cur, TYPE_SDES);
    offset, count := WriteSources(buf, cur + HEADER_SIZE, cur, ss, sources);
    FinishPacket(buf, cur, offset, count, TYPE_SDES, SourcesBytes(sources[..count]));
  }

  /** All SDES packets, 31 sources to a packet; none without sources. */
  method WriteSdes(buf: array<byte>, at: nat, ss: seq<SDESSource>, ghost sources: seq<Source>)
    returns (cur: nat, list: seq<RTCPPacket>)
    requires CollectsSources(ss, sources) && at + |Flatten(SdesPieces(sources))| <= buf.Length
    modifies buf
    ensures buf[..at] == old(buf[..at])
    ensures Written(buf[..], at, cur, list, SdesPieces(sources), [])
  {
    hide Written, Flatten, CollectsSource;
    if |ss| != 0 {
      cur, list := WriteSdesPackets(buf, at, ss, sources);
    } else {
      cur, list := at, [];
      WrittenNothing(buf[..], at, []);
    }
  }

  /** One turn of the loop over the SDES packets. */
  method WriteNextSdes(buf: array<byte>, at: nat, cur: nat, ss: seq<SDESSource>, ghost sources: seq<Source>,
                       ghost list: seq<RTCPPacket>, ghost pieces: seq<seq<byte>>)
    returns (offset: nat, count: nat, p: RTCPPacket)
    requires CollectsSources(ss, sources) && |ss| > 0 && at <= cur
    requires Written(buf[..], at, cur, list, pieces, SdesPieces(sources))
    modifies buf
    ensures 0 < count == TakenFrom(|sources|) && buf[..at] == old(buf[..at])
    ensures var now, left := pieces + [SdesPiece(sources[..count])], SdesPieces(sources[count..]);
            && Written(buf[..], at, cur + offset, list + [p], now, left)
            && pieces + SdesPieces(sources) == now + left
  {
    hide SdesPiece, SdesPieces, Flatten, Written, TakenFrom, PacketOf, CollectsSource, IsSDES;
    ghost var was, todo := buf[..], SdesPieces(sources);
    FirstSdes(sources);
    NextFits(was, at, cur, list, pieces, todo);
    offset, count := WriteSdesPacket(buf, cur, ss, sources);
    ghost var piece := SdesPiece(sources[..count]);
    assert buf[..at] == buf[..cur][..at] == was[..cur][..at];
    p := NewSDES(buf[cur..cur + offset]);
    SdesObject(piece);
    WrittenStep(was, buf[..], at, cur, list, pieces, todo, piece, SdesPieces(sources[count..]));
  }

  method WriteSdesPackets(buf: array<byte>, at: nat, ss: seq<SDESSource>, ghost sources: seq<Source>)
    returns (cur: nat, list: seq<RTCPPacket>)
    requires CollectsSources(ss, sources) && at + |Flatten(SdesPieces(sources))| <= buf.Length && |ss| != 0
    modifies buf
    ensures buf[..at] == old(buf[..at])
    ensures Written(buf[..], at, cur, list, SdesPieces(sources), [])
  {
    hide SdesPiece, SdesPieces, Flatten, Written, PacketOf, CollectsSource;
    cur, list := at, [];
    ghost var pieces: seq<seq<byte>> := [];
    ghost var todo := SdesPieces(sources);
    WrittenNothing(buf[..], at, todo);
    assert pieces + todo == todo;
    assert sources[0..] == sources;
    var done := false;
    var it := 0;
    while !done
      invariant at <= cur && 0 <= it <= |ss| && (done <==> it == |ss|)
      invariant todo == SdesPieces(sources[it..])
      invariant buf[..at] == old(buf[..at])
      invariant Written(buf[..], at, cur, list, pieces, todo)
      invariant SdesPieces(sources) == pieces + todo
      decreases |ss| - it
    {
      ghost var rest := sources[it..];
      var offset, count, p := WriteNextSdes(buf, at, cur, ss[it..], rest, list, pieces);
      assert sources[it + count..] == rest[count..];
      list := list + [p];
      cur := cur + offset;
      it := it + count;
      pieces, todo := pieces + [SdesPiece(rest[..count])], SdesPieces(rest[count..]);
      if it == |ss| {
        done := true;
      }
    }
    assert sources[it..] == [];
    FirstSdes([]);
    assert pieces + [] == pieces;
  }

  lemma SdesObject(bytes: seq<byte>)
    requires |bytes| >= HEADER_SIZE && bytes[1] == TYPE_SDES
    ensures PacketOf(bytes) == SDES(bytes, IsSDES(bytes))
  {
    hide IsSDES;
  }

  lemma FirstSdes(sources: seq<Source>)
    ensures sources == [] ==> SdesPieces(sources) == []
    ensures sources != [] ==>
              var count := TakenFrom(|sources|);
              var piece, todo := SdesPiece(sources[..count]), SdesPieces(sources);
              && count > 0 && |piece| >= HEADER_SIZE && piece[1] == TYPE_SDES
              && todo != [] && todo[0] == piece
              && todo == [piece] + SdesPieces(sources[count..])
  {
    hide SourcesBytes;
    assert |sources| <= PER_PACKET ==> sources[..|sources|] == sources && sources[|sources|..] == [];
  }

  // ---- packets collected as they are ----

  /** The loops over the APP and the BYE packets: plain copies. */
  method WriteCollected(buf: array<byte>, at: nat, packets: seq<seq<byte>>)
    returns (cur: nat, list: seq<RTCPPacket>)
    requires at + |Flatten(packets)| <= buf.Length
    requires forall i :: 0 <= i < |packets| ==> |packets[i]| >= HEADER_SIZE
    modifies buf
    ensures buf[..at] == old(buf[..at])
    ensures Written(buf[..], at, cur, list, packets, [])
  {
    hide Flatten, Written, PacketOf;
    cur, list := at, [];
    ghost var pieces: seq<seq<byte>>, todo := [], packets;
    WrittenNothing(buf[..], at, todo);
    assert pieces + todo == packets;
    var it := 0;
    while it < |packets|
      invariant at <= cur && 0 <= it <= |packets|
      invariant |pieces| == it && pieces + todo == packets
      invariant buf[..at] == old(buf[..at])
      invariant Written(buf[..], at, cur, list, pieces, todo)
    {
      ghost var was, piece, rest := buf[..], packets[it], todo[1..];
      assert piece == (pieces + todo)[it] == todo[0];
      NextFits(was, at, cur, list, pieces, todo);
      assert buf[cur..cur] == [];
      Append(buf, cur, cur, packets[it], []);
      assert [] + piece == piece;
      assert buf[..at] == buf[..cur][..at] == was[..cur][..at];
      var p := NewPacket(buf[cur..cur + |packets[it]|]);
      WrittenStep(was, buf[..], at, cur, list, pieces, todo, piece, rest);
      list := list + [p];
      cur := cur + |packets[it]|;
      pieces, todo := pieces + [piece], rest;
      it := it + 1;
    }
    assert todo == [];
    assert pieces == packets;
  }
}
