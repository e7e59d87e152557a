/** The iterators of an SDES packet: a cursor over chunks, and one over the items of
    the current chunk, both plain offsets into the packet's bytes. */
module SdesPacket {
  import opened Bytes
  import opened Wrappers
  import opened RtcpHeader
  import opened SdesFormat
  import opened RtcpPackets

  /** What a walk over the packet visits. */
  datatype Visit = Visit(ssrc: u32, values: seq<SdesValue>)

  function VisitOf(host: HostOrder, c: Chunk): Visit
    requires |c.ssrc| == 4
  {
    Visit(Read32(host, c.ssrc), ReadItems(c.items))
  }

  function ReadItems(items: seq<Item>): (r: seq<SdesValue>)
    ensures |r| == |items|
    ensures forall i :: 0 <= i < |items| ==> r[i] == ReadItem(items[i])
  {
    seq(|items|, i requires 0 <= i < |items| => ReadItem(items[i]))
  }

  class RTCPSDESPacket {
    const data: seq<byte>
    const knownFormat: bool
    var currentChunk: nat   // offset of the current chunk, 0 for none
    var curChunkNum: nat
    var itemOffset: nat
    ghost const chunks: seq<Chunk>   // what the packet's bytes spell; none when the format is not known
    ghost var itemNum: nat

    ghost predicate Known() {
      && |data| >= HEADER_SIZE
      && knownFormat == IsSDES(data)
      && if knownFormat then PacketChunks(data) == Some(chunks) && |chunks| == Count(data) else chunks == []
    }

    ghost predicate HasChunk()
      reads this
    {
      && currentChunk != 0
      && 1 <= curChunkNum <= |chunks|
    }

    /** The items of the current chunk. */
    ghost function Items(): seq<Item>
      reads this
      requires HasChunk()
    {
      chunks[curChunkNum - 1].items
    }

    ghost predicate Valid()
      reads this
    {
      && Known()
      && (currentChunk != 0 ==>
            && knownFormat
            && HasChunk()
            && currentChunk == ChunkStart(chunks, curChunkNum - 1)
            && itemNum <= |Items()|
            && itemOffset == ItemStart(Items(), itemNum))
    }

    /** The cursor stands on item j of chunk k; on the end of the items if there are j. */
    ghost predicate At(k: nat, j: nat)
      reads this
    {
      Valid() && HasChunk() && curChunkNum == k + 1 && itemNum == j
    }

    constructor (bytes: seq<byte>)
      requires |bytes| >= HEADER_SIZE
      ensures Valid() && data == bytes && currentChunk == 0
      ensures knownFormat == IsSDES(bytes)
    {
      var p := NewSDES(bytes);
      data := bytes;
      knownFormat := p.knownFormat;
      chunks := if p.knownFormat then PacketChunks(bytes).value else [];
      currentChunk, curChunkNum, itemOffset, itemNum := 0, 0, 0, 0;
    }

    method GetChunkCount() returns (n: nat)
      requires Valid()
      ensures n == |chunks|
    {
      if !knownFormat {
        return 0;
      }
      return Count(data);
    }

    method GotoFirstChunk() returns (ok: bool)
      requires Valid()
      modifies this
      ensures Valid()
      ensures ok <==> chunks != []
      ensures if ok then At(0, 0) else currentChunk == 0
    {
      var count := GetChunkCount();
      if count == 0 {
        currentChunk := 0;
        return false;
      }
      currentChunk := HEADER_SIZE;
      curChunkNum := 1;
      itemOffset := 4;
      itemNum := 0;
      assert chunks[..0] == [];
      assert Items()[..0] == [];
      return true;
    }

    /** The byte the item cursor stands on: an item's id, or the terminating zero. */
    lemma IdAt(k: nat, j: nat)
      requires Known() && k < |chunks| && j <= |chunks[k].items|
      ensures var items, at := chunks[k].items, ChunkStart(chunks, k) + ItemStart(chunks[k].items, j);
              && at < |data|
              && data[at] == (if j < |items| then items[j].id else 0)
              && (j < |items| ==> HasItemAt(data, at, items[j]))
    {
      hide PacketChunks, ChunkStart, ItemStart;
      if j < |chunks[k].items| {
        ItemAt(data, chunks, k, j);
      } else {
        ItemsEnd(data, chunks, k);
      }
    }

    method GotoNextChunk() returns (ok: bool)
      requires Valid()
      modifies this
      ensures Valid()
      ensures ok <==> old(currentChunk != 0 && curChunkNum < |chunks|)
      ensures ok ==> At(old(curChunkNum), 0)
      ensures !ok ==> unchanged(this)
    {
      hide IsSDES, PacketChunks, ChunkStart, Count;
      if !knownFormat {
        return false;
      }
      if currentChunk == 0 {
        return false;
      }
      var count := GetChunkCount();
      if curChunkNum == count {
        return false;
      }
      var next := SkipChunk();
      currentChunk := next;
      curChunkNum := curChunkNum + 1;
      itemOffset := 4;
      itemNum := 0;
      assert Items()[..0] == [];
      return true;
    }

    /** The loop of GotoNextChunk: past the items, the zero byte and the padding. */
    method SkipChunk() returns (next: nat)
      requires Valid() && HasChunk() && curChunkNum < |chunks|
      ensures next == ChunkStart(chunks, curChunkNum) != 0
    {
      hide IsSDES, PacketChunks, Count, ChunksSize;
      ghost var k, items := curChunkNum - 1, Items();
      var offset := 4;
      ghost var j := 0;
      assert items[..0] == [];
      IdAt(k, 0);
      while data[currentChunk + offset] != 0
        invariant 0 <= j <= |items| && offset == ItemStart(items, j) && currentChunk + offset < |data|
        invariant data[currentChunk + offset] == (if j < |items| then items[j].id else 0)
        invariant j < |items| ==> HasItemAt(data, currentChunk + offset, items[j])
        decreases |items| - j
      {
        ItemStartNext(items, j);
        offset := offset + 2 + data[currentChunk + offset + 1] as nat;
        j := j + 1;
        IdAt(k, j);
      }
      assert items[..j] == items;
      ChunkStartNext(chunks, k);
      offset := offset + 1;
      if offset % 4 != 0 {
        offset := offset + (4 - offset % 4);
      }
      return currentChunk + offset;
    }

    method GetChunkSSRC(host: HostOrder) returns (ssrc: u32)
      requires Valid()
      ensures currentChunk == 0 ==> ssrc == 0
      ensures currentChunk != 0 ==> |chunks[curChunkNum - 1].ssrc| == 4 &&
                                    ssrc == Read32(host, chunks[curChunkNum - 1].ssrc)
    {
      hide IsSDES, PacketChunks, ChunkStart, ItemStart, Count, ChunkSize, ItemsBytes, ChunksSize;
      if !knownFormat || currentChunk == 0 {
        return 0;
      }
      SsrcAt(curChunkNum - 1);
      return Read32(host, data[currentChunk..currentChunk + 4]);
    }

    lemma SsrcAt(k: nat)
      requires Known() && k < |chunks|
      ensures var at := ChunkStart(chunks, k);
              at + 4 <= |data| && data[at..at + 4] == chunks[k].ssrc
    {
      ChunkAt(data, chunks, k);
      var at, n := ChunkStart(chunks, k), ChunkSize(chunks[k]);
      SliceOfSlice(data, at, at + n, 0, 4);
    }

    method GotoFirstItem() returns (ok: bool)
      requires Valid()
      modifies this
      ensures Valid() && currentChunk == old(currentChunk) && curChunkNum == old(curChunkNum)
      ensures ok <==> currentChunk != 0 && Items() != []
      ensures currentChunk != 0 ==> itemNum == 0
    {
      if !knownFormat || currentChunk == 0 {
        return false;
      }
      itemOffset := 4;
      itemNum := 0;
      assert Items()[..0] == [];
      IdAt(curChunkNum - 1, 0);
      if data[currentChunk + itemOffset] == 0 {
        return false;
      }
      return true;
    }

    /** Moves to the next item; on the last item, or past it, the cursor stays. */
    method GotoNextItem() returns (ok: bool)
      requires Valid()
      modifies this
      ensures Valid() && currentChunk == old(currentChunk) && curChunkNum == old(curChunkNum)
      ensures ok <==> currentChunk != 0 && old(itemNum) + 1 < |Items()|
      ensures itemNum == if ok then old(itemNum) + 1 else old(itemNum)
    {
      hide IsSDES, PacketChunks, ChunkStart, ItemStart, Count, ChunkSize, ItemsBytes, ChunksSize;
      if !knownFormat || currentChunk == 0 {
        return false;
      }
      ghost var k := curChunkNum - 1;
      IdAt(k, itemNum);
      if data[currentChunk + itemOffset] == 0 {
        return false;
      }
      ItemStartNext(Items(), itemNum);
      var offset := itemOffset;
      offset := offset + 2;
      offset := offset + data[currentChunk + itemOffset + 1] as nat;
      IdAt(k, itemNum + 1);
      if data[currentChunk + offset] == 0 {
        return false;
      }
      itemOffset := offset;
      itemNum := itemNum + 1;
      return true;
    }

    method GetItemType() returns (t: ItemType)
      requires Valid()
      ensures t == if currentChunk == 0 || itemNum == |Items()| then NoItem else TypeOfId(Items()[itemNum].id)
    {
      hide IsSDES, PacketChunks, ChunkStart, ItemStart, Count, ChunkSize, ItemsBytes, ChunksSize;
      if !knownFormat || currentChunk == 0 {
        return NoItem;
      }
      IdAt(curChunkNum - 1, itemNum);
      return TypeOfId(data[currentChunk + itemOffset]);
    }

    /** GetItemLength and GetItemData: the bytes of the current item. */
    method GetItemData() returns (bytes: seq<byte>)
      requires Valid()
      ensures bytes == if currentChunk == 0 || itemNum == |Items()| then [] else Items()[itemNum].data
    {
      hide IsSDES, PacketChunks, ChunkStart, ItemStart, Count, ChunkSize, ItemsBytes, ChunksSize;
      if !knownFormat || currentChunk == 0 {
        return [];
      }
      IdAt(curChunkNum - 1, itemNum);
      var at := currentChunk + itemOffset;
      if data[at] == 0 {
        return [];
      }
      var length := data[at + 1] as nat;
      return data[at + 2..at + 2 + length];
    }

    /** The four PRIV getters: prefix and value of the current item.  Nothing is
        returned for other items or when the prefix length does not fit. */
    method GetPRIV() returns (prefix: seq<byte>, value: seq<byte>)
      requires Valid()
      ensures if currentChunk == 0 || itemNum == |Items()| || Items()[itemNum].id != ID_PRIV
              then prefix == [] && value == []
              else prefix == PrivPrefix(Items()[itemNum].data) && value == PrivValue(Items()[itemNum].data)
    {
      hide IsSDES, PacketChunks, ChunkStart, ItemStart, Count, ChunkSize, ItemsBytes, ChunksSize;
      if !knownFormat || currentChunk == 0 {
        return [], [];
      }
      IdAt(curChunkNum - 1, itemNum);
      var at := currentChunk + itemOffset;
      if data[at] != ID_PRIV {
        return [], [];
      }
      var length := data[at + 1] as nat;
      if length == 0 {
        return [], [];
      }
      ghost var item := data[at + 2..at + 2 + length];
      var prefixLength := data[at + 2] as nat;
      assert item[0] == data[at + 2];
      if prefixLength > length - 1 {
        return [], [];
      }
      SliceOfSlice(data, at + 2, at + 2 + length, 1, 1 + prefixLength);
      SliceOfSlice(data, at + 2, at + 2 + length, 1 + prefixLength, length);
      return data[at + 3..at + 3 + prefixLength], data[at + 3 + prefixLength..at + 2 + length];
    }

    /** The current item as the session's source table reads it. */
    method ReadCurrent() returns (v: SdesValue)
      requires Valid() && HasChunk() && itemNum < |Items()|
      ensures v == ReadItem(Items()[itemNum])
    {
      hide IsSDES, PacketChunks, ChunkStart, ItemStart, Count, ChunkSize, ItemsBytes, ChunksSize;
      var t := GetItemType();
      if t != PRIV {
        var text := GetItemData();
        return Normal(t, text);
      }
      var prefix, value := GetPRIV();
      return Private(prefix, value);
    }

    /** The items of the current chunk, in a GotoFirstItem/GotoNextItem loop. */
    method WalkItems() returns (values: seq<SdesValue>)
      requires Valid() && HasChunk()
      modifies this
      ensures Valid() && currentChunk == old(currentChunk) && curChunkNum == old(curChunkNum)
      ensures values == ReadItems(Items())
    {
      hide IsSDES, PacketChunks, ChunkStart, ItemStart, Count, ChunkSize, ItemsBytes, ChunksSize;
      values := [];
      ghost var items := Items();
      var more := GotoFirstItem();
      while more
        invariant Valid() && currentChunk == old(currentChunk) && curChunkNum == old(curChunkNum)
        invariant items == Items()
        invariant if more then itemNum < |items| && |values| == itemNum else |values| == |items|
        invariant forall i :: 0 <= i < |values| ==> values[i] == ReadItem(items[i])
        decreases more, |items| - itemNum
      {
        var v := ReadCurrent();
        values := values + [v];
        more := GotoNextItem();
      }
      assert values == ReadItems(items);
    }

    /** A whole walk: every chunk, and every item in it, once and in order. */
    method Walk(host: HostOrder) returns (visits: seq<Visit>)
      requires Valid()
      modifies this
      ensures Valid()
      ensures |visits| == |chunks|
      ensures forall k :: 0 <= k < |visits| ==> |chunks[k].ssrc| == 4 && visits[k] == VisitOf(host, chunks[k])
    {
      hide IsSDES, PacketChunks, ChunkStart, ItemStart, Count, ChunkSize, ItemsBytes, ChunksSize;
      visits := [];
      var more := GotoFirstChunk();
      while more
        invariant Valid()
        invariant if more then HasChunk() && curChunkNum == |visits| + 1 else |visits| == |chunks|
        invariant forall k :: 0 <= k < |visits| ==>
                    k < |chunks| && |chunks[k].ssrc| == 4 && visits[k] == VisitOf(host, chunks[k])
        decreases more, |chunks| - |visits|
      {
        var ssrc := GetChunkSSRC(host);
        var values := WalkItems();
        visits := visits + [Visit(ssrc, values)];
        more := GotoNextChunk();
      }
    }
  }
}
