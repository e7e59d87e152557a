/** The wire format of SDES packets (section 6.5 of RFC 3550) as a grammar, and the
    parser the validity scan implements.  A chunk is an SSRC, items that each carry
    a nonzero id and a length byte, a zero byte, and padding to a word boundary whose
    content is free. */
module SdesFormat {
  import opened Bytes
  import opened Wrappers
  import opened RtcpHeader

  datatype RawItem = RawItem(id: byte, data: seq<byte>)

  type Item = i: RawItem | i.id != 0 && |i.data| < 0x100
    witness RawItem(1, [])

  datatype Chunk = Chunk(ssrc: seq<byte>, items: seq<Item>)

  // ---- what an item means ----

  datatype ItemType = NoItem | CNAME | NAME | EMAIL | PHONE | LOC | TOOL | NOTE | PRIV | UnknownItem

  datatype SdesValue =
    | Normal(itemType: ItemType, text: seq<byte>)
    | Private(prefix: seq<byte>, value: seq<byte>)

  const ID_PRIV: byte := 8

  function TypeOfId(id: byte): ItemType {
    if id == 0 then NoItem
    else if id == 1 then CNAME
    else if id == 2 then NAME
    else if id == 3 then EMAIL
    else if id == 4 then PHONE
    else if id == 5 then LOC
    else if id == 6 then TOOL
    else if id == 7 then NOTE
    else if id == ID_PRIV then PRIV
    else UnknownItem
  }

  /** The id written for a type; only the seven ordinary types have one. */
  function IdOfType(t: ItemType): (r: Option<byte>)
    ensures r.Some? ==> r.value != 0 && r.value != ID_PRIV && TypeOfId(r.value) == t
    ensures r.None? <==> t in {NoItem, PRIV, UnknownItem}
  {
    match t
    case CNAME => Some(1)
    case NAME => Some(2)
    case EMAIL => Some(3)
    case PHONE => Some(4)
    case LOC => Some(5)
    case TOOL => Some(6)
    case NOTE => Some(7)
    case _ => None
  }

  /** Whether the prefix length of a private item fits inside the item. */
  predicate PrefixFits(data: seq<byte>) {
    data != [] && data[0] < |data|
  }

  function PrivPrefix(data: seq<byte>): seq<byte> {
    if PrefixFits(data) then data[1..1 + data[0] as nat] else []
  }

  function PrivValue(data: seq<byte>): seq<byte> {
    if PrefixFits(data) then data[1 + data[0] as nat..] else []
  }

  /** What the getters say about an item. */
  function ReadItem(item: Item): SdesValue {
    if item.id == ID_PRIV then Private(PrivPrefix(item.data), PrivValue(item.data))
    else Normal(TypeOfId(item.id), item.data)
  }

  /** The values the builder can write. */
  predicate Writable(v: SdesValue) {
    match v
    case Normal(t, text) => IdOfType(t).Some? && |text| <= 255
    case Private(prefix, value) => |prefix| + 1 + |value| <= 255
  }

  function WireItem(v: SdesValue): Item
    requires Writable(v)
  {
    match v
    case Normal(t, text) => RawItem(IdOfType(t).value, text)
    case Private(prefix, value) => RawItem(ID_PRIV, [|prefix|] + prefix + value)
  }

  /** The ids of section 6.5 of RFC 3550: the first byte of an item. */
  lemma StandardIds(v: SdesValue)
    requires Writable(v)
    ensures var id := ItemBytes(WireItem(v))[0];
            && (v.Private? ==> id == 8)
            && (v.Normal? ==>
                  match v.itemType
                  case CNAME => id == 1
                  case NAME => id == 2
                  case EMAIL => id == 3
                  case PHONE => id == 4
                  case LOC => id == 5
                  case TOOL => id == 6
                  case NOTE => id == 7
                  case _ => false)
  {
  }

  /** Reading inverts writing, for ordinary and private items. */
  lemma WireItemReads(v: SdesValue)
    requires Writable(v)
    ensures ReadItem(WireItem(v)) == v
  {
    if v.Private? {
      var data := WireItem(v).data;
      assert data[1..1 + |v.prefix|] == v.prefix;
      assert data[1 + |v.prefix|..] == v.value;
    }
  }

  // ---- the grammar ----

  function ItemBytes(item: Item): (r: seq<byte>)
    ensures |r| == 2 + |item.data|
  {
    [item.id, |item.data|] + item.data
  }

  function ItemsBytes(items: seq<Item>): seq<byte> {
    if items == [] then [] else ItemBytes(items[0]) + ItemsBytes(items[1..])
  }

  /** Size of the chunk: SSRC, items, terminating zero, padding. */
  function ChunkSize(c: Chunk): (n: nat)
    ensures n >= 5 + |ItemsBytes(c.items)|
    ensures n % 4 == 0
  {
    var n := 5 + |ItemsBytes(c.items)|;
    n + PadLength(n)
  }

  function ChunksSize(chunks: seq<Chunk>): (n: nat)
    ensures n % 4 == 0
  {
    if chunks == [] then 0 else ChunkSize(chunks[0]) + ChunksSize(chunks[1..])
  }

  /** These bytes spell the chunk. */
  predicate SpellsChunk(b: seq<byte>, c: Chunk) {
    var n := |ItemsBytes(c.items)|;
    && |b| == ChunkSize(c)
    && b[..4] == c.ssrc
    && b[4..4 + n] == ItemsBytes(c.items)
    && b[4 + n] == 0
  }

  /** These bytes spell the chunks, one after the other, with nothing left over. */
  predicate SpellsChunks(b: seq<byte>, chunks: seq<Chunk>) {
    if chunks == [] then b == []
    else
      && ChunkSize(chunks[0]) <= |b|
      && SpellsChunk(b[..ChunkSize(chunks[0])], chunks[0])
      && SpellsChunks(b[ChunkSize(chunks[0])..], chunks[1..])
  }

  // ---- the parser ----

  /** The items up to the terminating zero byte. */
  function ParseItems(b: seq<byte>): (r: Option<seq<Item>>)
    ensures r.Some? ==>
              var n := |ItemsBytes(r.value)|;
              n < |b| && b[..n] == ItemsBytes(r.value) && b[n] == 0
  {
    if |b| < 1 then None
    else if b[0] == 0 then Some([])
    else if |b| < 2 || |b| - 2 < b[1] then None
    else
      var n: nat := 2 + b[1] as nat;
      match ParseItems(b[n..])
      case None => None
      case Some(items) =>
        var item := RawItem(b[0], b[2..n]);
        var m := |ItemsBytes(items)|;
        assert b[..n] == ItemBytes(item);
        assert b[..n + m] == b[..n] + b[n..][..m];
        assert ItemsBytes([item] + items) == ItemBytes(item) + ItemsBytes(items) by {
          assert ([item] + items)[1..] == items;
        }
        Some([item] + items)
  }

  /** The chunk at the front. */
  function ParseChunk(b: seq<byte>): (r: Option<Chunk>)
    ensures r.Some? ==> ChunkSize(r.value) <= |b| && SpellsChunk(b[..ChunkSize(r.value)], r.value)
  {
    if |b| < 8 then None
    else
      match ParseItems(b[4..])
      case None => None
      case Some(items) =>
        var c := Chunk(b[..4], items);
        var n := |ItemsBytes(items)|;
        if ChunkSize(c) > |b| then None
        else
          assert b[..ChunkSize(c)][4..4 + n] == b[4..][..n];
          Some(c)
  }

  /** The scan's view of a packet body: exactly `count` chunks and nothing else. */
  function ParseChunks(b: seq<byte>, count: nat): (r: Option<seq<Chunk>>)
    ensures r.Some? ==> |r.value| == count && SpellsChunks(b, r.value)
    decreases count
  {
    if count == 0 || |b| == 0 then
      if count == 0 && |b| == 0 then Some([]) else None
    else
      match ParseChunk(b)
      case None => None
      case Some(c) =>
        match ParseChunks(b[ChunkSize(c)..], count - 1)
        case None => None
        case Some(chunks) =>
          assert ([c] + chunks)[1..] == chunks;
          Some([c] + chunks)
  }

  /** The scan of items whose first is there in full. */
  lemma ParseItemsNext(b: seq<byte>, item: Item)
    requires var ib := ItemBytes(item); |ib| <= |b| && b[..|ib|] == ib
    ensures var rest := ParseItems(b[2 + |item.data|..]);
            ParseItems(b) == if rest.None? then None else Some([item] + rest.value)
  {
    var ib := ItemBytes(item);
    assert b[0] == ib[0] == item.id && b[1] == ib[1] == |item.data|;
    assert b[2..|ib|] == b[..|ib|][2..] == item.data;
    hide ItemsBytes;
  }

  lemma ItemsBytesFront(item: Item, items: seq<Item>)
    ensures ItemsBytes([item] + items) == ItemBytes(item) + ItemsBytes(items)
  {
    hide ItemBytes;
    assert ([item] + items)[1..] == items;
  }

  lemma {:induction false} ParseItemsComplete(b: seq<byte>, items: seq<Item>)
    requires var n := |ItemsBytes(items)|; n < |b| && b[..n] == ItemsBytes(items) && b[n] == 0
    ensures ParseItems(b) == Some(items)
  {
    if items != [] {
      var ib, rest := ItemBytes(items[0]), ItemsBytes(items[1..]);
      var n := |ib|;
      assert ItemsBytes(items) == ib + rest;
      hide ItemsBytes, ItemBytes, ParseItems;
      assert b[..n] == b[..n + |rest|][..n] == ib;
      assert b[n..][..|rest|] == b[..n + |rest|][n..] == rest;
      ParseItemsComplete(b[n..], items[1..]);
      ParseItemsNext(b, items[0]);
      assert [items[0]] + items[1..] == items;
    }
  }

  lemma ParseChunkComplete(b: seq<byte>, c: Chunk)
    requires ChunkSize(c) <= |b| && SpellsChunk(b[..ChunkSize(c)], c)
    ensures ParseChunk(b) == Some(c)
  {
    var n, size := |ItemsBytes(c.items)|, ChunkSize(c);
    assert b[4..][..n] == b[..size][4..4 + n];
    assert b[4..][n] == b[..size][4 + n];
    ParseItemsComplete(b[4..], c.items);
    assert b[..4] == b[..size][..4];
  }

  lemma {:induction false} ParseChunksComplete(b: seq<byte>, chunks: seq<Chunk>)
    requires SpellsChunks(b, chunks)
    ensures ParseChunks(b, |chunks|) == Some(chunks)
  {
    hide ParseChunk, SpellsChunk;
    if chunks != [] {
      ParseChunkComplete(b, chunks[0]);
      ParseChunksComplete(b[ChunkSize(chunks[0])..], chunks[1..]);
      assert [chunks[0]] + chunks[1..] == chunks;
    }
  }

  /** The scan accepts a body iff the body spells exactly `count` chunks, and then
      it can be read as no other chunks. */
  lemma ScanMeansGrammar(b: seq<byte>, count: nat)
    ensures ParseChunks(b, count).Some?
       <==> exists chunks: seq<Chunk> :: |chunks| == count && SpellsChunks(b, chunks)
    ensures forall chunks: seq<Chunk> :: |chunks| == count && SpellsChunks(b, chunks) ==>
              ParseChunks(b, count) == Some(chunks)
  {
    hide ParseChunk, SpellsChunk;
    forall chunks: seq<Chunk> | |chunks| == count && SpellsChunks(b, chunks)
      ensures ParseChunks(b, count) == Some(chunks)
    {
      ParseChunksComplete(b, chunks);
    }
  }

  // ---- whole packets ----

  /** The chunks of a packet, when its body is well formed. */
  function PacketChunks(data: seq<byte>): Option<seq<Chunk>>
    requires |data| >= HEADER_SIZE
  {
    match ContentLength(data)
    case None => None
    case Some(len) => if len < HEADER_SIZE then None else ParseChunks(data[HEADER_SIZE..len], Count(data))
  }

  // ---- positions inside a packet ----

  function ChunkStart(chunks: seq<Chunk>, k: nat): nat
    requires k <= |chunks|
  {
    HEADER_SIZE + ChunksSize(chunks[..k])
  }

  /** Offset of item j inside its chunk; the terminating zero when j is the number of items. */
  function ItemStart(items: seq<Item>, j: nat): nat
    requires j <= |items|
  {
    4 + |ItemsBytes(items[..j])|
  }

  lemma {:induction false} ItemsSplit(items: seq<Item>, j: nat)
    requires j <= |items|
    ensures ItemsBytes(items) == ItemsBytes(items[..j]) + ItemsBytes(items[j..])
  {
    if j == 0 {
      assert items[j..] == items;
    } else {
      ItemsSplit(items[1..], j - 1);
      assert items[..j][1..] == items[1..][..j - 1];
      assert items[1..][j - 1..] == items[j..];
    }
  }

  lemma ItemStartNext(items: seq<Item>, j: nat)
    requires j < |items|
    ensures ItemStart(items, j + 1) == ItemStart(items, j) + 2 + |items[j].data|
    ensures ItemStart(items, |items|) >= ItemStart(items, j) + 2 + |items[j].data|
  {
    ItemsSplit(items[..j + 1], j);
    assert items[..j + 1][..j] == items[..j];
    assert items[..j + 1][j..] == [items[j]];
    assert ItemsBytes([items[j]]) == ItemBytes(items[j]) + ItemsBytes([items[j]][1..]);
    ItemsSplit(items, j + 1);
    assert items[..|items|] == items;
  }

  lemma {:induction false} ChunksSizeSnoc(chunks: seq<Chunk>, c: Chunk)
    ensures ChunksSize(chunks + [c]) == ChunksSize(chunks) + ChunkSize(c)
  {
    hide ChunkSize;
    if chunks == [] {
      assert chunks + [c] == [c];
    } else {
      ChunksSizeSnoc(chunks[1..], c);
      assert (chunks + [c])[1..] == chunks[1..] + [c];
    }
  }

  lemma ChunkStartNext(chunks: seq<Chunk>, k: nat)
    requires k < |chunks|
    ensures ChunkStart(chunks, k + 1) == ChunkStart(chunks, k) + ChunkSize(chunks[k])
  {
    ChunksSizeSnoc(chunks[..k], chunks[k]);
    assert chunks[..k] + [chunks[k]] == chunks[..k + 1];
  }

  lemma {:induction false} ChunkInBody(b: seq<byte>, chunks: seq<Chunk>, k: nat)
    requires SpellsChunks(b, chunks) && k < |chunks|
    ensures var at, n := ChunksSize(chunks[..k]), ChunkSize(chunks[k]);
            at + n <= |b| && SpellsChunk(b[at..at + n], chunks[k])
  {
    hide SpellsChunk, ChunkSize;
    var first := ChunkSize(chunks[0]);
    if k == 0 {
      assert b[0..first] == b[..first];
    } else {
      ChunkInBody(b[first..], chunks[1..], k - 1);
      assert chunks[..k][1..] == chunks[1..][..k - 1];
      var at, n := ChunksSize(chunks[1..][..k - 1]), ChunkSize(chunks[k]);
      SliceOfSlice(b, first, |b|, at, at + n);
      assert b[first..|b|] == b[first..];
    }
  }

  /** The bytes at a chunk's position spell that chunk. */
  lemma ChunkAt(data: seq<byte>, chunks: seq<Chunk>, k: nat)
    requires |data| >= HEADER_SIZE && PacketChunks(data) == Some(chunks) && k < |chunks|
    ensures var at, n := ChunkStart(chunks, k), ChunkSize(chunks[k]);
            at + n <= |data| && SpellsChunk(data[at..at + n], chunks[k])
  {
    hide SpellsChunk, ChunkSize, ChunksSize;
    var len := ContentLength(data).value;
    ChunkInBody(data[HEADER_SIZE..len], chunks, k);
    var at, n := ChunksSize(chunks[..k]), ChunkSize(chunks[k]);
    SliceOfSlice(data, HEADER_SIZE, len, at, at + n);
  }

  /** The header and data of an item are at this offset, with a byte to spare. */
  predicate HasItemAt(data: seq<byte>, at: nat, item: Item) {
    && at + 2 + |item.data| < |data|
    && data[at] == item.id && data[at + 1] == |item.data|
    && data[at + 2..at + 2 + |item.data|] == item.data
  }

  lemma ItemInItems(items: seq<Item>, j: nat)
    requires j < |items|
    ensures var at, ib := |ItemsBytes(items[..j])|, ItemBytes(items[j]);
            at + |ib| <= |ItemsBytes(items)| && ItemsBytes(items)[at..at + |ib|] == ib
  {
    var x, y, z := ItemsBytes(items[..j]), ItemBytes(items[j]), ItemsBytes(items[j + 1..]);
    ItemsSplit(items, j);
    assert items[j..][0] == items[j] && items[j..][1..] == items[j + 1..];
    assert ItemsBytes(items) == x + (y + z);
    Middle(x, y, z);
  }

  lemma ItemSlice(data: seq<byte>, start: nat, c: Chunk, j: nat)
    requires start + ChunkSize(c) <= |data| && SpellsChunk(data[start..start + ChunkSize(c)], c)
    requires j < |c.items|
    ensures var at, ib := start + 4 + |ItemsBytes(c.items[..j])|, ItemBytes(c.items[j]);
            at + |ib| < |data| && data[at..at + |ib|] == ib
  {
    hide ItemsBytes, ItemBytes;
    var size, n := ChunkSize(c), |ItemsBytes(c.items)|;
    var i, ib := |ItemsBytes(c.items[..j])|, ItemBytes(c.items[j]);
    ItemInItems(c.items, j);
    SliceOfSlice(data, start, start + size, 4, 4 + n);
    hide SpellsChunk;
    SliceOfSlice(data, start + 4, start + 4 + n, i, i + |ib|);
  }

  lemma ItemParts(data: seq<byte>, at: nat, item: Item)
    requires var ib := ItemBytes(item); at + |ib| < |data| && data[at..at + |ib|] == ib
    ensures HasItemAt(data, at, item)
  {
    var ib := ItemBytes(item);
    assert data[at..at + |ib|][0] == data[at] && data[at..at + |ib|][1] == data[at + 1];
    SliceOfSlice(data, at, at + |ib|, 2, |ib|);
    assert ib[2..|ib|] == item.data;
  }

  lemma ItemInData(data: seq<byte>, start: nat, c: Chunk, j: nat)
    requires start + ChunkSize(c) <= |data| && SpellsChunk(data[start..start + ChunkSize(c)], c)
    requires j < |c.items|
    ensures HasItemAt(data, start + ItemStart(c.items, j), c.items[j])
  {
    hide ItemsBytes, ItemBytes, SpellsChunk, ChunkSize, HasItemAt;
    ItemSlice(data, start, c, j);
    ItemParts(data, start + 4 + |ItemsBytes(c.items[..j])|, c.items[j]);
  }

  /** What the bytes at an item's position are. */
  lemma ItemAt(data: seq<byte>, chunks: seq<Chunk>, k: nat, j: nat)
    requires |data| >= HEADER_SIZE && PacketChunks(data) == Some(chunks)
    requires k < |chunks| && j < |chunks[k].items|
    ensures HasItemAt(data, ChunkStart(chunks, k) + ItemStart(chunks[k].items, j), chunks[k].items[j])
  {
    hide *;
    ChunkAt(data, chunks, k);
    ItemInData(data, ChunkStart(chunks, k), chunks[k], j);
  }

  /** The byte after the last item is the terminating zero. */
  lemma ItemsEnd(data: seq<byte>, chunks: seq<Chunk>, k: nat)
    requires |data| >= HEADER_SIZE && PacketChunks(data) == Some(chunks) && k < |chunks|
    ensures var at := ChunkStart(chunks, k) + ItemStart(chunks[k].items, |chunks[k].items|);
            at < |data| && data[at] == 0
  {
    hide PacketChunks, ParseChunks, ChunksSize;
    ChunkAt(data, chunks, k);
    var c, start := chunks[k], ChunkStart(chunks, k);
    var n := 4 + |ItemsBytes(c.items)|;
    assert c.items[..|c.items|] == c.items;
    assert data[start..start + ChunkSize(c)][n] == data[start + n];
  }
}
