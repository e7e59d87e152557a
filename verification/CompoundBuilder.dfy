/** The builder of compound packets.  Every call predicts the size the packet would
    have and refuses what would not fit; EndBuild lays the packet out.  The ghost
    field `added` records what has been accepted, and the contracts say what each
    call does to it and to the size of its spelling. */
module CompoundBuilder {
  import opened Bytes
  import opened RtcpHeader
  import opened SdesFormat
  import opened RtcpPackets
  import opened CompoundParser
  import opened CompoundFormat
  import opened CompoundSizes
  import opened CompoundCalls
  import opened CompoundWriter

  datatype BuildStatus =
    | Done
    | AlreadyBuilding
    | AlreadyBuilt
    | MaxPacketSizeTooSmall
    | BufferSizeTooSmall
    | NotBuilding
    | AlreadyGotReport
    | NotEnoughBytesLeft
    | ReportNotStarted
    | NoCurrentSource
    | InvalidItemType
    | TotalItemLengthTooBig
    | TooManySsrcs
    | IllegalSubtype
    | IllegalAppDataLength
    | AppDataLengthTooBig
    | NoReportPresent

  const RTP_MINPACKETSIZE := 600

  /** Number of values of size_t: unsigned subtraction wraps around at it. */
  const SIZE_T: int := 0x1_0000_0000_0000_0000

  // ---- the report part ----

  datatype Report = Report(isSR: bool, headerData: seq<byte>, reportBlocks: seq<seq<byte>>) {
    function NeededBytes(): nat {
      var n := |reportBlocks|;
      if n == 0 then
        if |headerData| == 0 then 0 else 4 + |headerData|
      else
        n * 24 + PacketsNeeded(n) * 8 + if isSR then 20 else 0
    }

    function NeededBytesWithExtraReportBlock(): nat {
      var n := |reportBlocks| + 1;
      n * 24 + PacketsNeeded(n) * 8 + if isSR then 20 else 0
    }
  }

  ghost predicate CollectsReport(r: Report, c: Compound) {
    && r.isSR == c.header.SenderReport?
    && r.headerData == HeaderData(c.header)
    && CollectsBlocks(r.reportBlocks, c.blocks)
    && (c.header.NoReport? ==> c.blocks == [])
  }

  lemma ReportNeeded(r: Report, c: Compound)
    requires CollectsReport(r, c)
    ensures r.NeededBytes() == |Flatten(Reports(c))|
  {
    hide PacketsNeeded;
    if !c.header.NoReport? {
      ReportPiecesSize(c.header, c.blocks);
    }
  }

  lemma ReportNeededWithBlock(r: Report, c: Compound, b: ReportBlock)
    requires CollectsReport(r, c) && !c.header.NoReport?
    ensures r.NeededBytesWithExtraReportBlock() == |Flatten(ReportPieces(c.header, c.blocks + [b]))|
  {
    hide PacketsNeeded;
    ReportPiecesSize(c.header, c.blocks + [b]);
  }

  // ---- the SDES part ----

  function SourceNeeded(totalItemSize: nat): nat {
    var x := totalItemSize + 1;
    var r := x % 4;
    (if r != 0 then x + (4 - r) else x) + 4
  }

  lemma SourceNeededIsSize(s: SDESSource, src: Source)
    requires CollectsSource(s, src)
    ensures SourceNeeded(s.totalItemSize) == |SourceBytes(src)|
  {
  }

  method SdesNeededBytes(ss: seq<SDESSource>, ghost sources: seq<Source>) returns (x: nat)
    requires CollectsSources(ss, sources)
    ensures x == |Flatten(SdesPieces(sources))|
  {
    hide SdesPieces, Flatten, CollectsSource, SourceNeeded, SourceBytes, SourcesBytes, PacketsNeeded;
    SdesPiecesSize(sources);
    NoSources();
    if |ss| == 0 {
      assert sources == [];
      PacketsNeededSmall(0);
      return 0;
    }
    x := SumOfNeeded(ss, |ss|, sources);
    assert sources[..|ss|] == sources;
    x := x + PacketsNeeded(|ss|) * 4;
  }

  /** The loop the three predictors share: the chunk sizes of the first sources. */
  method SumOfNeeded(ss: seq<SDESSource>, n: nat, ghost sources: seq<Source>) returns (x: nat)
    requires CollectsSources(ss, sources) && n <= |ss|
    ensures x == |SourcesBytes(sources[..n])|
  {
    hide CollectsSource, SourceNeeded, SourceBytes, SourcesBytes;
    x := 0;
    NoSources();
    assert sources[..0] == [];
    for it := 0 to n
      invariant x == |SourcesBytes(sources[..it])|
    {
      SourceNeededIsSize(ss[it], sources[it]);
      SourcesBytesNext(sources, it);
      x := x + SourceNeeded(ss[it].totalItemSize);
    }
  }

  method SdesNeededBytesWithExtraItem(ss: seq<SDESSource>, itemDataLength: nat,
                                      ghost sources: seq<Source>, ghost v: Value) returns (x: nat)
    requires CollectsSources(ss, sources) && |WireItem(v).data| == itemDataLength
    ensures x == if sources == [] then 0 else |Flatten(SdesPieces(WithItem(sources, v)))|
  {
    hide SdesPieces, Flatten, SourceBytes, SourcesBytes, PacketsNeeded, WireItem, ItemsBytes, ChunkSize;
    if |ss| == 0 {
      return 0;
    }
    var last := |ss| - 1;
    ghost var more := WithItem(sources, v);
    x := SumOfNeeded(ss, last, sources);
    assert CollectsSource(ss[last], sources[last]);
    WireItemsSnoc(sources[last].values, v);
    ExtraItemSize(more[last]);
    x := x + SourceNeeded(ss[last].totalItemSize + 2 + itemDataLength);
    assert more[..last] == sources[..last] && more[..last + 1] == more;
    SourcesBytesNext(more, last);
    SdesPiecesSize(more);
    x := x + PacketsNeeded(|ss|) * 4;
  }

  lemma ExtraItemSize(src: Source)
    ensures SourceNeeded(|ItemsBytes(WireItems(src.values))|) == |SourceBytes(src)|
  {
  }

  /** For an extra source.  With no source yet the answer is 0. */
  method SdesNeededBytesWithExtraSource(ss: seq<SDESSource>, ghost sources: seq<Source>, ghost ssrc: u32)
    returns (x: nat)
    requires CollectsSources(ss, sources)
    ensures x == if sources == [] then 0 else |Flatten(SdesPieces(sources + [Source(ssrc, [])]))|
  {
    hide SdesPieces, Flatten, SourceBytes, SourcesBytes, PacketsNeeded, CollectsSource;
    if |ss| == 0 {
      return 0;
    }
    x := SumOfNeeded(ss, |ss|, sources);
    x := x + 8;
    x := x + PacketsNeeded(|ss| + 1) * 4;
    EmptySourceSize(ssrc);
    ghost var more := sources + [Source(ssrc, [])];
    assert more[..|ss|] == sources[..|ss|] && more[..|ss| + 1] == more;
    SourcesBytesNext(more, |ss|);
    SdesPiecesSize(more);
  }

  // ---- the builder ----

  class RTCPCompoundPacketBuilder {
    var maximumPacketSize: nat
    var buffer: array?<byte>
    var external: bool
    var building: bool
    var report: Report
    var sdesSources: seq<SDESSource>
    var byePackets: seq<seq<byte>>
    var byeSize: nat
    var appPackets: seq<seq<byte>>
    var appSize: nat
    var compoundPacket: array?<byte>
    var compoundLength: nat
    var packetList: seq<RTCPPacket>
    ghost var added: Compound

    ghost predicate Valid()
      reads this
    {
      && CollectsReport(report, added)
      && CollectsSources(sdesSources, added.sources)
      && byePackets == ByePieces(added.byes) && byeSize == |Flatten(byePackets)|
      && appPackets == AppPieces(added.apps) && appSize == |Flatten(appPackets)|
      && (!building ==> added == Nothing)
      && (compoundPacket == null ==> packetList == [])
      && (building ==> compoundPacket == null && maximumPacketSize >= RTP_MINPACKETSIZE
                       && maximumPacketSize < SIZE_T
                       && Size(added) <= maximumPacketSize + MostOver(added))
      && (building && external ==> buffer != null && buffer.Length == maximumPacketSize)
      && (external <==> buffer != null)
    }

    constructor ()
      ensures Valid() && added == Nothing && !building && !external && compoundPacket == null
    {
      maximumPacketSize, buffer, external, building := 0, null, false, false;
      report := Report(false, [], []);
      sdesSources := [];
      byePackets, byeSize, appPackets, appSize := [], 0, [], 0;
      compoundPacket, compoundLength, packetList := null, 0, [];
      added := Nothing;
    }

    method InitBuild(maxPacketSize: nat) returns (status: BuildStatus)
      requires Valid() && maxPacketSize < SIZE_T
      modifies this
      ensures Valid() && added == old(added)
      ensures status ==
              if old(building) then AlreadyBuilding
              else if old(compoundPacket) != null then AlreadyBuilt
              else if maxPacketSize < RTP_MINPACKETSIZE then MaxPacketSizeTooSmall
              else Done
      ensures if status.Done? then building && !external && maximumPacketSize == maxPacketSize && added == Nothing
              else unchanged(this)
    {
      NothingSize();
      hide CollectsReport, CollectsSources, Size;
      if building {
        return AlreadyBuilding;
      }
      if compoundPacket != null {
        return AlreadyBuilt;
      }
      if maxPacketSize < RTP_MINPACKETSIZE {
        return MaxPacketSizeTooSmall;
      }
      maximumPacketSize := maxPacketSize;
      buffer := null;
      external := false;
      byeSize := 0;
      appSize := 0;
      building := true;
      return Done;
    }

    method InitBuildInto(externalBuffer: array<byte>) returns (status: BuildStatus)
      requires Valid() && externalBuffer.Length < SIZE_T
      modifies this
      ensures Valid() && added == old(added)
      ensures status ==
              if old(building) then AlreadyBuilding
              else if old(compoundPacket) != null then AlreadyBuilt
              else if externalBuffer.Length < RTP_MINPACKETSIZE then BufferSizeTooSmall
              else Done
      ensures if status.Done?
              then && building && external && buffer == externalBuffer
                   && maximumPacketSize == buffer.Length && added == Nothing
              else unchanged(this)
    {
      NothingSize();
      hide CollectsReport, CollectsSources, Size;
      if building {
        return AlreadyBuilding;
      }
      if compoundPacket != null {
        return AlreadyBuilt;
      }
      if externalBuffer.Length < RTP_MINPACKETSIZE {
        return BufferSizeTooSmall;
      }
      maximumPacketSize := externalBuffer.Length;
      buffer := externalBuffer;
      external := true;
      byeSize := 0;
      appSize := 0;
      building := true;
      return Done;
    }

    /** A report may be started when it fits, and also when the packet is over its
        maximum already: the unsigned difference of the two has then wrapped around. */
    method StartSenderReport(ssrc: u32, info: SenderInfo) returns (status: BuildStatus)
      requires Valid()
      modifies this
      ensures Valid()
      ensures status ==
              if !old(building) then NotBuilding
              else if !old(added).header.NoReport? then AlreadyGotReport
              else if !Allowed(maximumPacketSize, old(added), StartReport(SenderReport(ssrc, info)))
                then NotEnoughBytesLeft
              else Done
      ensures added == if status.Done? then Apply(old(added), StartReport(SenderReport(ssrc, info))) else old(added)
      ensures building == old(building) && maximumPacketSize == old(maximumPacketSize) && external == old(external)
      ensures !status.Done? ==> unchanged(this)
    {
      hide Flatten, ReportPieces, SdesPieces, AppPieces, ByePieces, CollectsSources, InfoBytes, Big32, Size, Spelling;
      if !building {
        return NotBuilding;
      }
      if |report.headerData| != 0 {
        return AlreadyGotReport;
      }
      FlattenNothing<byte>();
      SizeParts(added);
      ghost var with := added.(header := SenderReport(ssrc, info));
      StartedSize(added, with);
      var sdesSize := SdesNeededBytes(sdesSources, added.sources);
      var totalSize := byeSize + appSize + sdesSize;
      var sizeLeft := (maximumPacketSize - totalSize) % SIZE_T;
      SizeLeft(maximumPacketSize, totalSize, 28);
      var neededSize := 4 + 4 + 20;
      if neededSize > sizeLeft {
        return NotEnoughBytesLeft;
      }
      report := report.(headerData := Big32(ssrc) + InfoBytes(info), isSR := true);
      added := with;
      return Done;
    }

    method StartReceiverReport(ssrc: u32) returns (status: BuildStatus)
      requires Valid()
      modifies this
      ensures Valid()
      ensures status ==
              if !old(building) then NotBuilding
              else if !old(added).header.NoReport? then AlreadyGotReport
              else if !Allowed(maximumPacketSize, old(added), StartReport(ReceiverReport(ssrc))) then NotEnoughBytesLeft
              else Done
      ensures added == if status.Done? then Apply(old(added), StartReport(ReceiverReport(ssrc))) else old(added)
      ensures building == old(building) && maximumPacketSize == old(maximumPacketSize) && external == old(external)
      ensures !status.Done? ==> unchanged(this)
    {
      hide Flatten, ReportPieces, SdesPieces, AppPieces, ByePieces, CollectsSources, InfoBytes, Big32, Size, Spelling;
      if !building {
        return NotBuilding;
      }
      if |report.headerData| != 0 {
        return AlreadyGotReport;
      }
      FlattenNothing<byte>();
      SizeParts(added);
      ghost var with := added.(header := ReceiverReport(ssrc));
      StartedSize(added, with);
      var sdesSize := SdesNeededBytes(sdesSources, added.sources);
      var totalSize := byeSize + appSize + sdesSize;
      var sizeLeft := (maximumPacketSize - totalSize) % SIZE_T;
      SizeLeft(maximumPacketSize, totalSize, 8);
      var neededSize := 4 + 4;
      if neededSize > sizeLeft {
        return NotEnoughBytesLeft;
      }
      report := report.(headerData := Big32(ssrc), isSR := false);
      added := with;
      return Done;
    }

    method AddReportBlock(b: ReportBlock) returns (status: BuildStatus)
      requires Valid()
      modifies this
      ensures Valid()
      ensures status ==
              if !old(building) then NotBuilding
              else if old(added).header.NoReport? then ReportNotStarted
              else if !Allowed(maximumPacketSize, old(added), AddBlock(b)) then NotEnoughBytesLeft
              else Done
      ensures added == if status.Done? then Apply(old(added), AddBlock(b)) else old(added)
      ensures building == old(building) && maximumPacketSize == old(maximumPacketSize) && external == old(external)
      ensures !status.Done? ==> unchanged(this)
    {
      hide Flatten, ReportPieces, SdesPieces, AppPieces, ByePieces, CollectsSources, BlockBytes;
      if !building {
        return NotBuilding;
      }
      if |report.headerData| == 0 {
        return ReportNotStarted;
      }
      ghost var with := added.(blocks := added.blocks + [b]);
      SizeParts(with);
      var sdesSize := SdesNeededBytes(sdesSources, added.sources);
      var totalOtherSize := byeSize + appSize + sdesSize;
      ReportNeededWithBlock(report, added, b);
      var reportSizeWithExtraBlock := report.NeededBytesWithExtraReportBlock();
      if totalOtherSize + reportSizeWithExtraBlock > maximumPacketSize {
        return NotEnoughBytesLeft;
      }
      report := report.(reportBlocks := report.reportBlocks + [BlockBytes(b)]);
      added := with;
      return Done;
    }

    /** The first source is let in whenever the packet is within its maximum: its own
        twelve bytes are not asked for. */
    method AddSDESSource(ssrc: u32) returns (status: BuildStatus)
      requires Valid()
      modifies this
      ensures Valid()
      ensures status ==
              if !old(building) then NotBuilding
              else if !Allowed(maximumPacketSize, old(added), AddSource(ssrc)) then NotEnoughBytesLeft
              else Done
      ensures added == if status.Done? then Apply(old(added), AddSource(ssrc)) else old(added)
      ensures building == old(building) && maximumPacketSize == old(maximumPacketSize) && external == old(external)
      ensures !status.Done? ==> unchanged(this)
    {
      hide Flatten, ReportPieces, SdesPieces, AppPieces, ByePieces, CollectsBlocks;
      ghost var with := added.(sources := added.sources + [Source(ssrc, [])]);
      SizeParts(added);
      SizeParts(with);
      FirstSourceSize(ssrc);
      assert added.sources == [] ==> with.sources == [Source(ssrc, [])];
      if !building {
        return NotBuilding;
      }
      ReportNeeded(report, added);
      var totalOtherBytes := byeSize + appSize + report.NeededBytes();
      var sdesSizeWithExtraSource := SdesNeededBytesWithExtraSource(sdesSources, added.sources, ssrc);
      if totalOtherBytes + sdesSizeWithExtraSource > maximumPacketSize {
        return NotEnoughBytesLeft;
      }
      PushSource(ssrc);
      added := with;
      return Done;
    }

    method PushSource(ssrc: u32)
      requires CollectsSources(sdesSources, added.sources)
      modifies this`sdesSources
      ensures CollectsSources(sdesSources, added.sources + [Source(ssrc, [])])
    {
      NoItems();
      sdesSources := sdesSources + [SDESSource(ssrc, [], 0)];
    }

    method PushItem(ghost v: Value, buf: seq<byte>)
      requires CollectsSources(sdesSources, added.sources)
      requires added.sources != [] && buf == ItemBytes(WireItem(v))
      modifies this`sdesSources
      ensures CollectsSources(sdesSources, WithItem(added.sources, v))
    {
      hide ItemBytes, ItemsBytes, WireItem;
      var last := |sdesSources| - 1;
      var s := sdesSources[last];
      assert CollectsSource(s, added.sources[last]);
      WireItemsSnoc(added.sources[last].values, v);
      sdesSources := sdesSources[last := SDESSource(s.ssrc, s.items + [buf], s.totalItemSize + |buf|)];
    }

    method AddSDESNormalItem(t: ItemType, text: seq<byte>) returns (status: BuildStatus)
      requires Valid() && |text| <= 255
      modifies this
      ensures Valid()
      ensures status ==
              if !old(building) then NotBuilding
              else if old(added).sources == [] then NoCurrentSource
              else if IdOfType(t).None? then InvalidItemType
              else if !Allowed(maximumPacketSize, old(added), AddItem(Normal(t, text))) then NotEnoughBytesLeft
              else Done
      ensures added == if status.Done? then Apply(old(added), AddItem(Normal(t, text))) else old(added)
      ensures building == old(building) && maximumPacketSize == old(maximumPacketSize) && external == old(external)
      ensures !status.Done? ==> unchanged(this)
    {
      hide CollectsReport, CollectsSource, Size, AppPieces, ByePieces, Flatten, WithItem, Allowed;
      if !building {
        return NotBuilding;
      }
      if |sdesSources| == 0 {
        return NoCurrentSource;
      }
      var itemId := IdOfType(t);
      if itemId.None? {
        return InvalidItemType;
      }
      var v: Value := Normal(t, text);
      status := AddEncodedItem([itemId.value, |text|] + text, v);
    }

    method AddSDESPrivateItem(prefix: seq<byte>, value: seq<byte>) returns (status: BuildStatus)
      requires Valid() && |prefix| <= 255 && |value| <= 255
      modifies this
      ensures Valid()
      ensures status ==
              if !old(building) then NotBuilding
              else if old(added).sources == [] then NoCurrentSource
              else if |prefix| + 1 + |value| > 255 then TotalItemLengthTooBig
              else if !Allowed(maximumPacketSize, old(added), AddItem(Private(prefix, value))) then NotEnoughBytesLeft
              else Done
      ensures added == if status.Done? then Apply(old(added), AddItem(Private(prefix, value))) else old(added)
      ensures building == old(building) && maximumPacketSize == old(maximumPacketSize) && external == old(external)
      ensures !status.Done? ==> unchanged(this)
    {
      hide CollectsReport, CollectsSource, Size, AppPieces, ByePieces, Flatten, WithItem, Allowed;
      if !building {
        return NotBuilding;
      }
      if |sdesSources| == 0 {
        return NoCurrentSource;
      }
      var itemLength := |prefix| + 1 + |value|;
      if itemLength > 255 {
        return TotalItemLengthTooBig;
      }
      var v: Value := Private(prefix, value);
      assert WireItem(v).data == [|prefix|] + prefix + value;
      status := AddEncodedItem([ID_PRIV, itemLength] + ([|prefix|] + prefix + value), v);
    }

    /** The size check both kinds of items share. */
    method AddEncodedItem(buf: seq<byte>, v: Value) returns (status: BuildStatus)
      requires Valid() && building && added.sources != [] && buf == ItemBytes(WireItem(v))
      modifies this`sdesSources, this`added
      ensures Valid()
      ensures status == if Allowed(maximumPacketSize, old(added), Call.AddItem(v)) then Done else NotEnoughBytesLeft
      ensures added == if status.Done? then Apply(old(added), Call.AddItem(v)) else old(added)
      ensures !status.Done? ==> unchanged(this)
    {
      hide Flatten, ReportPieces, SdesPieces, AppPieces, ByePieces, CollectsBlocks, CollectsSources,
        WithItem, WireItem;
      ghost var with := added.(sources := WithItem(added.sources, v));
      SizeParts(with);
      ReportNeeded(report, added);
      var totalOtherBytes := byeSize + appSize + report.NeededBytes();
      var sdesSizeWithExtraItem := SdesNeededBytesWithExtraItem(sdesSources, |buf| - 2, added.sources, v);
      if sdesSizeWithExtraItem + totalOtherBytes > maximumPacketSize {
        return NotEnoughBytesLeft;
      }
      PushItem(v, buf);
      added := with;
      return Done;
    }

    /** All parts as the predictors see them: the size of what has been added. */
    method TotalSize() returns (total: nat)
      requires Valid()
      ensures total == Size(added)
    {
      hide Flatten, Reports, SdesPieces, AppPieces, ByePieces, CollectsReport, CollectsSources, Size;
      SizeParts(added);
      ReportNeeded(report, added);
      var sdesSize := SdesNeededBytes(sdesSources, added.sources);
      total := appSize + byeSize + sdesSize + report.NeededBytes();
    }

    method AddBYEPacket(ssrcs: seq<u32>, reason: seq<byte>) returns (status: BuildStatus)
      requires Valid() && |ssrcs| <= 255 && |reason| <= 255
      modifies this
      ensures Valid()
      ensures status ==
              if !old(building) then NotBuilding
              else if |ssrcs| > 31 then TooManySsrcs
              else if !Allowed(maximumPacketSize, old(added), AddBye(RawBye(ssrcs, reason))) then NotEnoughBytesLeft
              else Done
      ensures added == if status.Done? then Apply(old(added), AddBye(RawBye(ssrcs, reason))) else old(added)
      ensures building == old(building) && maximumPacketSize == old(maximumPacketSize) && external == old(external)
      ensures !status.Done? ==> unchanged(this)
    {
      hide Flatten, Reports, SdesPieces, AppPieces, ByePieces, CollectsBlocks, HeaderData, CollectsSources, Size;
      if !building {
        return NotBuilding;
      }
      if |ssrcs| > 31 {
        return TooManySsrcs;
      }
      ghost var b: Bye := RawBye(ssrcs, reason);
      ByeSizes(added, b);
      var buf := EncodeBye(ssrcs, reason);
      var totalOtherBytes := TotalSize();
      hide Valid;
      if totalOtherBytes + |buf| > maximumPacketSize {
        return NotEnoughBytesLeft;
      }
      KeepBye(buf, b);
      return Done;
    }

    method KeepBye(buf: seq<byte>, ghost b: Bye)
      requires Valid() && building && buf == ByePiece(b) && Size(added) + |buf| <= maximumPacketSize
      modifies this`byePackets, this`byeSize, this`added
      ensures Valid() && added == old(added).(byes := old(added).byes + [b])
    {
      hide Flatten, Reports, SdesPieces, AppPieces, ByePieces, CollectsBlocks, HeaderData, CollectsSources, Size;
      ByeSizes(added, b);
      byePackets := byePackets + [buf];
      byeSize := byeSize + |buf|;
      added := added.(byes := added.byes + [b]);
    }

    method AddAPPPacket(subtype: byte, ssrc: u32, name: seq<byte>, data: seq<byte>) returns (status: BuildStatus)
      requires Valid() && |name| == 4
      modifies this
      ensures Valid()
      ensures status ==
              if !old(building) then NotBuilding
              else if subtype > 31 then IllegalSubtype
              else if |data| % 4 != 0 then IllegalAppDataLength
              else if |data| / 4 + 2 > 65535 then AppDataLengthTooBig
              else if !Allowed(maximumPacketSize, old(added), AddApp(RawApp(subtype, ssrc, name, data)))
                then NotEnoughBytesLeft
              else Done
      ensures added == if status.Done? then Apply(old(added), AddApp(RawApp(subtype, ssrc, name, data))) else old(added)
      ensures building == old(building) && maximumPacketSize == old(maximumPacketSize) && external == old(external)
      ensures !status.Done? ==> unchanged(this)
    {
      hide Flatten, Reports, SdesPieces, AppPieces, ByePieces, CollectsBlocks, HeaderData, CollectsSources, Size;
      if !building {
        return NotBuilding;
      }
      if subtype > 31 {
        return IllegalSubtype;
      }
      if |data| % 4 != 0 {
        return IllegalAppDataLength;
      }
      var appDataWords := |data| / 4;
      if appDataWords + 2 > 65535 {
        return AppDataLengthTooBig;
      }
      ghost var a: App := RawApp(subtype, ssrc, name, data);
      AppSizes(added, a);
      var packSize := 4 + 8 + |data|;
      var totalOtherBytes := TotalSize();
      hide Valid;
      if totalOtherBytes + packSize > maximumPacketSize {
        return NotEnoughBytesLeft;
      }
      var buf := Header(subtype, TYPE_APP, packSize) + Big32(ssrc) + name + data;
      KeepApp(buf, a);
      return Done;
    }

    method KeepApp(buf: seq<byte>, ghost a: App)
      requires Valid() && building && buf == AppPiece(a) && Size(added) + |buf| <= maximumPacketSize
      modifies this`appPackets, this`appSize, this`added
      ensures Valid() && added == old(added).(apps := old(added).apps + [a])
    {
      hide Flatten, Reports, SdesPieces, AppPieces, ByePieces, CollectsBlocks, HeaderData, CollectsSources, Size;
      AppSizes(added, a);
      appPackets := appPackets + [buf];
      appSize := appSize + |buf|;
      added := added.(apps := added.apps + [a]);
    }

    /** Writes exactly Size(added) bytes: the spelling of what was added.  An external
        buffer must be large enough for them. */
    method EndBuild() returns (status: BuildStatus)
      requires Valid()
      requires external && building && !added.header.NoReport? ==> Size(added) <= buffer.Length
      modifies this, buffer
      ensures Valid()
      ensures status == if !old(building) then NotBuilding
                        else if old(added).header.NoReport? then NoReportPresent
                        else Done
      ensures status.Done? ==>
                && compoundPacket != null && compoundLength == Size(old(added)) <= compoundPacket.Length
                && compoundPacket[..compoundLength] == Spelling(old(added))
                && AllHeaders(Pieces(old(added)))
                && packetList == PacketsOf(Pieces(old(added)))
                && (if external then compoundPacket == buffer else fresh(compoundPacket))
                && !building && added == Nothing
      ensures !status.Done? ==> unchanged(this)
    {
      hide Flatten, ReportPieces, SdesPieces, AppPieces, ByePieces, CollectsReport, CollectsSources,
        PacketsOf, Pieces, Size, Spelling, Reports, AllHeaders;
      Started(report, added);
      if !building {
        return NotBuilding;
      }
      if |report.headerData| == 0 {
        return NoReportPresent;
      }
      ReadyToBuild();
      var buf, len, list := Layout(added);
      hide Valid;
      Finish(buf, len, list);
      return Done;
    }

    lemma ReadyToBuild()
      requires Valid() && building
      ensures packetList == []
    {
    }

    /** The packet is kept, and what it was built from is dropped. */
    method Finish(buf: array<byte>, len: nat, list: seq<RTCPPacket>)
      requires Valid() && packetList == []
      modifies this`packetList, this`compoundPacket, this`compoundLength, this`building, this`report, this`sdesSources,
        this`byePackets, this`byeSize, this`appPackets, this`appSize, this`added
      ensures Valid() && !building && added == Nothing
      ensures compoundPacket == buf && compoundLength == len && packetList == list
    {
      hide Flatten, Reports, SdesPieces, AppPieces, ByePieces, CollectsReport, CollectsSources, Size;
      packetList := packetList + list;
      compoundPacket := buf;
      compoundLength := len;
      building := false;
      ClearBuildBuffers();
    }

    /** The buffer: as many bytes as the predictors say, or the one provided. */
    method Layout(ghost c: Compound) returns (buf: array<byte>, len: nat, list: seq<RTCPPacket>)
      requires Valid() && c == added && !c.header.NoReport? && building
      requires external ==> Size(c) <= buffer.Length
      modifies buffer
      ensures len == Size(c) <= buf.Length && buf[..len] == Spelling(c)
      ensures AllHeaders(Pieces(c)) && list == PacketsOf(Pieces(c))
      ensures if external then buf == buffer else fresh(buf)
    {
      hide Flatten, Reports, SdesPieces, AppPieces, ByePieces, CollectsReport, CollectsSources, PacketsOf,
        Pieces, AllHeaders;
      SizeParts(c);
      ReportNeeded(report, c);
      var sdesSize := SdesNeededBytes(sdesSources, c.sources);
      len := appSize + byeSize + report.NeededBytes() + sdesSize;
      if !external {
        buf := new byte[len];
      } else {
        buf := buffer;
      }
      list := WriteAll(buf, c);
    }

    lemma OwnBuffer()
      requires Valid() && !external
      ensures buffer == null
    {
    }

    method ClearBuildBuffers()
      modifies this`report, this`sdesSources, this`byePackets, this`byeSize, this`appPackets, this`appSize, this`added
      ensures report == Report(false, [], []) && sdesSources == []
      ensures byePackets == [] && byeSize == 0 && appPackets == [] && appSize == 0
      ensures added == Nothing && CollectsReport(report, added) && CollectsSources(sdesSources, added.sources)
      ensures byePackets == ByePieces(added.byes) && appPackets == AppPieces(added.apps) && Flatten<byte>([]) == []
    {
      report := Report(false, [], []);
      sdesSources := [];
      byePackets, appPackets := [], [];
      byeSize := 0;
      appSize := 0;
      added := Nothing;
    }

    /** The four parts, one behind the other. */
    method WriteAll(buf: array<byte>, ghost c: Compound) returns (list: seq<RTCPPacket>)
      requires Valid() && c == added && !c.header.NoReport? && Size(c) <= buf.Length
      modifies buf
      ensures buf[..Size(c)] == Spelling(c)
      ensures AllHeaders(Pieces(c)) && list == PacketsOf(Pieces(c))
    {
      hide CollectsBlocks, CollectsSources, ReportPieces, SdesPieces, AppPieces, ByePieces, Flatten, Written;
      SizeParts(c);
      ghost var rp, sp, ap, bp := ReportPieces(c.header, c.blocks), SdesPieces(c.sources), appPackets, byePackets;
      Headed(c);
      var at1, list1 := WriteReports(buf, report.isSR, report.headerData, report.reportBlocks, c.header, c.blocks);
      WrittenAll(buf[..], 0, at1, list1, rp);
      ghost var bytes1 := buf[..at1];
      var at2, list2 := WriteSdes(buf, at1, sdesSources, c.sources);
      WrittenAll(buf[..], at1, at2, list2, sp);
      ghost var bytes2 := buf[..at2];
      assert bytes2 == bytes1 + buf[at1..at2];
      var at3, list3 := WriteCollected(buf, at2, appPackets);
      WrittenAll(buf[..], at2, at3, list3, ap);
      ghost var bytes3 := buf[..at3];
      assert bytes3 == bytes2 + buf[at2..at3];
      var at4, list4 := WriteCollected(buf, at3, byePackets);
      WrittenAll(buf[..], at3, at4, list4, bp);
      assert buf[..at4] == bytes3 + buf[at3..at4];
      list := list1 + list2 + list3 + list4;
      PacketsOfConcat(rp, sp);
      PacketsOfConcat(rp + sp, ap);
      PacketsOfConcat(rp + sp + ap, bp);
    }
  }

  predicate AllHeaders(pieces: seq<seq<byte>>) {
    forall i :: 0 <= i < |pieces| ==> |pieces[i]| >= HEADER_SIZE
  }

  lemma NothingSize()
    ensures Size(Nothing) == 0
  {
  }

  lemma Started(r: Report, c: Compound)
    requires CollectsReport(r, c)
    ensures |r.headerData| == 0 <==> c.header.NoReport?
  {
  }

  lemma NoItems()
    ensures ItemsBytes(WireItems([])) == []
  {
    assert WireItems([]) == [];
  }

  lemma SizeLeft(maximum: nat, total: nat, needed: nat)
    requires total <= maximum + 12 && maximum < SIZE_T && needed <= 28
    ensures needed > (maximum - total) % SIZE_T <==> total <= maximum < total + needed
  {
    if total <= maximum {
      assert (maximum - total) % SIZE_T == maximum - total;
    } else {
      assert (maximum - total) % SIZE_T == maximum - total + SIZE_T;
    }
  }

  /** The BYE packet's own buffer: header, SSRCs in a loop, then the counted reason. */
  method EncodeBye(ssrcs: seq<u32>, reason: seq<byte>) returns (buf: seq<byte>)
    requires |ssrcs| <= 31 && |reason| <= 255
    ensures buf == ByePiece(RawBye(ssrcs, reason))
  {
    hide Header, Big32;
    var packSize := 4 + 4 * |ssrcs|;
    var zeroBytes := 0;
    if |reason| > 0 {
      packSize := packSize + 1;
      packSize := packSize + |reason|;
      var r := packSize % 4;
      if r != 0 {
        zeroBytes := 4 - r;
        packSize := packSize + zeroBytes;
      }
    }
    assert |reason| > 0 ==> zeroBytes == PadLength(1 + |reason|);
    var sources: seq<byte> := [];
    var i := 0;
    while i < |ssrcs|
      invariant 0 <= i <= |ssrcs|
      invariant sources + SsrcBytes(ssrcs[i..]) == SsrcBytes(ssrcs)
    {
      assert ssrcs[i..][1..] == ssrcs[i + 1..];
      ConcatAssociative(sources, Big32(ssrcs[i]), SsrcBytes(ssrcs[i + 1..]));
      sources := sources + Big32(ssrcs[i]);
      i := i + 1;
    }
    assert ssrcs[i..] == [];
    assert sources == SsrcBytes(ssrcs);
    var tail: seq<byte> := [];
    if |reason| != 0 {
      tail := [|reason|] + reason + Zeros(zeroBytes);
    }
    buf := Header(|ssrcs|, TYPE_BYE, packSize) + (sources + tail);
  }

  lemma WrittenAll(bytes: seq<byte>, at: nat, cur: nat, list: seq<RTCPPacket>, pieces: seq<seq<byte>>)
    requires Written(bytes, at, cur, list, pieces, [])
    ensures at <= cur <= |bytes| && bytes[at..cur] == Flatten(pieces) && AllHeaders(pieces)
    ensures cur - at == |Flatten(pieces)| && list == PacketsOf(pieces)
  {
  }

  lemma Headed(c: Compound)
    ensures AllHeaders(AppPieces(c.apps)) && AllHeaders(ByePieces(c.byes))
  {
  }

  lemma PacketsOfConcat(a: seq<seq<byte>>, b: seq<seq<byte>>)
    requires AllHeaders(a) && AllHeaders(b)
    ensures AllHeaders(a + b) && PacketsOf(a + b) == PacketsOf(a) + PacketsOf(b)
  {
    hide PacketOf;
  }
}
