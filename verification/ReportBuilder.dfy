/** The report builder: which report blocks and items go into the next compound
    packet, resuming where the previous packet was full. */
module ReportBuilder {
  import opened Bytes
  import opened Wrappers
  import opened SdesFormat
  import opened CompoundFormat
  import opened CompoundSizes
  import opened CompoundCalls
  import opened CompoundBuilder
  import opened CompoundParser
  import opened ReportPass
  import opened SdesCycle

  datatype ReportStatus =
    | Ready
    | NotInitialised
    | AlreadyInitialised
    | IllegalMaxPacketSize
    | IllegalTimestampUnit
    | ItemTooLong

  const MAX_ITEM := 255

  // ---- sizes of the packets it builds ----

  type Text = t: seq<byte> | |t| <= MAX_ITEM

  type Texts = t: seq<Text> | |t| == ITEM_COUNT
    witness var t: Text := []; [t, t, t, t, t, t]

  function ItemValue(texts: Texts, k: nat): Value
    requires k < ITEM_COUNT
  {
    Normal(ITEM_ORDER[k], texts[k])
  }

  function ItemValues(texts: Texts, ks: seq<nat>): (r: seq<Value>)
    requires forall i :: 0 <= i < |ks| ==> ks[i] < ITEM_COUNT
    ensures |r| == |ks|
    ensures forall i :: 0 <= i < |r| ==> r[i] == ItemValue(texts, ks[i])
  {
    seq(|ks|, i requires 0 <= i < |ks| => ItemValue(texts, ks[i]))
  }

  /** A packet with one source: its report, and its items with CNAME in front. */
  function Head(h: ReportHeader, ssrc: u32, cname: Text, values: seq<Value>): Compound {
    Compound(h, [], [Source(ssrc, [Normal(CNAME, cname)] + values)], [], [])
  }

  lemma ItemsLength(values: seq<Value>)
    ensures values == [] ==> ItemsBytes(WireItems(values)) == []
    ensures values != [] ==>
              var last := |values| - 1;
              |ItemsBytes(WireItems(values))| ==
              |ItemsBytes(WireItems(values[..last]))| + |ItemBytes(WireItem(values[last]))|
  {
    hide ItemBytes, WireItem;
    if values != [] {
      var last := |values| - 1;
      assert values == values[..last] + [values[last]];
      WireItemsSnoc(values[..last], values[last]);
    } else {
      assert WireItems(values) == [];
    }
  }

  lemma OneSourceSize(c: Compound)
    requires |c.sources| == 1 && c.apps == [] && !c.header.NoReport?
    ensures Size(c) == |Flatten(ReportPieces(c.header, c.blocks))| + 4 + |SourceBytes(c.sources[0])| +
                       |Flatten(ByePieces(c.byes))|
  {
    hide SourceBytes, SourcesBytes, SdesPieces, ReportPieces, ByePieces, PacketsNeeded, Flatten, Spelling;
    SizeParts(c);
    SdesPiecesSize(c.sources);
    OneSource(c.sources[0]);
    assert c.sources == [c.sources[0]];
    PacketsNeededSmall(1);
    FlattenNothing<byte>();
    assert AppPieces([]) == [];
  }

  lemma HeadSize(h: ReportHeader, ssrc: u32, cname: Text, values: seq<Value>, b: ReportBlock)
    requires !h.NoReport?
    ensures var c := Head(h, ssrc, cname, values);
            && Size(c) == 4 + |HeaderData(h)| + 4 + |SourceBytes(c.sources[0])|
            && Size(WithBlocks(c, [b])) == Size(c) + 24
  {
    hide Flatten, ReportPieces, ByePieces, PacketsNeeded, SourceBytes, Size;
    var c := Head(h, ssrc, cname, values);
    ReportPiecesSize(h, []);
    ReportPiecesSize(h, [b]);
    PacketsNeededSmall(1);
    FlattenNothing<byte>();
    assert ByePieces([]) == [];
    OneSourceSize(c);
    assert [] + [b] == [b];
    OneSourceSize(WithBlocks(c, [b]));
  }

  lemma ChunkOfOne(ssrc: u32, name: Value)
    requires |WireItem(name).data| <= MAX_ITEM
    ensures |SourceBytes(Source(ssrc, [name]))| <= 264
  {
    hide ItemsBytes;
    ItemsLength([]);
    assert [name][..0] == [];
    ItemsLength([name]);
    SourceBytesSize(Source(ssrc, [name]));
  }

  lemma ChunkOfTwo(ssrc: u32, name: Value, v: Value)
    requires |WireItem(name).data| <= MAX_ITEM && |WireItem(v).data| <= MAX_ITEM
    ensures |SourceBytes(Source(ssrc, [name, v]))| <= 520
  {
    hide ItemsBytes, WireItem;
    ItemsLength([]);
    assert [name][..0] == [] && [name, v][..1] == [name];
    ItemsLength([name]);
    ItemsLength([name, v]);
    SourceBytesSize(Source(ssrc, [name, v]));
  }

  /** Worst cases of what every packet must have room for: 552 bytes for a sender
      report, CNAME and one more item; 320 with one report block instead. */
  lemma SixHundredSuffices(h: ReportHeader, ssrc: u32, cname: Text, v: Value, b: ReportBlock)
    requires !h.NoReport? && |WireItem(v).data| <= MAX_ITEM
    ensures Size(Nothing.(header := h)) <= 28
    ensures Size(Head(h, ssrc, cname, [])) <= 296
    ensures Size(WithBlocks(Head(h, ssrc, cname, []), [b])) <= 320
    ensures Size(Head(h, ssrc, cname, [v])) <= 552
  {
    hide SourceBytes, Size;
    var name: Value := Normal(CNAME, cname);
    NothingSize();
    StartedSize(Nothing, Nothing.(header := h));
    assert [name] + [] == [name] && [name] + [v] == [name, v];
    HeadSize(h, ssrc, cname, [], b);
    HeadSize(h, ssrc, cname, [v], b);
    ChunkOfOne(ssrc, name);
    ChunkOfTwo(ssrc, name, v);
  }

  lemma SourceBytesSize(s: Source)
    ensures var n := |ItemsBytes(WireItems(s.values))|;
            |SourceBytes(s)| == 5 + n + PadLength(5 + n)
  {
    hide ItemsBytes;
  }

  /** 560 bytes for a sender report, CNAME and a BYE packet with a reason. */
  lemma ByeSuffices(h: ReportHeader, ssrc: u32, cname: Text, reason: Text)
    requires !h.NoReport?
    ensures Size(Head(h, ssrc, cname, []).(byes := [RawBye([ssrc], reason)])) <= 560
  {
    hide Size, Head, Flatten, ReportPieces, ByePieces, SourceBytes, ItemsBytes;
    var c := Head(h, ssrc, cname, []);
    var b: Bye := RawBye([ssrc], reason);
    SixHundredSuffices(h, ssrc, cname, Normal(CNAME, cname), ReportBlock(0, 0, 0, 0, 0, 0, 0));
    HeadParts(h, ssrc, cname);
    ByeSizes(c, b);
    assert [] + [b] == [b];
    ByePieceSize(ssrc, reason);
  }

  lemma HeadParts(h: ReportHeader, ssrc: u32, cname: Text)
    ensures var c := Head(h, ssrc, cname, []); c.byes == [] && c.header == h && c.blocks == [] && |c.sources| == 1
  {
  }

  lemma ByePieceSize(ssrc: u32, reason: Text)
    ensures |ByePiece(RawBye([ssrc], reason))| <= 264
  {
  }

  // ---- filling in items ----

  function AppendItems(c: Compound, values: seq<Value>): Compound
    requires c.sources != []
  {
    var n := |c.sources| - 1;
    c.(sources := c.sources[..n] + [c.sources[n].(values := c.sources[n].values + values)])
  }

  lemma AppendOne(c: Compound, values: seq<Value>, v: Value)
    requires c.sources != []
    ensures AppendItems(c, values).sources != []
    ensures Apply(AppendItems(c, values), Call.AddItem(v)) == AppendItems(c, values + [v])
  {
    var n := |c.sources| - 1;
    var d := AppendItems(c, values);
    assert d.sources[..n] == c.sources[..n];
    assert c.sources[n].values + values + [v] == c.sources[n].values + (values + [v]);
  }

  lemma AppendNone(c: Compound)
    requires c.sources != []
    ensures AppendItems(c, []) == c
  {
    var n := |c.sources| - 1;
    assert c.sources[..n] + [c.sources[n]] == c.sources;
    assert c.sources[n].values + [] == c.sources[n].values;
  }

  /** The items the packet gets from positions before `stop`. */
  function ValuesTo(texts: Texts, due: Flags, done: Flags, stop: nat): (r: seq<Value>)
    requires stop <= ITEM_COUNT
    ensures |r| == |SentTo(due, done, stop)|
  {
    ItemValues(texts, SentTo(due, done, stop))
  }

  lemma ValuesNext(texts: Texts, due: Flags, done: Flags, k: nat)
    requires k < ITEM_COUNT
    ensures ValuesTo(texts, due, done, 0) == []
    ensures ValuesTo(texts, due, done, k + 1) ==
            if due[k] && !done[k] then ValuesTo(texts, due, done, k) + [ItemValue(texts, k)]
            else ValuesTo(texts, due, done, k)
  {
  }

  /** Filling in items until `stop`: the end, or the first that does not fit. */
  ghost predicate IsFill(texts: Texts, due: Flags, done: Flags, maximum: nat, c: Compound, stop: nat, full: bool) {
    && c.sources != [] && stop <= ITEM_COUNT
    && (ValuesTo(texts, due, done, stop) != [] ==> Size(AppendItems(c, ValuesTo(texts, due, done, stop))) <= maximum)
    && if full then
         && stop < ITEM_COUNT && due[stop] && !done[stop]
         && Size(AppendItems(c, ValuesTo(texts, due, done, stop) + [ItemValue(texts, stop)])) > maximum
       else stop == ITEM_COUNT
  }

  // ---- the state that lasts from packet to packet ----

  datatype State = State(sources: seq<SourceState>, since: Since, processingSdes: bool,
                         sdesBuildCount: nat, due: Flags, done: Flags)

  /** In a cycle something is left to send; outside one all processed flags are clear. */
  predicate GoodState(s: State) {
    if s.processingSdes then !AllSent(s.due, s.done) else s.done == NO_FLAGS
  }

  function ClearFlags(ss: seq<SourceState>): (r: seq<SourceState>)
    ensures |r| == |ss|
    ensures forall i :: 0 <= i < |r| ==> r[i] == ss[i].(processed := false)
  {
    seq(|ss|, i requires 0 <= i < |ss| => ss[i].(processed := false))
  }

  /** Where the parts of one packet ended: the first pass over the sources, the items,
      and the pass that follows when all items are sent. */
  datatype Trace = Trace(first: Option<nat>, fill: Option<nat>, second: Option<nat>)

  /** A pass inside a packet: the table and the packet before and after it. */
  ghost predicate PassStep(ss: seq<SourceState>, since: Since, now: real, maximum: nat, c: Compound, maxCount: nat,
                           stop: nat, full: bool, ss': seq<SourceState>, c': Compound) {
    && IsPass(ss, since, now, maximum, c, maxCount, stop, full)
    && ss' == MarkTo(ss, since, stop)
    && c' == WithBlocks(c, BlocksTo(ss, since, now, stop))
  }

  /** Items filled in inside a packet. */
  ghost predicate FillStep(texts: Texts, due: Flags, done: Flags, maximum: nat, c: Compound,
                           stop: nat, done': Flags, c': Compound) {
    && IsFill(texts, due, done, maximum, c, stop, stop < ITEM_COUNT)
    && done' == DoneAfter(due, done, stop)
    && c' == AppendItems(c, ValuesTo(texts, due, done, stop))
  }

  /** A packet outside a cycle whose report blocks did not all fit: blocks only. */
  ghost predicate ReportsOnly(s: State, s': State, now: real, maximum: nat, head: Compound, c: Compound, t: Trace) {
    && !s.processingSdes && t.first.Some? && t.fill.None? && t.second.None?
    && PassStep(s.sources, s.since, now, maximum, head, |s.sources|, t.first.value, true, s'.sources, c)
    && BlocksTo(s.sources, s.since, now, t.first.value) != []
    && s' == s.(sources := s'.sources, since := After(now))
  }

  /** A packet that covers the last sources and starts a cycle with the items now due. */
  ghost predicate CycleStarts(s: State, s': State, texts: Texts, intervals: seq<int>, now: real, maximum: nat,
                              head: Compound, c1: Compound, c2: Compound, c: Compound, t: Trace) {
    && !s.processingSdes && t.first.Some? && t.fill.Some? && |intervals| == ITEM_COUNT
    && t.first.value <= |s.sources| && t.fill.value <= ITEM_COUNT
    && var marked := MarkTo(s.sources, s.since, t.first.value);
       var cleared := ClearFlags(marked);
       && PassStep(s.sources, s.since, now, maximum, head, |s.sources|, t.first.value, false, marked, c1)
       && s'.since == After(now) && s'.sdesBuildCount == s.sdesBuildCount + 1
       && s'.due == DueAt(intervals, s'.sdesBuildCount)
       && FillStep(texts, s'.due, NO_FLAGS, maximum, c1, t.fill.value, DoneAfter(s'.due, NO_FLAGS, t.fill.value), c2)
       && if t.fill.value < ITEM_COUNT then
            && s'.processingSdes && s'.done == DoneAfter(s'.due, NO_FLAGS, t.fill.value)
            && s'.sources == cleared && c == c2 && t.second.None?
          else
            && !s'.processingSdes && s'.done == NO_FLAGS
            && var skipped := SkippedTo(s.sources, s.since, t.first.value);
               if skipped == 0 then s'.sources == cleared && c == c2 && t.second.None?
               else t.second.Some? && exists full ::
                      PassStep(cleared, s.since, now, maximum, c2, skipped, t.second.value, full, s'.sources, c)
  }

  /** A packet inside a cycle: at least one more item, and report blocks behind the last. */
  ghost predicate CycleGoesOn(s: State, s': State, texts: Texts, now: real, maximum: nat,
                              head: Compound, c2: Compound, c: Compound, t: Trace) {
    && s.processingSdes && t.first.None? && t.fill.Some? && t.fill.value <= ITEM_COUNT
    && s'.since == After(now) && s'.sdesBuildCount == s.sdesBuildCount && s'.due == s.due
    && FillStep(texts, s.due, s.done, maximum, head, t.fill.value, DoneAfter(s.due, s.done, t.fill.value), c2)
    && SentTo(s.due, s.done, t.fill.value) != []
    && if t.fill.value < ITEM_COUNT then
         && s'.processingSdes && s'.done == DoneAfter(s.due, s.done, t.fill.value)
         && s'.sources == s.sources && c == c2 && t.second.None?
       else
         && !s'.processingSdes && s'.done == NO_FLAGS && t.second.Some?
         && exists full, marked ::
              && PassStep(s.sources, s.since, now, maximum, c2, |s.sources|, t.second.value, full, marked, c)
              && s'.sources == if NonePending(marked, s.since) then ClearFlags(marked) else marked
  }

  /** What one call of BuildNextPacket does to the lasting state and puts in the packet. */
  ghost predicate NextStep(s: State, s': State, texts: Texts, intervals: seq<int>, now: real, maximum: nat,
                           head: Compound, c: Compound, t: Trace) {
    || ReportsOnly(s, s', now, maximum, head, c, t)
    || (exists c1, c2 :: CycleStarts(s, s', texts, intervals, now, maximum, head, c1, c2, c, t))
    || (exists c2 :: CycleGoesOn(s, s', texts, now, maximum, head, c2, c, t))
  }

  lemma BlocksNext(ss: seq<SourceState>, since: Since, now: real, i: nat)
    requires i < |ss|
    ensures BlocksTo(ss, since, now, i + 1) ==
            if Pending(ss[i], since) then BlocksTo(ss, since, now, i) + [BlockFor(ss[i], now)]
            else BlocksTo(ss, since, now, i)
    ensures SkippedTo(ss, since, i + 1) ==
            SkippedTo(ss, since, i) + if Eligible(ss[i], since) && ss[i].processed then 1 else 0
    ensures MarkTo(ss, since, i + 1) ==
            if Pending(ss[i], since) then MarkTo(ss, since, i)[i := Reported(ss[i])] else MarkTo(ss, since, i)
  {
    hide BlockFor, Eligible;
  }

  lemma NothingMarked(ss: seq<SourceState>, since: Since, now: real)
    ensures MarkTo(ss, since, 0) == ss && BlocksTo(ss, since, now, 0) == [] && SkippedTo(ss, since, 0) == 0
  {
  }

  /** The report of a sender, or of somebody who only receives. */
  function HeaderFor(ssrc: u32, sender: Option<SenderInfo>): ReportHeader {
    match sender
    case None => ReceiverReport(ssrc)
    case Some(info) => SenderReport(ssrc, info)
  }

  class RTCPPacketBuilder {
    var init: bool
    var maxPacketSize: nat
    var timestampUnit: real
    var cname: Text
    var texts: Texts
    var intervals: seq<int>
    var sources: seq<SourceState>
    var since: Since
    var processingSdes: bool
    var sdesBuildCount: nat
    var due: Flags
    var done: Flags

    ghost function Now(): State
      reads this
    {
      State(sources, since, processingSdes, sdesBuildCount, due, done)
    }

    ghost predicate Valid()
      reads this
    {
      && |intervals| == ITEM_COUNT
      && (!init ==> done == NO_FLAGS)
      && (init ==> RTP_MINPACKETSIZE <= maxPacketSize < SIZE_T && GoodState(Now()))
    }

    /** One pass over the source table. */
    method FillInReportBlocks(pack: RTCPCompoundPacketBuilder, now: real, maxCount: nat)
      returns (full: bool, added: nat, skipped: nat, atEndOfList: bool, ghost stop: nat)
      requires sources != [] && maxCount > 0
      requires pack.Valid() && pack.building && !pack.added.header.NoReport?
      modifies this`sources, pack
      ensures pack.Valid() && pack.building && pack.maximumPacketSize == old(pack.maximumPacketSize)
      ensures pack.external == old(pack.external)
      ensures IsPass(old(sources), since, now, pack.maximumPacketSize, old(pack.added), maxCount, stop, full)
      ensures sources == MarkTo(old(sources), since, stop)
      ensures pack.added == WithBlocks(old(pack.added), BlocksTo(old(sources), since, now, stop))
      ensures added == |BlocksTo(old(sources), since, now, stop)|
      ensures skipped == SkippedTo(old(sources), since, stop)
      ensures atEndOfList <==> NonePending(sources, since)
    {
      hide BlockFor, Size, MarkTo, BlocksTo, SkippedTo, Eligible, RTCPCompoundPacketBuilder.Valid;
      ghost var ss := sources;
      ghost var c := pack.added;
      added, skipped, full, atEndOfList := 0, 0, false, false;
      var cur, finished := 0, false;
      NothingMarked(ss, since, now);
      assert c.blocks + [] == c.blocks;
      while !finished
        invariant cur <= |ss| && |sources| == |ss|
        invariant pack.Valid() && pack.building && pack.maximumPacketSize == old(pack.maximumPacketSize)
        invariant pack.external == old(pack.external)
        invariant !finished ==> cur < |ss| && !full && !atEndOfList && added < maxCount
        invariant sources == MarkTo(ss, since, cur)
        invariant pack.added == WithBlocks(c, BlocksTo(ss, since, now, cur))
        invariant added == |BlocksTo(ss, since, now, cur)| <= maxCount
        invariant added > 0 ==> Size(pack.added) <= pack.maximumPacketSize
        invariant skipped == SkippedTo(ss, since, cur)
        invariant finished ==> IsPass(ss, since, now, pack.maximumPacketSize, c, maxCount, cur, full)
        invariant finished ==> (atEndOfList <==> cur == |ss|)
        decreases !finished, |ss| - cur
      {
        var s := sources[cur];
        BlocksNext(ss, since, now, cur);
        var shouldProcess := Eligible(s, since);
        if shouldProcess && !s.processed {
          var b := BlockFor(s, now);
          assert c.blocks + BlocksTo(ss, since, now, cur) + [b] == c.blocks + (BlocksTo(ss, since, now, cur) + [b]);
          var status := pack.AddReportBlock(b);
          if !status.Done? {
            finished := true;
            full := true;
          } else {
            added := added + 1;
            sources := sources[cur := Reported(s)];
            cur := cur + 1;
            if added >= maxCount {
              finished := true;
              if cur == |sources| {
                atEndOfList := true;
              }
            }
          }
        } else {
          if shouldProcess {
            skipped := skipped + 1;
          }
          cur := cur + 1;
        }
        if !finished {
          if cur == |sources| {
            atEndOfList := true;
            finished := true;
          }
        }
      }
      stop := cur;
      if !atEndOfList {
        atEndOfList := NoneLeft(cur);
      }
    }

    /** The search for a source that could still be reported, from the cursor on. */
    method NoneLeft(from: nat) returns (none: bool)
      requires from < |sources| && forall i :: 0 <= i < from ==> !Pending(sources[i], since)
      ensures none <==> NonePending(sources, since)
    {
      var cur := from;
      var shouldProcess := false;
      none := false;
      while !none && !shouldProcess
        invariant cur <= |sources| && (none <==> cur == |sources|)
        invariant forall i :: 0 <= i < cur ==> !Pending(sources[i], since)
        invariant shouldProcess ==> cur < |sources| && Pending(sources[cur], since)
        decreases |sources| - cur, !shouldProcess
      {
        shouldProcess := Eligible(sources[cur], since);
        if shouldProcess {
          if sources[cur].processed {
            shouldProcess := false;
          }
        }
        if !shouldProcess {
          cur := cur + 1;
          if cur == |sources| {
            none := true;
          }
        }
      }
    }

    /** One of the six blocks of FillInSDES: item k, when it is due and not sent yet. */
    method TryItem(pack: RTCPCompoundPacketBuilder, k: nat, wasAdded: nat, ghost was: Flags, ghost c: Compound)
      returns (full: bool, added: nat)
      requires k < ITEM_COUNT && c.sources != []
      requires pack.Valid() && pack.building && pack.added == AppendItems(c, ValuesTo(texts, due, was, k))
      requires done == DoneAfter(due, was, k) && wasAdded == |SentTo(due, was, k)|
      requires wasAdded > 0 ==> Size(pack.added) <= pack.maximumPacketSize
      modifies this`done, pack
      ensures pack.Valid() && pack.building && pack.maximumPacketSize == old(pack.maximumPacketSize)
      ensures pack.external == old(pack.external)
      ensures full ==> IsFill(texts, due, was, pack.maximumPacketSize, c, k, true)
      ensures var stop := if full then k else k + 1;
              && pack.added == AppendItems(c, ValuesTo(texts, due, was, stop))
              && done == DoneAfter(due, was, stop) && added == |SentTo(due, was, stop)|
              && (added > 0 ==> Size(pack.added) <= pack.maximumPacketSize)
    {
      hide Size, RTCPCompoundPacketBuilder.Valid, AppendItems, ValuesTo, Apply, SentTo, DoneAfter, IdOfType;
      ValuesNext(texts, due, was, k);
      SentNext(due, was, k);
      full, added := false, wasAdded;
      if due[k] {
        if !done[k] {
          AppendOne(c, ValuesTo(texts, due, was, k), ItemValue(texts, k));
          TypesHaveIds(k);
          var status := pack.AddSDESNormalItem(ITEM_ORDER[k], texts[k]);
          if status.NotEnoughBytesLeft? {
            return true, added;
          }
          added := added + 1;
          done := done[k := true];
        }
      }
    }

    /** NAME, EMAIL, LOC, PHONE, TOOL, NOTE, until one does not fit. */
    method FillInSDES(pack: RTCPCompoundPacketBuilder)
      returns (full: bool, processedAll: bool, added: nat, ghost stop: nat)
      requires pack.Valid() && pack.building && pack.added.sources != []
      modifies this`done, pack
      ensures pack.Valid() && pack.building && pack.maximumPacketSize == old(pack.maximumPacketSize)
      ensures pack.external == old(pack.external)
      ensures IsFill(texts, due, old(done), pack.maximumPacketSize, old(pack.added), stop, full)
      ensures pack.added == AppendItems(old(pack.added), ValuesTo(texts, due, old(done), stop))
      ensures done == DoneAfter(due, old(done), stop)
      ensures added == |SentTo(due, old(done), stop)|
      ensures processedAll <==> !full
    {
      hide Size, RTCPCompoundPacketBuilder.Valid, AppendItems, ValuesTo, SentTo, DoneAfter;
      ghost var was, c := done, pack.added;
      AppendNone(c);
      FillBegin(texts, due, was);
      processedAll := false;
      full, added := TryItem(pack, 0, 0, was, c);
      if full {
        return true, false, added, 0;
      }
      full, added := TryItem(pack, 1, added, was, c);
      if full {
        return true, false, added, 1;
      }
      full, added := TryItem(pack, 2, added, was, c);
      if full {
        return true, false, added, 2;
      }
      full, added := TryItem(pack, 3, added, was, c);
      if full {
        return true, false, added, 3;
      }
      full, added := TryItem(pack, 4, added, was, c);
      if full {
        return true, false, added, 4;
      }
      full, added := TryItem(pack, 5, added, was, c);
      if full {
        return true, false, added, 5;
      }
      return false, true, added, ITEM_COUNT;
    }

    constructor ()
      ensures Valid() && !init
    {
      init := false;
      maxPacketSize := 0;
      timestampUnit := 0.0;
      var none: Text := [];
      cname := none;
      texts := [none, none, none, none, none, none];
      intervals := [-1, -1, -1, -1, -1, -1];
      sources := [];
      since := FirstPacket;
      processingSdes := false;
      sdesBuildCount := 0;
      due, done := NO_FLAGS, NO_FLAGS;
    }

    method Init(maxPackSize: nat, tsUnit: real, name: seq<byte>) returns (status: ReportStatus)
      requires Valid() && maxPackSize < SIZE_T
      modifies this
      ensures Valid()
      ensures status == if old(init) then AlreadyInitialised
                        else if maxPackSize < RTP_MINPACKETSIZE then IllegalMaxPacketSize
                        else if tsUnit < 0.0 then IllegalTimestampUnit
                        else Ready
      ensures status.Ready? ==>
                && init && maxPacketSize == maxPackSize && timestampUnit == tsUnit
                && cname == (if |name| > MAX_ITEM then name[..MAX_ITEM] else name)
                && Now() == State(ClearFlags(old(sources)), FirstPacket, false, 0, due, NO_FLAGS)
                && (forall k :: 0 <= k < ITEM_COUNT ==> intervals[k] == -1)
      ensures !status.Ready? ==> unchanged(this)
    {
      if init {
        return AlreadyInitialised;
      }
      if maxPackSize < RTP_MINPACKETSIZE {
        return IllegalMaxPacketSize;
      }
      if tsUnit < 0.0 {
        return IllegalTimestampUnit;
      }
      maxPacketSize := maxPackSize;
      timestampUnit := tsUnit;
      if |name| > MAX_ITEM {
        cname := name[..MAX_ITEM];
      } else {
        cname := name;
      }
      sources := ClearFlags(sources);
      intervals := [-1, -1, -1, -1, -1, -1];
      sdesBuildCount := 0;
      since := FirstPacket;
      processingSdes := false;
      init := true;
      return Ready;
    }

    /** SetLocalName to SetLocalNote. */
    method SetLocalItem(k: nat, text: seq<byte>) returns (status: ReportStatus)
      requires Valid() && k < ITEM_COUNT
      modifies this`texts
      ensures Valid()
      ensures status == if !init then NotInitialised else if |text| > MAX_ITEM then ItemTooLong else Ready
      ensures texts == if status.Ready? then old(texts)[k := text] else old(texts)
    {
      if !init {
        return NotInitialised;
      }
      if |text| > MAX_ITEM {
        return ItemTooLong;
      }
      texts := texts[k := text];
      return Ready;
    }

    /** SetNameInterval to SetNoteInterval. */
    method SetInterval(k: nat, count: int)
      requires Valid() && k < ITEM_COUNT
      modifies this`intervals
      ensures Valid()
      ensures intervals == if init then old(intervals)[k := count] else old(intervals)
    {
      if !init {
        return;
      }
      intervals := intervals[k := count];
    }

    /** What every packet starts with: the report, our SSRC and the CNAME.  None of the
        three calls can fail with 600 bytes to fill. */
    method StartPacket(ssrc: u32, sender: Option<SenderInfo>) returns (pack: RTCPCompoundPacketBuilder)
      requires Valid() && init
      ensures fresh(pack) && pack.Valid() && pack.building && !pack.external && pack.maximumPacketSize == maxPacketSize
      ensures pack.added == Head(HeaderFor(ssrc, sender), ssrc, cname, [])
      ensures Size(pack.added) <= 296
    {
      hide Size, RTCPCompoundPacketBuilder.Valid;
      ghost var h := HeaderFor(ssrc, sender);
      HeadSteps(h, ssrc, cname, maxPacketSize);
      pack := new RTCPCompoundPacketBuilder();
      var status := pack.InitBuild(maxPacketSize);
      if sender.Some? {
        status := pack.StartSenderReport(ssrc, sender.value);
      } else {
        status := pack.StartReceiverReport(ssrc);
      }
      assert status.Done?;
      status := pack.AddSDESSource(ssrc);
      assert status.Done?;
      status := pack.AddSDESNormalItem(CNAME, cname);
      assert status.Done?;
    }

    method BuildBYEPacket(ssrc: u32, sender: Option<SenderInfo>, reason: seq<byte>)
      returns (status: ReportStatus, pack: RTCPCompoundPacketBuilder?)
      requires Valid()
      ensures status == if init then Ready else NotInitialised
      ensures status.Ready? ==>
                && pack != null && fresh(pack) && pack.compoundPacket != null
                && pack.compoundLength <= 560 && pack.compoundLength <= pack.compoundPacket.Length
                && var text: Text := if |reason| > MAX_ITEM then reason[..MAX_ITEM] else reason;
                   pack.compoundPacket[..pack.compoundLength] ==
                   Spelling(Head(HeaderFor(ssrc, sender), ssrc, cname, []).(byes := [RawBye([ssrc], text)]))
    {
      hide Size, Head, RTCPCompoundPacketBuilder.Valid;
      if !init {
        return NotInitialised, null;
      }
      var text: Text := if |reason| > MAX_ITEM then reason[..MAX_ITEM] else reason;
      pack := StartPacket(ssrc, sender);
      ByeSuffices(HeaderFor(ssrc, sender), ssrc, cname, text);
      HeadParts(HeaderFor(ssrc, sender), ssrc, cname);
      assert [] + [RawBye([ssrc], text)] == [RawBye([ssrc], text)];
      var built := pack.AddBYEPacket([ssrc], text);
      assert built.Done?;
      pack.OwnBuffer();
      built := pack.EndBuild();
      assert built.Done?;
      return Ready, pack;
    }

    /** Starts the cycle after all sources have been covered: the items now due, and
        behind the last of them blocks for sources skipped before. */
    method StartCycle(pack: RTCPCompoundPacketBuilder, now: real, skipped: nat,
                      ghost was: State, ghost head: Compound, ghost stop: nat)
      returns (ghost t: Trace)
      requires Valid() && init && !processingSdes && sources != []
      requires pack.Valid() && pack.building && pack.maximumPacketSize == maxPacketSize && !pack.external
      requires !pack.added.header.NoReport? && pack.added.sources != [] && Size(pack.added) <= maxPacketSize
      requires was.since == since && was.sdesBuildCount == sdesBuildCount && !was.processingSdes
      requires PassStep(was.sources, since, now, maxPacketSize, head, |was.sources|, stop, false, sources, pack.added)
      requires skipped == SkippedTo(was.sources, since, stop)
      modifies this`sources, this`processingSdes, this`sdesBuildCount, this`due, this`done, pack
      ensures Valid() && pack.Valid() && pack.building && !pack.external && Size(pack.added) <= maxPacketSize
      ensures !pack.added.header.NoReport?
      ensures exists c1, c2 ::
                CycleStarts(was, Now().(since := After(now)), texts, intervals, now, maxPacketSize, head, c1, c2,
                            pack.added, t)
    {
      hide Size, RTCPCompoundPacketBuilder.Valid, PassStep, FillStep, IsPass, IsFill, SkippedTo, AppendItems,
        ValuesTo, WithBlocks,
        DueAt, AllSent, DoneAfter, MarkTo, BlocksTo, SentTo, NonePending;
      ghost var c1 := pack.added;
      PassStops(was.sources, since, now, maxPacketSize, head, |was.sources|, stop, false, sources, c1);
      processingSdes := true;
      sdesBuildCount := sdesBuildCount + 1;
      sources := ClearFlags(sources);
      ghost var cleared := sources;
      due := DueAt(intervals, sdesBuildCount);
      assert done == NO_FLAGS;
      var full, processedAll, itemCount, fill := FillInSDES(pack);
      ghost var c2 := pack.added;
      FillResult(texts, due, NO_FLAGS, maxPacketSize, c1, fill, full, done, c2);
      t := Trace(Some(stop), Some(fill), None);
      if processedAll {
        processingSdes := false;
        done := NO_FLAGS;
        if !full && skipped > 0 {
          var again, added, left, atEnd, stop2 := FillInReportBlocks(pack, now, skipped);
          PassResult(cleared, since, now, maxPacketSize, c2, skipped, stop2, again, sources, pack.added);
          t := Trace(Some(stop), Some(fill), Some(stop2));
        }
      }
      assert CycleStarts(was, Now().(since := After(now)), texts, intervals, now, maxPacketSize, head, c1, c2,
                         pack.added, t);
    }

    /** A packet that starts outside a cycle: report blocks first. */
    method ReportsFirst(pack: RTCPCompoundPacketBuilder, now: real, ssrc: u32, sender: Option<SenderInfo>)
      returns (ghost t: Trace)
      requires Valid() && init && !processingSdes && sources != []
      requires pack.Valid() && pack.building && pack.maximumPacketSize == maxPacketSize && !pack.external
      requires pack.added == Head(HeaderFor(ssrc, sender), ssrc, cname, [])
      requires Size(pack.added) <= maxPacketSize
      modifies this`sources, this`processingSdes, this`sdesBuildCount, this`due, this`done, pack
      ensures Valid() && pack.Valid() && pack.building && !pack.external && Size(pack.added) <= maxPacketSize
      ensures !pack.added.header.NoReport?
      ensures NextStep(old(Now()), Now().(since := After(now)), texts, intervals, now, maxPacketSize,
                       old(pack.added), pack.added, t)
    {
      hide Size, Head, RTCPCompoundPacketBuilder.Valid, IsPass, SkippedTo, WithBlocks, CycleStarts, PassStep,
        BlocksTo;
      ghost var was, head := Now(), pack.added;
      HeadParts(HeaderFor(ssrc, sender), ssrc, cname);
      var full, added, skipped, atEnd, stop := FillInReportBlocks(pack, now, |sources|);
      FirstBlockFits(HeaderFor(ssrc, sender), ssrc, cname, was.sources, since, now, maxPacketSize, |was.sources|,
                     stop, full);
      PassResult(was.sources, since, now, maxPacketSize, head, |was.sources|, stop, full, sources, pack.added);
      assert !(full && added == 0);
      if full {
        t := Trace(Some(stop), None, None);
        assert ReportsOnly(was, Now().(since := After(now)), now, maxPacketSize, head, pack.added, t);
        return;
      }
      t := StartCycle(pack, now, skipped, was, head, stop);
    }

    /** A packet inside a cycle: items first, at least one. */
    method ResumeItems(pack: RTCPCompoundPacketBuilder, now: real, ssrc: u32, sender: Option<SenderInfo>)
      returns (ghost t: Trace)
      requires Valid() && init && processingSdes && sources != []
      requires pack.Valid() && pack.building && pack.maximumPacketSize == maxPacketSize && !pack.external
      requires pack.added == Head(HeaderFor(ssrc, sender), ssrc, cname, [])
      requires Size(pack.added) <= maxPacketSize
      modifies this`sources, this`processingSdes, this`done, pack
      ensures Valid() && pack.Valid() && pack.building && !pack.external && Size(pack.added) <= maxPacketSize
      ensures !pack.added.header.NoReport?
      ensures NextStep(old(Now()), Now().(since := After(now)), texts, intervals, now, maxPacketSize,
                       old(pack.added), pack.added, t)
    {
      hide Size, Head, RTCPCompoundPacketBuilder.Valid, IsPass, IsFill, WithBlocks, CycleStarts, PassStep,
        FillStep, AppendItems, ValuesTo, SentTo;
      ghost var was, head := Now(), pack.added;
      HeadParts(HeaderFor(ssrc, sender), ssrc, cname);
      var full, processedAll, itemCount, fill := FillInSDES(pack);
      ghost var c2 := pack.added;
      FillResult(texts, due, was.done, maxPacketSize, head, fill, full, done, c2);
      FirstItemFits(HeaderFor(ssrc, sender), ssrc, cname, texts, due, was.done, maxPacketSize, fill, full);
      assert itemCount != 0;
      t := Trace(None, Some(fill), None);
      if processedAll {
        processingSdes := false;
        done := NO_FLAGS;
        if !full {
          var again, added, skipped, atEnd, stop := FillInReportBlocks(pack, now, |sources|);
          PassResult(was.sources, since, now, maxPacketSize, c2, |was.sources|, stop, again, sources, pack.added);
          t := Trace(None, Some(fill), Some(stop));
          if atEnd {
            sources := ClearFlags(sources);
          }
        }
      }
      assert CycleGoesOn(was, Now().(since := After(now)), texts, now, maxPacketSize, head, c2, pack.added, t);
    }

    /** The next compound packet; it never fails and never exceeds its maximum.  The
        trace tells where its parts ended, NextStep what they are. */
    method BuildNextPacket(ssrc: u32, sender: Option<SenderInfo>, now: real)
      returns (status: ReportStatus, pack: RTCPCompoundPacketBuilder?, ghost c: Compound, ghost t: Trace)
      requires Valid() && (init ==> sources != [])
      modifies this
      ensures Valid() && unchanged(`init, `maxPacketSize, `cname, `texts, `intervals)
      ensures status == if init then Ready else NotInitialised
      ensures !status.Ready? ==> unchanged(this)
      ensures status.Ready? ==>
                && NextStep(old(Now()), Now(), texts, intervals, now, maxPacketSize,
                            Head(HeaderFor(ssrc, sender), ssrc, cname, []), c, t)
                && pack != null && fresh(pack) && pack.compoundPacket != null
                && pack.compoundLength == Size(c) <= maxPacketSize && pack.compoundLength <= pack.compoundPacket.Length
                && pack.compoundPacket[..pack.compoundLength] == Spelling(c)
    {
      hide Size, Spelling, Head, AllSent, Pieces, PacketsOf, AllHeaders, RTCPCompoundPacketBuilder.Valid, NextStep;
      c, t := Nothing, Trace(None, None, None);
      if !init {
        return NotInitialised, null, c, t;
      }
      ghost var head := Head(HeaderFor(ssrc, sender), ssrc, cname, []);
      ghost var was := Now();
      pack := StartPacket(ssrc, sender);
      HeadParts(HeaderFor(ssrc, sender), ssrc, cname);
      if !processingSdes {
        t := ReportsFirst(pack, now, ssrc, sender);
      } else {
        t := ResumeItems(pack, now, ssrc, sender);
      }
      c := pack.added;
      since := After(now);
      pack.OwnBuffer();
      var built := pack.EndBuild();
      assert built.Done?;
      return Ready, pack, c, t;
    }
  }

  /** A pass as FillInReportBlocks describes it is a PassStep. */
  lemma PassResult(ss: seq<SourceState>, since: Since, now: real, maximum: nat, c: Compound, maxCount: nat,
                   stop: nat, full: bool, ss': seq<SourceState>, c': Compound)
    requires IsPass(ss, since, now, maximum, c, maxCount, stop, full)
    requires ss' == MarkTo(ss, since, stop) && c' == WithBlocks(c, BlocksTo(ss, since, now, stop))
    ensures PassStep(ss, since, now, maximum, c, maxCount, stop, full, ss', c')
    ensures stop <= |ss| && |ss'| == |ss| && c'.header == c.header && c'.sources == c.sources
    ensures Size(c) <= maximum ==> Size(c') <= maximum
  {
    assert c.blocks + [] == c.blocks;
  }

  lemma PassStops(ss: seq<SourceState>, since: Since, now: real, maximum: nat, c: Compound, maxCount: nat,
                  stop: nat, full: bool, ss': seq<SourceState>, c': Compound)
    requires PassStep(ss, since, now, maximum, c, maxCount, stop, full, ss', c')
    ensures stop <= |ss| && ss' == MarkTo(ss, since, stop)
  {
  }

  /** Items as FillInSDES describes them are a FillStep. */
  lemma FillResult(texts: Texts, due: Flags, done: Flags, maximum: nat, c: Compound,
                   stop: nat, full: bool, done': Flags, c': Compound)
    requires IsFill(texts, due, done, maximum, c, stop, full)
    requires done' == DoneAfter(due, done, stop) && c' == AppendItems(c, ValuesTo(texts, due, done, stop))
    ensures FillStep(texts, due, done, maximum, c, stop, done', c')
    ensures stop <= ITEM_COUNT && (full <==> stop < ITEM_COUNT) && (full ==> !AllSent(due, done'))
    ensures c'.header == c.header && c'.sources != []
    ensures Size(c) <= maximum ==> Size(c') <= maximum
  {
    AppendNone(c);
  }

  /** The first report block always fits. */
  lemma FirstBlockFits(h: ReportHeader, ssrc: u32, cname: Text, ss: seq<SourceState>, since: Since, now: real,
                       maximum: nat, maxCount: nat, stop: nat, full: bool)
    requires !h.NoReport? && maximum >= RTP_MINPACKETSIZE
    requires IsPass(ss, since, now, maximum, Head(h, ssrc, cname, []), maxCount, stop, full)
    ensures full ==> BlocksTo(ss, since, now, stop) != []
  {
    hide Size, BlockFor;
    if full {
      var b := BlockFor(ss[stop], now);
      SixHundredSuffices(h, ssrc, cname, Normal(CNAME, cname), b);
      assert [] + [b] == [b];
    }
  }

  /** And so does the first item of a resumed cycle. */
  lemma FirstItemFits(h: ReportHeader, ssrc: u32, cname: Text, texts: Texts, due: Flags, done: Flags,
                      maximum: nat, stop: nat, full: bool)
    requires !h.NoReport? && maximum >= RTP_MINPACKETSIZE && !AllSent(due, done)
    requires IsFill(texts, due, done, maximum, Head(h, ssrc, cname, []), stop, full)
    ensures SentTo(due, done, stop) != []
  {
    hide Size;
    if full {
      var v := ItemValue(texts, stop);
      SixHundredSuffices(h, ssrc, cname, v, ReportBlock(0, 0, 0, 0, 0, 0, 0));
      AppendToHead(h, ssrc, cname, v);
      assert [] + [v] == [v];
    } else {
      SentToMeans(due, done, stop);
      var k :| 0 <= k < ITEM_COUNT && due[k] && !done[k];
      assert k in SentTo(due, done, stop);
    }
  }

  lemma AppendToHead(h: ReportHeader, ssrc: u32, cname: Text, v: Value)
    ensures AppendItems(Head(h, ssrc, cname, []), [v]) == Head(h, ssrc, cname, [v])
  {
    var name: Value := Normal(CNAME, cname);
    assert [name] + [] + [v] == [name] + [v];
  }

  lemma HeadSteps(h: ReportHeader, ssrc: u32, cname: Text, maximum: nat)
    requires !h.NoReport? && maximum >= RTP_MINPACKETSIZE
    ensures var c1 := Apply(Nothing, StartReport(h));
            var c2 := Apply(c1, AddSource(ssrc));
            var v: Value := Normal(CNAME, cname);
            && Allowed(maximum, Nothing, StartReport(h))
            && Allowed(maximum, c1, AddSource(ssrc))
            && Allowed(maximum, c2, Call.AddItem(v))
            && Apply(c2, Call.AddItem(v)) == Head(h, ssrc, cname, [])
            && Size(Head(h, ssrc, cname, [])) <= 296
  {
    hide Size, Head, Apply;
    var v: Value := Normal(CNAME, cname);
    SixHundredSuffices(h, ssrc, cname, v, ReportBlock(0, 0, 0, 0, 0, 0, 0));
    HeadChain(h, ssrc, cname);
  }

  lemma HeadChain(h: ReportHeader, ssrc: u32, cname: Text)
    ensures var c1 := Apply(Nothing, StartReport(h));
            var c2 := Apply(c1, AddSource(ssrc));
            var v: Value := Normal(CNAME, cname);
            && c1 == Nothing.(header := h) && c1.sources == [] && c2.sources != []
            && Apply(c2, Call.AddItem(v)) == Head(h, ssrc, cname, [])
  {
    var v: Value := Normal(CNAME, cname);
    var c2 := Apply(Apply(Nothing, StartReport(h)), AddSource(ssrc));
    assert c2.sources == [Source(ssrc, [])];
    assert [v] + [] == [] + [v];
  }

  lemma SentNext(due: Flags, was: Flags, k: nat)
    requires k < ITEM_COUNT
    ensures DoneAfter(due, was, k)[k] == was[k]
    ensures DoneAfter(due, was, k + 1) == if due[k] then DoneAfter(due, was, k)[k := true] else DoneAfter(due, was, k)
    ensures was[k] && due[k] ==> DoneAfter(due, was, k + 1) == DoneAfter(due, was, k)
    ensures |SentTo(due, was, k + 1)| == |SentTo(due, was, k)| + if due[k] && !was[k] then 1 else 0
  {
  }

  lemma TypesHaveIds(k: nat)
    requires k < ITEM_COUNT
    ensures IdOfType(ITEM_ORDER[k]).Some?
  {
  }

  lemma FillBegin(texts: Texts, due: Flags, done: Flags)
    ensures ValuesTo(texts, due, done, 0) == [] && SentTo(due, done, 0) == [] && DoneAfter(due, done, 0) == done
  {
  }
}
