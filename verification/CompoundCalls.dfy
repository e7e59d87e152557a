/** The calls that add to a compound packet, which of them are let in, and what
    whole runs of calls keep. */
module CompoundCalls {
  import opened Bytes
  import opened SdesFormat
  import opened CompoundFormat
  import opened CompoundSizes

  datatype Call =
    | StartReport(header: ReportHeader)
    | AddBlock(block: ReportBlock)
    | AddSource(ssrc: u32)
    | AddItem(value: Value)
    | AddApp(app: App)
    | AddBye(bye: Bye)

  /** The sources with one more item in the last one. */
  function WithItem(sources: seq<Source>, v: Value): (r: seq<Source>)
    requires sources != []
    ensures |r| == |sources|
  {
    var last := sources[|sources| - 1];
    sources[..|sources| - 1] + [last.(values := last.values + [v])]
  }

  /** What the packet says after a call that is let in. */
  function Apply(c: Compound, call: Call): Compound {
    match call
    case StartReport(h) => c.(header := h)
    case AddBlock(b) => c.(blocks := c.blocks + [b])
    case AddSource(ssrc) => c.(sources := c.sources + [Source(ssrc, [])])
    case AddItem(v) => if c.sources == [] then c else c.(sources := WithItem(c.sources, v))
    case AddApp(a) => c.(apps := c.apps + [a])
    case AddBye(b) => c.(byes := c.byes + [b])
  }

  /** Which calls are let in.  Two of them do not ask whether the result fits: the
      first source, and a report in a packet that is over its maximum already. */
  predicate Allowed(maximum: nat, c: Compound, call: Call) {
    match call
    case StartReport(h) =>
      !h.NoReport? && c.header.NoReport? && (Size(Apply(c, call)) <= maximum || Size(c) > maximum)
    case AddBlock(_) => !c.header.NoReport? && Size(Apply(c, call)) <= maximum
    case AddSource(_) => (if c.sources == [] then Size(c) else Size(Apply(c, call))) <= maximum
    case AddItem(_) => c.sources != [] && Size(Apply(c, call)) <= maximum
    case AddApp(_) => Size(Apply(c, call)) <= maximum
    case AddBye(_) => Size(Apply(c, call)) <= maximum
  }

  function Perform(maximum: nat, c: Compound, call: Call): Compound {
    if Allowed(maximum, c, call) then Apply(c, call) else c
  }

  function Run(maximum: nat, calls: seq<Call>): Compound {
    if calls == [] then Nothing
    else Perform(maximum, Run(maximum, calls[..|calls| - 1]), calls[|calls| - 1])
  }

  /** The one call that can take a packet over its maximum. */
  predicate Overshoots(maximum: nat, c: Compound, call: Call) {
    call.AddSource? && c.sources == [] && Size(c) <= maximum < Size(c) + 12
  }

  // ---- sizes ----

  lemma WireItemsSnoc(values: seq<Value>, v: Value)
    ensures WireItems(values + [v]) == WireItems(values) + [WireItem(v)]
    ensures ItemsBytes(WireItems(values + [v])) == ItemsBytes(WireItems(values)) + ItemBytes(WireItem(v))
  {
    hide ItemsBytes, ItemBytes;
    assert WireItems(values + [v]) == WireItems(values) + [WireItem(v)];
    var items := WireItems(values + [v]);
    ItemsBytesNext(items, |values|);
    assert items[..|values| + 1] == items && items[..|values|] == WireItems(values);
  }

  lemma EmptySourceSize(ssrc: u32)
    ensures |SourceBytes(Source(ssrc, []))| == 8
  {
    assert WireItems([]) == [];
  }

  /** Starting a report adds the bytes of an empty one. */
  lemma StartedSize(c: Compound, with: Compound)
    requires c.header.NoReport? && c.blocks == [] && !with.header.NoReport?
    requires with == c.(header := with.header)
    ensures Size(with) == Size(c) + 4 + |HeaderData(with.header)|
  {
    hide SdesPieces, AppPieces, ByePieces, Flatten;
    SizeParts(c);
    SizeParts(with);
    ReportPiecesSize(with.header, []);
    FlattenNothing<byte>();
  }

  lemma FirstSourceSize(ssrc: u32)
    ensures |Flatten(SdesPieces([]))| == 0
    ensures |Flatten(SdesPieces([Source(ssrc, [])]))| == 12
  {
    hide SourceBytes, SourcesBytes, PacketsNeeded;
    var s := Source(ssrc, []);
    SdesPiecesSize([s]);
    OneSource(s);
    EmptySourceSize(ssrc);
    PacketsNeededSmall(1);
  }

  lemma ByeSizes(c: Compound, b: Bye)
    ensures ByePieces(c.byes + [b]) == ByePieces(c.byes) + [ByePiece(b)]
    ensures Size(c.(byes := c.byes + [b])) == Size(c) + |ByePiece(b)|
    ensures |Flatten(ByePieces(c.byes + [b]))| == |Flatten(ByePieces(c.byes))| + |ByePiece(b)|
    ensures Size(c) == |Flatten(Reports(c))| + |Flatten(SdesPieces(c.sources))| +
                       |Flatten(AppPieces(c.apps))| + |Flatten(ByePieces(c.byes))|
  {
    hide ByePiece, Flatten, SdesPieces, ReportPieces;
    SizeParts(c);
    SizeParts(c.(byes := c.byes + [b]));
    assert ByePieces(c.byes + [b]) == ByePieces(c.byes) + [ByePiece(b)];
    FlattenSnoc(ByePieces(c.byes), ByePiece(b));
  }

  lemma AppSizes(c: Compound, a: App)
    ensures AppPieces(c.apps + [a]) == AppPieces(c.apps) + [AppPiece(a)]
    ensures Size(c.(apps := c.apps + [a])) == Size(c) + |AppPiece(a)|
    ensures |Flatten(AppPieces(c.apps + [a]))| == |Flatten(AppPieces(c.apps))| + |AppPiece(a)|
    ensures Size(c) == |Flatten(Reports(c))| + |Flatten(SdesPieces(c.sources))| +
                       |Flatten(AppPieces(c.apps))| + |Flatten(ByePieces(c.byes))|
  {
    hide AppPiece, Flatten, SdesPieces, ReportPieces;
    SizeParts(c);
    SizeParts(c.(apps := c.apps + [a]));
    assert AppPieces(c.apps + [a]) == AppPieces(c.apps) + [AppPiece(a)];
    FlattenSnoc(AppPieces(c.apps), AppPiece(a));
  }

  /** How far over its maximum a packet can be: by the first chunk of its SDES part,
      and by a report started after that. */
  function MostOver(c: Compound): nat {
    if c.header.NoReport? then 12 else 40
  }

  /** What the calls rely on: no blocks without a report. */
  predicate Consistent(c: Compound) {
    c.header.NoReport? ==> c.blocks == []
  }

  predicate Sensible(c: Compound, call: Call) {
    match call
    case StartReport(h) => !h.NoReport? && c.header.NoReport?
    case AddBlock(_) => !c.header.NoReport?
    case AddItem(_) => c.sources != []
    case _ => true
  }

  lemma BlockSize(c: Compound, b: ReportBlock)
    requires !c.header.NoReport?
    ensures Size(c.(blocks := c.blocks + [b])) >= Size(c) + 24
  {
    hide SdesPieces, AppPieces, ByePieces, Flatten, ReportPieces, Spelling;
    SizeParts(c);
    SizeParts(c.(blocks := c.blocks + [b]));
    ReportPiecesSize(c.header, c.blocks);
    ReportPiecesSize(c.header, c.blocks + [b]);
  }

  lemma SourceSize(c: Compound, ssrc: u32)
    ensures var d := c.(sources := c.sources + [Source(ssrc, [])]);
            Size(d) >= Size(c) + 8 && (c.sources == [] ==> Size(d) == Size(c) + 12)
  {
    hide AppPieces, ByePieces, Flatten, ReportPieces, SdesPieces, SourceBytes, SourcesBytes, Spelling;
    var s := Source(ssrc, []);
    SizeParts(c);
    SizeParts(c.(sources := c.sources + [s]));
    SdesPiecesSize(c.sources);
    SdesPiecesSize(c.sources + [s]);
    SourcesBytesConcat(c.sources, [s]);
    OneSource(s);
    EmptySourceSize(ssrc);
    NoSources();
  }

  lemma ItemSize(c: Compound, v: Value)
    requires c.sources != []
    ensures Size(c.(sources := WithItem(c.sources, v))) >= Size(c)
  {
    hide AppPieces, ByePieces, Flatten, ReportPieces, SdesPieces, SourceBytes, SourcesBytes, Spelling, PacketsNeeded;
    var n := |c.sources| - 1;
    var front, last, more := c.sources[..n], c.sources[n], WithItem(c.sources, v);
    SizeParts(c);
    SizeParts(c.(sources := more));
    SdesPiecesSize(c.sources);
    SdesPiecesSize(more);
    assert c.sources == front + [last] && more == front + [more[n]];
    SourcesBytesConcat(front, [last]);
    SourcesBytesConcat(front, [more[n]]);
    OneSource(last);
    OneSource(more[n]);
    LongerSource(last, v);
  }

  lemma LongerSource(s: Source, v: Value)
    ensures |SourceBytes(s.(values := s.values + [v]))| >= |SourceBytes(s)|
  {
    hide ItemsBytes;
    WireItemsSnoc(s.values, v);
    var n, m := |ItemsBytes(WireItems(s.values))|, |ItemBytes(WireItem(v))|;
    assert 5 + n + PadLength(5 + n) <= 5 + n + m + PadLength(5 + n + m);
  }

  /** No sensible call makes the packet shorter, and the two that do not ask for
      room add at most 28 and exactly 12 bytes. */
  lemma ApplySize(c: Compound, call: Call)
    requires Consistent(c) && Sensible(c, call)
    ensures Size(Apply(c, call)) >= Size(c)
    ensures call.StartReport? ==> Size(Apply(c, call)) <= Size(c) + 28
    ensures call.AddSource? && c.sources == [] ==> Size(Apply(c, call)) == Size(c) + 12
  {
    hide Size, WithItem;
    match call
    case StartReport(h) => StartedSize(c, Apply(c, call));
    case AddBlock(b) => BlockSize(c, b);
    case AddSource(ssrc) => SourceSize(c, ssrc);
    case AddItem(v) => ItemSize(c, v);
    case AddApp(a) => AppSizes(c, a);
    case AddBye(b) => ByeSizes(c, b);
  }

  /** One call keeps the packet within its maximum iff it was within it and the call
      is not a first source with less than twelve bytes left. */
  lemma PerformBound(maximum: nat, c: Compound, call: Call)
    requires Consistent(c)
    ensures var d := Perform(maximum, c, call);
            && Consistent(d)
            && (Size(d) <= maximum <==> Size(c) <= maximum && !Overshoots(maximum, c, call))
            && (Size(c) <= maximum + MostOver(c) ==> Size(d) <= maximum + MostOver(d))
  {
    hide Size, Apply;
    if Sensible(c, call) {
      ApplySize(c, call);
    }
    KeepsConsistent(c, call);
  }

  lemma KeepsConsistent(c: Compound, call: Call)
    requires Consistent(c)
    ensures Sensible(c, call) ==> Consistent(Apply(c, call))
    ensures call.StartReport? && !call.header.NoReport? ==> !Apply(c, call).header.NoReport?
    ensures !call.StartReport? ==> Apply(c, call).header == c.header
  {
  }

  /** No call of the run is a first source with less than twelve bytes left. */
  predicate NeverOvershoots(maximum: nat, calls: seq<Call>) {
    calls == [] ||
    (var front := calls[..|calls| - 1];
     NeverOvershoots(maximum, front) && !Overshoots(maximum, Run(maximum, front), calls[|calls| - 1]))
  }

  /** Over any run of calls the packet stays within its maximum iff no first source
      came with less than twelve bytes left, and is never more than 40 bytes over. */
  lemma {:induction false} RunBound(maximum: nat, calls: seq<Call>)
    ensures var c := Run(maximum, calls);
            && Consistent(c)
            && Size(c) <= maximum + MostOver(c)
            && (Size(c) <= maximum <==> NeverOvershoots(maximum, calls))
    decreases |calls|
  {
    hide Size, Perform, Overshoots;
    if calls == [] {
      SizeOfNothing();
    } else {
      var n := |calls| - 1;
      RunBound(maximum, calls[..n]);
      PerformBound(maximum, Run(maximum, calls[..n]), calls[n]);
    }
  }

  /** A call of the run is a first source with less than twelve bytes left. */
  predicate SomeOvershoots(maximum: nat, calls: seq<Call>) {
    exists k :: 0 <= k < |calls| && Overshoots(maximum, Run(maximum, calls[..k]), calls[k])
  }

  lemma {:induction false} NeverIsNotSome(maximum: nat, calls: seq<Call>)
    ensures NeverOvershoots(maximum, calls) <==> !SomeOvershoots(maximum, calls)
    decreases |calls|
  {
    hide Overshoots, Run;
    if calls != [] {
      var n := |calls| - 1;
      NeverIsNotSome(maximum, calls[..n]);
      forall k | 0 <= k < n
        ensures calls[..n][..k] == calls[..k] && calls[..n][k] == calls[k]
      {
      }
      if SomeOvershoots(maximum, calls[..n]) {
        var k :| 0 <= k < n && Overshoots(maximum, Run(maximum, calls[..n][..k]), calls[..n][k]);
        assert Overshoots(maximum, Run(maximum, calls[..k]), calls[k]);
      }
      if SomeOvershoots(maximum, calls) {
        var k :| 0 <= k <= n && Overshoots(maximum, Run(maximum, calls[..k]), calls[k]);
        assert k < n ==> Overshoots(maximum, Run(maximum, calls[..n][..k]), calls[..n][k]);
      }
    }
  }

  /** The packet outgrows a buffer of this length, by at most 40 bytes, iff a first source
      came with less than twelve bytes of it left. */
  lemma OutgrowsBuffer(length: nat, calls: seq<Call>)
    ensures Size(Run(length, calls)) > length <==> SomeOvershoots(length, calls)
    ensures Size(Run(length, calls)) <= length + 40
  {
    hide Size, Run, SomeOvershoots, NeverOvershoots;
    RunBound(length, calls);
    NeverIsNotSome(length, calls);
  }

  lemma SizeOfNothing()
    ensures Size(Nothing) == 0
  {
  }

  /** When every source comes after the report was started, as in the report builder,
      the packet is at most twelve bytes over. */
  lemma {:induction false} RunBoundReportFirst(maximum: nat, calls: seq<Call>)
    requires forall k :: 0 <= k < |calls| && calls[k].AddSource? ==> !Run(maximum, calls[..k]).header.NoReport?
    ensures var c := Run(maximum, calls);
            Size(c) <= maximum + 12 && (c.header.NoReport? ==> Size(c) <= maximum && c.sources == [])
    decreases |calls|
  {
    hide Size;
    if calls == [] {
      SizeOfNothing();
    } else {
      var n := |calls| - 1;
      var front := calls[..n];
      forall k | 0 <= k < n && front[k].AddSource?
        ensures !Run(maximum, front[..k]).header.NoReport?
      {
        assert front[..k] == calls[..k];
      }
      RunBoundReportFirst(maximum, front);
      RunBound(maximum, front);
      var c := Run(maximum, front);
      if Sensible(c, calls[n]) {
        ApplySize(c, calls[n]);
      }
    }
  }

  /** The bound of 40 bytes is met: an APP packet that fills the packet, then a source,
      then a sender report. */
  lemma FortyBytesOver(info: SenderInfo, text: seq<byte>)
    requires |text| == 588
    ensures var calls := [AddApp(RawApp(0, 1, [0, 0, 0, 0], text)), AddSource(1), StartReport(SenderReport(1, info))];
            Size(Run(600, calls)) == 640
  {
    hide Size;
    var a: App := RawApp(0, 1, [0, 0, 0, 0], text);
    var calls := [AddApp(a), AddSource(1), StartReport(SenderReport(1, info))];
    assert calls[..2][..1] == [AddApp(a)] && calls[..2][1] == AddSource(1) && [AddApp(a)][..0] == [];
    SizeOfNothing();
    AppSizes(Nothing, a);
    var one := [AddApp(a)];
    assert one[..|one| - 1] == [] && one[|one| - 1] == AddApp(a);
    assert Run(600, []) == Nothing;
    assert Size(Apply(Nothing, AddApp(a))) == 600;
    var c1 := Run(600, one);
    assert c1 == Apply(Nothing, AddApp(a)) && Size(c1) == 600;
    SourceSize(c1, 1);
    var c2 := Run(600, calls[..2]);
    assert c2 == Apply(c1, AddSource(1)) && Size(c2) == 612;
    StartedSize(c2, c2.(header := SenderReport(1, info)));
  }
}
