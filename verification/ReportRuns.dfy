/** Whole runs of the report builder: what a cycle of items over several packets
    sends, however sources, items and intervals change between the packets. */
module ReportRuns {
  import opened Bytes
  import opened Wrappers
  import opened SdesFormat
  import opened CompoundFormat
  import opened CompoundSizes
  import opened CompoundBuilder
  import opened ReportPass
  import opened SdesCycle
  import opened ReportBuilder
  import BlockContents

  /** One packet of a run, with everything it depended on, and the sources that have
      joined the table since the packet before it. */
  datatype Packet = Packet(before: State, after: State, texts: Texts, intervals: seq<int>,
                           now: real, maximum: nat, head: Compound, c: Compound, t: Trace, joined: set<u32>)

  ghost predicate IsBuilt(p: Packet) {
    GoodState(p.before) && NextStep(p.before, p.after, p.texts, p.intervals, p.now, p.maximum, p.head, p.c, p.t)
  }

  /** Between packets the source table, the items and the intervals may change; what
      belongs to the cycle does not. */
  predicate SameCycle(a: State, b: State) {
    a.processingSdes == b.processingSdes && a.due == b.due && a.done == b.done && a.sdesBuildCount == b.sdesBuildCount
  }

  ghost predicate IsRun(packets: seq<Packet>) {
    && (forall i :: 0 <= i < |packets| ==> IsBuilt(packets[i]))
    && (forall i :: 0 < i < |packets| ==> SameCycle(packets[i - 1].after, packets[i].before))
  }

  /** A run that starts a cycle in its first packet and stays in it until the last. */
  ghost predicate InCycle(packets: seq<Packet>) {
    && IsRun(packets) && packets != []
    && !packets[0].before.processingSdes && packets[0].t.fill.Some?
    && (forall i :: 0 < i < |packets| ==> packets[i].before.processingSdes)
  }

  /** The items of one packet, as positions in ITEM_ORDER. */
  function Items(p: Packet): seq<nat> {
    if p.t.fill.None? || p.t.fill.value > ITEM_COUNT then []
    else SentTo(p.after.due, if p.before.processingSdes then p.before.done else NO_FLAGS, p.t.fill.value)
  }

  function AllItems(packets: seq<Packet>): seq<nat> {
    if packets == [] then [] else Items(packets[0]) + AllItems(packets[1..])
  }

  function Stops(packets: seq<Packet>): (r: seq<nat>)
    requires forall i :: 0 <= i < |packets| ==> packets[i].t.fill.Some?
    ensures |r| == |packets| && forall i :: 0 <= i < |r| ==> r[i] == packets[i].t.fill.value
  {
    seq(|packets|, i requires 0 <= i < |packets| => packets[i].t.fill.value)
  }

  /** The packet that starts a cycle. */
  lemma FirstPacketOfCycle(p: Packet)
    requires IsBuilt(p) && !p.before.processingSdes && p.t.fill.Some?
    ensures p.t.fill.value <= ITEM_COUNT
    ensures |p.intervals| == ITEM_COUNT && p.after.due == DueAt(p.intervals, p.after.sdesBuildCount)
    ensures p.after.sdesBuildCount == p.before.sdesBuildCount + 1
    ensures p.after.processingSdes <==> p.t.fill.value < ITEM_COUNT
    ensures p.after.processingSdes ==> p.after.done == DoneAfter(p.after.due, NO_FLAGS, p.t.fill.value)
  {
  }

  /** A packet inside a cycle. */
  lemma NextPacketOfCycle(p: Packet)
    requires IsBuilt(p) && p.before.processingSdes
    ensures p.t.fill.Some? && p.t.fill.value <= ITEM_COUNT
    ensures p.after.due == p.before.due && Items(p) != []
    ensures p.after.processingSdes <==> p.t.fill.value < ITEM_COUNT
    ensures p.after.processingSdes ==> p.after.done == DoneAfter(p.before.due, p.before.done, p.t.fill.value)
  {
  }

  /** What a packet does to the cycle it starts or goes on with. */
  predicate CyclePacket(p: Packet) {
    && p.t.fill.Some? && p.t.fill.value <= ITEM_COUNT
    && (p.after.processingSdes <==> p.t.fill.value < ITEM_COUNT)
    && (p.before.processingSdes ==> p.after.due == p.before.due && Items(p) != [])
    && var done := if p.before.processingSdes then p.before.done else NO_FLAGS;
       p.after.processingSdes ==> p.after.done == DoneAfter(p.after.due, done, p.t.fill.value)
  }

  predicate Cycle(packets: seq<Packet>) {
    && Fills(packets) && packets != [] && !packets[0].before.processingSdes
    && (forall i :: 0 <= i < |packets| ==> CyclePacket(packets[i]))
    && (forall i :: 0 < i < |packets| ==>
          packets[i].before.processingSdes && SameCycle(packets[i - 1].after, packets[i].before))
  }

  lemma CycleFacts(packets: seq<Packet>)
    requires InCycle(packets)
    ensures Cycle(packets)
  {
    hide IsBuilt, DoneAfter, SentTo;
    forall j | 0 <= j < |packets|
      ensures CyclePacket(packets[j])
    {
      if j == 0 {
        FirstPacketOfCycle(packets[0]);
      } else {
        NextPacketOfCycle(packets[j]);
      }
    }
  }

  predicate Fills(packets: seq<Packet>) {
    forall j :: 0 <= j < |packets| ==> packets[j].t.fill.Some? && packets[j].t.fill.value <= ITEM_COUNT
  }

  /** The state a cycle has reached, from the packets it has taken. */
  lemma {:induction false} CycleState(packets: seq<Packet>, i: nat)
    requires Cycle(packets) && i < |packets|
    ensures var due, p := packets[0].after.due, packets[i];
            && p.after.due == due
            && (p.after.processingSdes <==> p.t.fill.value < ITEM_COUNT)
            && (p.after.processingSdes ==> p.after.done == DoneRun(due, NO_FLAGS, Stops(packets[..i + 1])))
            && (i > 0 ==> p.before.done == DoneRun(due, NO_FLAGS, Stops(packets[..i])))
  {
    hide DoneAfter, SentTo, DoneRun, Stops, SentRun, Items;
    var due := packets[0].after.due;
    OneMorePacket(packets, i, due);
    assert CyclePacket(packets[i]);
    if i == 0 {
      NoPacket(packets, due);
    } else {
      CycleState(packets, i - 1);
      assert SameCycle(packets[i - 1].after, packets[i].before);
    }
  }

  lemma NoPacket(packets: seq<Packet>, due: Flags)
    ensures Stops(packets[..0]) == [] && DoneRun(due, NO_FLAGS, Stops(packets[..0])) == NO_FLAGS
  {
  }

  lemma OneMorePacket(packets: seq<Packet>, i: nat, due: Flags)
    requires Fills(packets) && i < |packets|
    ensures var stop, stops := packets[i].t.fill.value, Stops(packets[..i]);
            && Stops(packets[..i + 1]) == stops + [stop]
            && DoneRun(due, NO_FLAGS, stops + [stop]) == DoneAfter(due, DoneRun(due, NO_FLAGS, stops), stop)
            && SentRun(due, NO_FLAGS, stops + [stop])
            == SentRun(due, NO_FLAGS, stops) + SentTo(due, DoneRun(due, NO_FLAGS, stops), stop)
  {
    hide DoneAfter, SentTo, DoneRun, SentRun;
    assert Stops(packets[..i + 1]) == Stops(packets[..i]) + [packets[i].t.fill.value];
    RunSnoc(due, NO_FLAGS, Stops(packets[..i]), packets[i].t.fill.value);
  }

  lemma {:induction false} RunSnoc(due: Flags, done: Flags, stops: seq<nat>, s: nat)
    requires (forall i :: 0 <= i < |stops| ==> stops[i] <= ITEM_COUNT) && s <= ITEM_COUNT
    ensures DoneRun(due, done, stops + [s]) == DoneAfter(due, DoneRun(due, done, stops), s)
    ensures SentRun(due, done, stops + [s]) == SentRun(due, done, stops) + SentTo(due, DoneRun(due, done, stops), s)
    decreases |stops|
  {
    hide DoneAfter, SentTo;
    if stops == [] {
      assert [] + [s] == [s] && [s][1..] == [];
    } else {
      assert (stops + [s])[1..] == stops[1..] + [s];
      RunSnoc(due, DoneAfter(due, done, stops[0]), stops[1..], s);
    }
  }

  lemma {:induction false} AllItemsSnoc(packets: seq<Packet>, p: Packet)
    ensures AllItems(packets + [p]) == AllItems(packets) + Items(p)
  {
    hide Items;
    if packets == [] {
      assert [] + [p] == [p] && [p][1..] == [];
    } else {
      AllItemsSnoc(packets[1..], p);
      assert (packets + [p])[1..] == packets[1..] + [p];
    }
  }

  lemma {:induction false} ItemsSoFar(packets: seq<Packet>, n: nat)
    requires Cycle(packets) && 0 < n <= |packets|
    ensures AllItems(packets[..n]) == SentRun(packets[0].after.due, NO_FLAGS, Stops(packets[..n]))
  {
    hide SentTo, DoneAfter, DoneRun, Stops, CyclePacket;
    var due := packets[0].after.due;
    CycleState(packets, n - 1);
    var p := packets[n - 1];
    assert packets[..n] == packets[..n - 1] + [p];
    AllItemsSnoc(packets[..n - 1], p);
    OneMorePacket(packets, n - 1, due);
    NoPacket(packets, due);
    if n > 1 {
      ItemsSoFar(packets, n - 1);
    } else {
      assert packets[..0] == [];
    }
  }

  /** What the packets of a cycle have sent so far. */
  lemma CycleItems(packets: seq<Packet>, n: nat)
    requires InCycle(packets) && Fills(packets) && 0 < n <= |packets|
    ensures AllItems(packets[..n]) == SentRun(packets[0].after.due, NO_FLAGS, Stops(packets[..n]))
  {
    hide IsRun, SentTo, DoneAfter, SentRun, AllItems, Stops, Cycle, Items;
    CycleFacts(packets);
    ItemsSoFar(packets, n);
  }

  lemma FinishedIsAllSent(packets: seq<Packet>)
    requires Cycle(packets) && !packets[|packets| - 1].after.processingSdes
    ensures AllSent(packets[0].after.due, DoneRun(packets[0].after.due, NO_FLAGS, Stops(packets)))
  {
    hide SentTo, SameCycle, CyclePacket;
    var n, due := |packets|, packets[0].after.due;
    CycleState(packets, n - 1);
    OneMorePacket(packets, n - 1, due);
    assert packets[..n] == packets;
    hide DoneRun, SentRun, Stops;
  }

  /** A finished cycle has sent every item due in it exactly once, in the order NAME,
      EMAIL, LOC, PHONE, TOOL, NOTE, whatever changed between its packets; and after
      the packet that started it, it took at most six more. */
  lemma FinishedCycle(packets: seq<Packet>)
    requires InCycle(packets) && !packets[|packets| - 1].after.processingSdes
    ensures AllItems(packets) == SentTo(packets[0].after.due, NO_FLAGS, ITEM_COUNT)
    ensures |packets| <= 1 + ITEM_COUNT
  {
    hide IsRun, SentTo, DoneRun, SentRun, AllItems, AllSent, CyclePacket;
    CycleFacts(packets);
    FinishedIsAllSent(packets);
    ItemsSoFar(packets, |packets|);
    assert packets[..|packets|] == packets;
    CycleSendsEachOnce(packets[0].after.due, NO_FLAGS, Stops(packets));
    AtMostSix(packets);
  }

  lemma LaterSends(packets: seq<Packet>, i: nat)
    requires Cycle(packets) && i + 1 < |packets|
    ensures SentTo(packets[0].after.due, DoneRun(packets[0].after.due, NO_FLAGS, Stops(packets[..i + 1])),
                   packets[i + 1].t.fill.value) != []
  {
    hide SentTo, DoneRun, Stops;
    CycleState(packets, i + 1);
    CycleState(packets, i);
    assert CyclePacket(packets[i + 1]) && SameCycle(packets[i].after, packets[i + 1].before);
  }

  lemma AtMostSix(packets: seq<Packet>)
    requires InCycle(packets)
    ensures |packets| <= 1 + ITEM_COUNT
  {
    hide IsRun, SentTo, DoneAfter, CyclePacket;
    CycleFacts(packets);
    var stops, due := Stops(packets), packets[0].after.due;
    var first, later := DoneAfter(due, NO_FLAGS, stops[0]), stops[1..];
    forall i | 0 <= i < |later|
      ensures SentTo(due, DoneRun(due, first, later[..i]), later[i]) != []
    {
      LaterSends(packets, i);
      assert Stops(packets[..i + 1]) == [stops[0]] + later[..i];
      assert ([stops[0]] + later[..i])[1..] == later[..i];
    }
    CycleLength(due, first, later);
  }

  /** How many of these packets start a cycle. */
  function CyclesStarted(packets: seq<Packet>): nat {
    if packets == [] then 0
    else
      var last := packets[|packets| - 1];
      CyclesStarted(packets[..|packets| - 1]) + if !last.before.processingSdes && last.t.fill.Some? then 1 else 0
  }

  lemma CountsCycles(p: Packet)
    requires IsBuilt(p)
    ensures p.after.sdesBuildCount ==
            p.before.sdesBuildCount + if !p.before.processingSdes && p.t.fill.Some? then 1 else 0
  {
  }

  lemma {:induction false} CountOverRun(packets: seq<Packet>)
    requires IsRun(packets) && packets != []
    ensures packets[|packets| - 1].after.sdesBuildCount == packets[0].before.sdesBuildCount + CyclesStarted(packets)
    decreases |packets|
  {
    hide IsBuilt;
    var n := |packets| - 1;
    CountsCycles(packets[n]);
    if n > 0 {
      CountOverRun(packets[..n]);
      assert SameCycle(packets[n - 1].after, packets[n].before);
    } else {
      assert packets[..0] == [];
    }
  }

  /** From the beginning, an item with interval n is due in the cycles number n, 2n, 3n and
      so on, and one whose interval is not positive in none. */
  lemma EveryNthCycle(packets: seq<Packet>, k: nat)
    requires IsRun(packets) && packets != [] && packets[0].before.sdesBuildCount == 0 && k < ITEM_COUNT
    requires var p := packets[|packets| - 1]; !p.before.processingSdes && p.t.fill.Some?
    ensures var p := packets[|packets| - 1];
            && |p.intervals| == ITEM_COUNT
            && (p.after.due[k] <==> p.intervals[k] > 0 && CyclesStarted(packets) % p.intervals[k] == 0)
  {
    hide IsBuilt;
    CountOverRun(packets);
    FirstPacketOfCycle(packets[|packets| - 1]);
  }

  lemma ValuesInOrder(texts: Texts, ks: seq<nat>)
    requires forall i :: 0 <= i < |ks| ==> ks[i] < ITEM_COUNT
    ensures forall i :: 0 <= i < |ks| ==>
              ItemValues(texts, ks)[i] == Normal([NAME, EMAIL, LOC, PHONE, TOOL, NOTE][ks[i]], texts[ks[i]])
  {
  }

  lemma ItemsBehind(p: Packet, h: ReportHeader, ssrc: u32, cname: Text)
    requires IsBuilt(p) && p.head == Head(h, ssrc, cname, []) && p.t.fill.Some?
    ensures var ks := Items(p);
            && (forall i :: 0 <= i < |ks| ==> ks[i] < ITEM_COUNT)
            && p.c.sources == [Source(ssrc, [Normal(CNAME, cname)] + ItemValues(p.texts, ks))]
  {
    var name: Value := Normal(CNAME, cname);
    assert [name] + [] == [name];
    hide Size, BlocksTo, MarkTo, IsPass, Pending, DueAt, DoneAfter, SentTo, SkippedTo, ItemValues, BlockFor;
  }

  /** The items really are in the packets: behind the CNAME, in this order. */
  lemma ItemsAreWritten(p: Packet, h: ReportHeader, ssrc: u32, cname: Text)
    requires IsBuilt(p) && p.head == Head(h, ssrc, cname, []) && p.t.fill.Some?
    ensures var ks := Items(p);
            && (forall i :: 0 <= i < |ks| ==> ks[i] < ITEM_COUNT)
            && p.c.sources == [Source(ssrc, [Normal(CNAME, cname)] + ItemValues(p.texts, ks))]
            && (forall i :: 0 <= i < |ks| ==>
                  ItemValues(p.texts, ks)[i] == Normal([NAME, EMAIL, LOC, PHONE, TOOL, NOTE][ks[i]], p.texts[ks[i]]))
  {
    hide IsBuilt, Items, ItemValues, Head;
    ItemsBehind(p, h, ssrc, cname);
    ValuesInOrder(p.texts, Items(p));
  }

  /** A packet that leaves items of its cycle to the next has no room for the first of them. */
  lemma NextItemDoesNotFit(p: Packet) returns (k: nat)
    requires IsBuilt(p) && p.t.fill.Some? && p.after.processingSdes
    ensures k < ITEM_COUNT && p.after.due[k] && !p.after.done[k] && p.c.sources != []
    ensures Size(AppendItems(p.c, [ItemValue(p.texts, k)])) > p.maximum
  {
    k := p.t.fill.value;
    if p.before.processingSdes {
      ItemsFull(p, p.before.due, p.before.done, p.head);
    } else {
      var c1 := WithBlocks(p.head, BlocksTo(p.before.sources, p.before.since, p.now, p.t.first.value));
      ItemsFull(p, p.after.due, NO_FLAGS, c1);
    }
    hide Size, BlocksTo, ValuesTo, SentTo, DueAt;
  }

  lemma ItemsFull(p: Packet, due: Flags, done: Flags, c: Compound)
    requires p.t.fill.Some? && p.t.fill.value < ITEM_COUNT
    requires FillStep(p.texts, due, done, p.maximum, c, p.t.fill.value, DoneAfter(due, done, p.t.fill.value), p.c)
    ensures var k := p.t.fill.value;
            && due[k] && !DoneAfter(due, done, k)[k] && p.c.sources != []
            && Size(AppendItems(p.c, [ItemValue(p.texts, k)])) > p.maximum
  {
    hide Size;
    var k, n := p.t.fill.value, |c.sources| - 1;
    var values, v := ValuesTo(p.texts, due, done, k), ItemValue(p.texts, k);
    hide ValuesTo, ItemValue;
    var last := c.sources[n];
    assert p.c.sources[..n] == c.sources[..n] && p.c.sources[n] == last.(values := last.values + values);
    assert last.values + values + [v] == last.values + (values + [v]);
    assert AppendItems(p.c, [v]) == AppendItems(c, values + [v]);
  }

  // ---- report blocks over several packets ----

  /** Packets one after the other, inside and outside cycles.  Between them sources may
      join, leave and change, but no processed flag of a source that stays is cleared. */
  ghost predicate TableRun(packets: seq<Packet>) {
    && (forall i :: 0 <= i < |packets| ==> IsBuilt(packets[i]) && DistinctSources(packets[i].before.sources))
    && (forall i :: 0 < i < |packets| ==>
          Evolves(packets[i - 1].after.sources, packets[i].before.sources, packets[i].joined))
  }

  function StopOf(stop: Option<nat>): nat {
    if stop.Some? then stop.value else 0
  }

  /** The pass over the table as the packet finds it: in front of a cycle, or behind the
      last items of one; it covers nobody while items are left to send. */
  function Opening(p: Packet): Pass {
    Pass(p.before.sources, p.before.since, StopOf(if p.before.processingSdes then p.t.second else p.t.first), p.joined)
  }

  function MarkedBy(p: Pass): seq<SourceState> {
    MarkTo(p.table, p.since, p.stop)
  }

  /** The packet clears all processed flags after its opening pass: it starts a cycle, or
      it ends one and nobody is left to report. */
  predicate Clears(p: Packet) {
    if p.before.processingSdes then p.t.second.Some? && NonePending(MarkedBy(Opening(p)), p.before.since)
    else p.t.fill.Some?
  }

  /** The last pass of the packet: its opening one, or what follows once the flags are
      cleared, which covers the skipped sources of a cycle that ends where it started. */
  function Closing(p: Packet): Pass {
    if !Clears(p) then Opening(p)
    else
      var stop := if p.before.processingSdes then 0 else StopOf(p.t.second);
      Pass(ClearFlags(MarkedBy(Opening(p))), p.before.since, stop, p.joined)
  }

  /** The blocks of a pass. */
  function BlocksOf(pass: Pass, now: real): seq<ReportBlock> {
    if pass.stop > |pass.table| then [] else BlocksTo(pass.table, pass.since, now, pass.stop)
  }

  lemma StopsFit(p: Packet)
    requires IsBuilt(p)
    ensures Opening(p).stop <= |Opening(p).table| && Closing(p).stop <= |Closing(p).table|
    ensures p.after.sources == MarkedBy(Closing(p))
  {
    hide BlockFor, FillStep, Pending;
    var opening := Opening(p);
    MarkedNobody(opening.table, opening.since);
    MarkedNobody(ClearFlags(MarkedBy(opening)), opening.since);
  }

  lemma MarkedNobody(ss: seq<SourceState>, since: Since)
    ensures MarkTo(ss, since, 0) == ss
  {
  }

  /** The report blocks of a packet are those of its opening pass, then those of the pass
      after the flags were cleared; the table is left as its last pass has marked it. */
  lemma BlocksArePasses(p: Packet)
    requires IsBuilt(p)
    ensures p.c.blocks == p.head.blocks + BlocksOf(Opening(p), p.now) +
                          if Clears(p) then BlocksOf(Closing(p), p.now) else []
    ensures p.after.sources == MarkedBy(Closing(p))
  {
    StopsFit(p);
    NoBlocksYet(Opening(p).table, Opening(p).since, p.now);
    NoBlocksYet(Closing(p).table, Closing(p).since, p.now);
    AppendsNothing(p.head.blocks + BlocksOf(Opening(p), p.now));
    AppendsNothing(p.head.blocks);
    hide BlocksTo, MarkTo, Size, IsPass, IsFill, Pending, ValuesTo, DoneAfter, DueAt, SentTo, SkippedTo;
  }

  /** When the flags are cleared everybody who is to be reported can be reported again. */
  lemma ClearsAll(p: Packet, i: nat)
    requires IsBuilt(p) && Clears(p) && i < |p.before.sources|
    ensures var was, now := MarkedBy(Opening(p))[i], Closing(p).table[i];
            !now.processed && now == was.(processed := false)
    ensures !p.before.processingSdes ==> p.t.first.Some? && NonePending(MarkedBy(Opening(p)), p.before.since)
  {
    if !p.before.processingSdes {
      AllCovered(p);
    }
    hide IsBuilt, MarkTo, NonePending;
  }

  /** A cycle starts only when everybody has been reported. */
  lemma AllCovered(p: Packet)
    requires IsBuilt(p) && !p.before.processingSdes && p.t.fill.Some?
    ensures p.t.first.Some? && NonePending(MarkedBy(Opening(p)), p.before.since)
  {
    hide Size, BlocksTo, BlockFor, Pending, IsFill, SkippedTo;
    var ss, since := p.before.sources, p.before.since;
    if c1, c2 :| CycleStarts(p.before, p.after, p.texts, p.intervals, p.now, p.maximum, p.head, c1, c2, p.c, p.t) {
      CompletePass(ss, since, p.now, p.maximum, p.head, |ss|, p.t.first.value, false);
    }
  }

  lemma NoBlocksYet(ss: seq<SourceState>, since: Since, now: real)
    ensures BlocksTo(ss, since, now, 0) == []
  {
  }

  lemma AppendsNothing(blocks: seq<ReportBlock>)
    ensures blocks + [] == blocks
  {
  }

  /** The next packet counts as heard only what comes after this one was built. */
  lemma SinceMoves(p: Packet)
    requires IsBuilt(p)
    ensures p.after.since == After(p.now)
  {
  }

  /** A packet that starts no cycle has no room left: there is a pending source behind those
      it reports whose block does not fit any more. */
  lemma PacketIsFull(p: Packet) returns (s: SourceState)
    requires IsBuilt(p) && !p.before.processingSdes && p.t.fill.None?
    ensures s in p.before.sources && BlockContents.Reportable(s, p.before.since)
    ensures Size(WithBlocks(p.c, [BlockFor(s, p.now)])) > p.maximum
  {
    var stop := p.t.first.value;
    s := p.before.sources[stop];
    var blocks := BlocksTo(p.before.sources, p.before.since, p.now, stop);
    assert p.head.blocks + (blocks + [BlockFor(s, p.now)]) == p.head.blocks + blocks + [BlockFor(s, p.now)];
    assert WithBlocks(p.c, [BlockFor(s, p.now)]) == WithBlocks(p.head, blocks + [BlockFor(s, p.now)]);
    hide Size, BlockFor, BlocksTo;
  }

  /** Nor has one that sends the last items of its cycle, unless everybody has been reported. */
  lemma LastPacketIsFull(p: Packet) returns (s: SourceState)
    requires IsBuilt(p) && p.before.processingSdes && !p.after.processingSdes
    ensures !NonePending(MarkedBy(Opening(p)), p.before.since) ==>
              && s in p.before.sources && BlockContents.Reportable(s, p.before.since)
              && Size(WithBlocks(p.c, [BlockFor(s, p.now)])) > p.maximum
  {
    hide Size, BlocksTo, BlockFor, Pending, FillStep, NonePending, BlockContents.Reportable;
    var ss, since := p.before.sources, p.before.since;
    s := SourceState(0, false, false, false, 0.0, false, Stats(0, 0, 0, 0, 0, 0, None));
    var c2 :| CycleGoesOn(p.before, p.after, p.texts, p.now, p.maximum, p.head, c2, p.c, p.t);
    var stop := p.t.second.value;
    var full, marked :| PassStep(ss, since, p.now, p.maximum, c2, |ss|, stop, full, marked, p.c);
    if full {
      s := ss[stop];
      PendingIsReportable(s, since);
      var blocks := BlocksTo(ss, since, p.now, stop);
      assert c2.blocks + (blocks + [BlockFor(s, p.now)]) == c2.blocks + blocks + [BlockFor(s, p.now)];
      assert WithBlocks(p.c, [BlockFor(s, p.now)]) == WithBlocks(c2, blocks + [BlockFor(s, p.now)]);
    } else {
      CompletePass(ss, since, p.now, p.maximum, c2, |ss|, stop, full);
    }
  }

  lemma PendingIsReportable(s: SourceState, since: Since)
    requires Pending(s, since)
    ensures BlockContents.Reportable(s, since)
  {
  }

  /** Every report block of a packet tells about a source of the table that was to be
      reported, as it was when the packet was built. */
  lemma BlocksTell(p: Packet, n: nat) returns (s: SourceState)
    requires IsBuilt(p) && p.head.blocks == [] && n < |p.c.blocks|
    ensures s in Opening(p).table || (Clears(p) && s in Closing(p).table)
    ensures BlockContents.Reportable(s, p.before.since)
    ensures BlockContents.TellsAbout(p.c.blocks[n], s, p.now)
  {
    hide IsBuilt, BlocksOf, Clears, MarkedBy, BlockContents.TellsAbout, BlockContents.Reportable;
    BlocksArePasses(p);
    PassSince(p);
    hide Opening, Closing;
    var opening, closing := BlocksOf(Opening(p), p.now), BlocksOf(Closing(p), p.now);
    assert [] + opening == opening;
    if n < |opening| {
      assert p.c.blocks[n] == opening[n];
      s := PassBlockTells(Opening(p), p.now, n);
    } else {
      assert Clears(p) && p.c.blocks[n] == closing[n - |opening|];
      s := PassBlockTells(Closing(p), p.now, n - |opening|);
    }
  }

  lemma PassSince(p: Packet)
    ensures Opening(p).since == p.before.since && Closing(p).since == p.before.since
  {
  }

  lemma PassBlockTells(pass: Pass, now: real, k: nat) returns (s: SourceState)
    requires k < |BlocksOf(pass, now)|
    ensures s in pass.table && BlockContents.Reportable(s, pass.since)
    ensures BlockContents.TellsAbout(BlocksOf(pass, now)[k], s, now)
  {
    hide BlocksTo, BlockContents.TellsAbout, BlockContents.Reportable;
    var at := BlockContents.PassTells(pass.table, pass.since, now, pass.stop);
    s := pass.table[at[k]];
  }

  /** Passes whose marks one packet leaves for the next: the last of packet i, and the
      opening ones of the packets up to j. */
  function PassesBetween(packets: seq<Packet>, i: nat, j: nat): (r: seq<Pass>)
    requires i < j < |packets|
    ensures |r| == j - i + 1 && r[0] == Closing(packets[i])
    ensures forall k :: 0 < k < |r| ==> r[k] == Opening(packets[i + k])
  {
    [Closing(packets[i])] + seq(j - i, k requires 0 <= k < j - i => Opening(packets[i + 1 + k]))
  }

  lemma DistinctClosing(p: Packet)
    requires DistinctSources(p.before.sources)
    ensures DistinctSources(Closing(p).table)
  {
  }

  lemma PassesKeepFlags(packets: seq<Packet>, i: nat, j: nat)
    requires TableRun(packets) && i < j < |packets| && forall k :: i < k < j ==> !Clears(packets[k])
    ensures NoClearing(PassesBetween(packets, i, j))
  {
    hide IsBuilt, MarkTo, Evolves, DistinctSources, Clears, StopOf;
    var passes := PassesBetween(packets, i, j);
    DistinctClosing(packets[i]);
    forall k | 0 < k < |passes|
      ensures Evolves(MarkTo(passes[k - 1].table, passes[k - 1].since, passes[k - 1].stop),
                      passes[k].table, passes[k].joined)
    {
      StopsFit(packets[i + k - 1]);
      assert passes[k - 1] == Closing(packets[i + k - 1]);
    }
    forall k | 0 <= k < |passes|
      ensures DistinctSources(passes[k].table)
    {
      assert k > 0 ==> passes[k] == Opening(packets[i + k]);
    }
  }

  /** While no flag is cleared, a source that has got a block gets another only if it has
      left the table and joined it again in between: be the first block in the last pass
      of a packet, at whatever point of a cycle, and the second in the opening pass of a
      later one. */
  lemma NoSourceTwice(packets: seq<Packet>, i: nat, j: nat, ssrc: u32)
    requires TableRun(packets) && i < j < |packets| && forall k :: i < k < j ==> !Clears(packets[k])
    requires HasBlock(BlocksOf(Closing(packets[i]), packets[i].now), ssrc)
    requires HasBlock(BlocksOf(Opening(packets[j]), packets[j].now), ssrc)
    ensures exists k :: i < k <= j && ssrc in packets[k].joined
  {
    hide TableRun, NoClearing, Opening, Closing, Clears, HasBlock, BlocksTo, Covers;
    var passes := PassesBetween(packets, i, j);
    PassesKeepFlags(packets, i, j);
    BlocksCovered(Closing(packets[i]), packets[i].now, ssrc);
    BlocksCovered(Opening(packets[j]), packets[j].now, ssrc);
    NoSecondBlock(passes, 0, j - i, ssrc);
    var k :| 0 < k <= j - i && ssrc in passes[k].joined;
    OpeningJoined(packets[i + k]);
    assert ssrc in packets[i + k].joined;
  }

  lemma OpeningJoined(p: Packet)
    ensures Opening(p).joined == p.joined
  {
  }

  lemma BlocksCovered(pass: Pass, now: real, ssrc: u32)
    requires HasBlock(BlocksOf(pass, now), ssrc)
    ensures PassCovers(pass, ssrc)
  {
    hide Covers, BlocksTo;
    if pass.stop <= |pass.table| {
      BlocksMeanCovered(pass.table, pass.since, now, pass.stop, ssrc);
    }
  }

  /** Packets outside a cycle, one after the other: all but the last too full to start one. */
  ghost predicate ReportsRun(packets: seq<Packet>) {
    && TableRun(packets)
    && (forall i :: 0 <= i < |packets| ==> !packets[i].before.processingSdes)
    && (forall i :: 0 <= i < |packets| - 1 ==> packets[i].t.fill.None?)
  }

  /** A packet that starts no cycle marks the sources it reports, and there is one. */
  lemma OneReportPacket(p: Packet)
    requires IsBuilt(p) && !p.before.processingSdes && p.t.fill.None?
    ensures p.t.first.Some? && p.t.first.value <= |p.before.sources|
    ensures p.after.sources == MarkTo(p.before.sources, p.before.since, p.t.first.value)
    ensures BlocksTo(p.before.sources, p.before.since, p.now, p.t.first.value) != []
  {
  }

  /** How many sources join in front of these packets. */
  function JoinedTotal(packets: seq<Packet>): nat {
    if packets == [] then 0 else |packets[0].joined| + JoinedTotal(packets[1..])
  }

  lemma MarkingProgress(p: Packet)
    requires IsBuilt(p) && !p.before.processingSdes && p.t.fill.None? && DistinctSources(p.before.sources)
    ensures |Unprocessed(p.after.sources)| < |Unprocessed(p.before.sources)|
  {
    OneReportPacket(p);
    hide IsBuilt, DistinctSources;
    PassProgress(p.before.sources, p.before.since, p.now, p.t.first.value);
  }

  lemma WithoutFirst(packets: seq<Packet>)
    requires ReportsRun(packets) && |packets| > 1
    ensures ReportsRun(packets[1..])
    ensures Evolves(packets[0].after.sources, packets[1].before.sources, packets[1].joined)
  {
    hide IsBuilt, Evolves, DistinctSources;
  }

  /** Reports hold a cycle up for at most as many packets as there were sources without
      a block at the start, and as have joined since. */
  lemma {:induction false} CycleComes(packets: seq<Packet>)
    requires ReportsRun(packets) && packets != [] && packets[|packets| - 1].t.fill.None?
    ensures |packets| <= |Unprocessed(packets[0].before.sources)| + JoinedTotal(packets[1..])
    ensures |packets| <= |packets[0].before.sources| + JoinedTotal(packets[1..])
    decreases |packets|
  {
    hide IsBuilt, Unprocessed, Evolves;
    MarkingProgress(packets[0]);
    UnprocessedAtMost(packets[0].before.sources);
    if |packets| > 1 {
      var rest := packets[1..];
      WithoutFirst(packets);
      CycleComes(rest);
      EvolvingAdds(packets[0].after.sources, packets[1].before.sources, packets[1].joined);
    }
  }

  // ---- a cycle held up for as long as sources keep joining ----

  const CROWD := 14

  /** The source with number i in the table in front of packet k: nobody stays for two packets. */
  function Comer(k: nat, i: nat): SourceState
    requires i < CROWD
  {
    SourceState(i + CROWD * (k % 2), false, false, true, k as real, false, Stats(0, 0, 0, 0, 0, 0, None))
  }

  const OUR_SSRC := 100

  function Ourselves(): SourceState {
    SourceState(OUR_SSRC, true, false, false, 0.0, false, Stats(0, 0, 0, 0, 0, 0, None))
  }

  /** The table in front of packet k: 14 others, and ourselves. */
  function Crowd(k: nat): (r: seq<SourceState>)
    ensures |r| == CROWD + 1 && r[CROWD] == Ourselves() && forall i :: 0 <= i < CROWD ==> r[i] == Comer(k, i)
  {
    seq(CROWD, i requires 0 <= i < CROWD => Comer(k, i)) + [Ourselves()]
  }

  function Newcomers(k: nat): set<u32> {
    set s | s in Crowd(k) && !s.own :: s.ssrc
  }

  function LongName(): Text {
    seq(MAX_ITEM, i => 65)
  }

  function LongHead(): Compound {
    Head(ReceiverReport(OUR_SSRC), OUR_SSRC, LongName(), [])
  }

  /** Every item is due in every cycle, if there were one. */
  const ALWAYS: seq<int> := [1, 1, 1, 1, 1, 1]

  const FITS := 13

  function CrowdedState(k: nat, ss: seq<SourceState>, since: real): State {
    State(ss, After(since), false, 0, NO_FLAGS, NO_FLAGS)
  }

  /** Packet k of the run: 13 blocks, and no room for the fourteenth. */
  function CrowdedPacket(k: nat, texts: Texts): Packet {
    var since := After(k as real - 1.0);
    Packet(CrowdedState(k, Crowd(k), k as real - 1.0),
           CrowdedState(k, MarkTo(Crowd(k), since, FITS), k as real),
           texts, ALWAYS, k as real, RTP_MINPACKETSIZE, LongHead(),
           WithBlocks(LongHead(), BlocksTo(Crowd(k), since, k as real, FITS)), Trace(Some(FITS), None, None),
           Newcomers(k))
  }

  function CrowdedRun(n: nat, texts: Texts): (r: seq<Packet>)
    ensures |r| == n && forall k :: 0 <= k < n ==> r[k] == CrowdedPacket(k, texts)
  {
    seq(n, k requires 0 <= k < n => CrowdedPacket(k, texts))
  }

  lemma AllPendingBlocks(k: nat, stop: nat)
    requires stop <= CROWD
    ensures |BlocksTo(Crowd(k), After(k as real - 1.0), k as real, stop)| == stop
  {
    hide BlockFor;
    if stop > 0 {
      AllPendingBlocks(k, stop - 1);
      assert Pending(Crowd(k)[stop - 1], After(k as real - 1.0));
    }
  }

  /** With a long CNAME 24 bytes a block leave room for 13 blocks in 600 bytes. */
  lemma LongHeadSize(blocks: seq<ReportBlock>)
    requires 0 < |blocks| <= CROWD
    ensures Size(WithBlocks(LongHead(), blocks)) == 276 + 24 * |blocks|
  {
    hide Size, Flatten, ReportPieces, ByePieces, PacketsNeeded, SourceBytes;
    var name: Value := Normal(CNAME, LongName());
    assert [name] + [] == [name] && [] + blocks == blocks;
    OneSourceSize(WithBlocks(LongHead(), blocks));
    ReportPiecesSize(ReceiverReport(OUR_SSRC), blocks);
    PacketsNeededSmall(|blocks|);
    FlattenNothing<byte>();
    assert ByePieces([]) == [];
    LongChunk(name);
  }

  lemma LongChunk(name: Value)
    requires name == Normal(CNAME, LongName())
    ensures |SourceBytes(Source(OUR_SSRC, [name]))| == 264
  {
    hide ItemsBytes;
    ItemsLength([]);
    assert [name][..0] == [];
    ItemsLength([name]);
    SourceBytesSize(Source(OUR_SSRC, [name]));
  }

  lemma CrowdedIsBuilt(k: nat, texts: Texts)
    ensures IsBuilt(CrowdedPacket(k, texts))
  {
    hide Size, LongHead, BlockFor, MarkTo, BlocksTo;
    var p := CrowdedPacket(k, texts);
    var ss, since, now := Crowd(k), After(k as real - 1.0), k as real;
    var blocks := BlocksTo(ss, since, now, FITS);
    AllPendingBlocks(k, FITS);
    LongHeadSize(blocks);
    LongHeadSize(blocks + [BlockFor(ss[FITS], now)]);
    assert Pending(ss[FITS], since);
    assert IsPass(ss, since, now, p.maximum, LongHead(), |ss|, FITS, true);
    assert ReportsOnly(p.before, p.after, now, p.maximum, p.head, p.c, p.t);
  }

  lemma NewcomersJoin(k: nat, texts: Texts)
    ensures Evolves(CrowdedPacket(k, texts).after.sources, CrowdedPacket(k + 1, texts).before.sources,
                    CrowdedPacket(k + 1, texts).joined)
    ensures GoesOn(CrowdedPacket(k, texts), CrowdedPacket(k + 1, texts))
  {
    hide MarkTo, BlocksTo, WithBlocks;
  }

  /** The packet starts from all that the one before has left, but for the table. */
  predicate GoesOn(prev: Packet, p: Packet) {
    p.before == prev.after.(sources := p.before.sources)
  }

  /** The packet can be one of ours: six intervals, our own SSRC in the report and the
      items, and with it the one entry of the table that is our own. */
  ghost predicate Ours(p: Packet, ssrc: u32, cname: Text) {
    && |p.intervals| == ITEM_COUNT && RTP_MINPACKETSIZE <= p.maximum
    && p.head == Head(ReceiverReport(ssrc), ssrc, cname, [])
    && (forall i :: 0 <= i < |p.before.sources| ==> (p.before.sources[i].own <==> p.before.sources[i].ssrc == ssrc))
    && (exists i :: 0 <= i < |p.before.sources| && p.before.sources[i].own)
  }

  lemma CrowdedIsOurs(k: nat, texts: Texts)
    ensures var p := CrowdedPacket(k, texts);
            && Ours(p, OUR_SSRC, LongName()) && DistinctSources(p.before.sources)
            && !p.before.processingSdes && p.t.fill.None? && |p.before.sources| == CROWD + 1
  {
    hide MarkTo, BlocksTo, Head;
    assert Crowd(k)[CROWD].own;
  }

  /** The bound needs the sources that join: a table of ourselves and 14 others, and 14
      new ones in their place at every packet, hold a cycle up for any number of packets,
      each going on with all that the one before has left but the table. */
  lemma CycleHeldUp(n: nat, texts: Texts)
    ensures var packets := CrowdedRun(n, texts);
            && |packets| == n && ReportsRun(packets)
            && (forall k :: 0 <= k < n ==>
                  && packets[k].t.fill.None? && |packets[k].before.sources| == CROWD + 1
                  && Ours(packets[k], OUR_SSRC, LongName()))
            && (forall k :: 0 < k < n ==> GoesOn(packets[k - 1], packets[k]))
  {
    hide IsBuilt, Evolves, Ours, GoesOn, DistinctSources, CrowdedPacket;
    var packets := CrowdedRun(n, texts);
    forall k | 0 <= k < n
      ensures var p := packets[k];
              && IsBuilt(p) && Ours(p, OUR_SSRC, LongName()) && DistinctSources(p.before.sources)
              && !p.before.processingSdes && p.t.fill.None? && |p.before.sources| == CROWD + 1
    {
      CrowdedIsBuilt(k, texts);
      CrowdedIsOurs(k, texts);
    }
    forall k | 0 < k < n
      ensures Evolves(packets[k - 1].after.sources, packets[k].before.sources, packets[k].joined)
      ensures GoesOn(packets[k - 1], packets[k])
    {
      NewcomersJoin(k - 1, texts);
    }
  }
}
