/** A cycle that ends in the packet it starts in leaves room for sources that earlier packets
    have covered: what that second pass adds, and when it reports a source twice. */
module TopUp {
  import opened Bytes
  import opened Wrappers
  import opened CompoundFormat
  import opened CompoundBuilder
  import opened ReportPass
  import opened SdesCycle
  import opened ReportBuilder
  import opened ReportRuns
  import BlockContents

  /** All items are sent in the packet that starts their cycle. */
  ghost predicate EndsAtOnce(p: Packet) {
    IsBuilt(p) && !p.before.processingSdes && p.t.fill == Some(ITEM_COUNT)
  }

  /** Sources that are to be reported and have been, in packets before this one. */
  function Skipped(p: Packet): nat {
    SkippedTo(p.before.sources, p.before.since, |p.before.sources|)
  }

  lemma FirstPassIsWhole(p: Packet)
    requires EndsAtOnce(p)
    ensures Opening(p).stop == |p.before.sources|
    ensures Closing(p).table == Cleared(p.before.sources, p.before.since)
    ensures Skipped(p) == 0 ==> Closing(p).stop == 0 && p.t.second.None?
    ensures Skipped(p) > 0 ==>
              && p.t.second == Some(Closing(p).stop)
              && exists c, full ::
                   && IsPass(Closing(p).table, p.before.since, p.now, p.maximum, c, Skipped(p), Closing(p).stop, full)
                   && p.c == WithBlocks(c, BlocksTo(Closing(p).table, p.before.since, p.now, Closing(p).stop))
  {
    hide BlocksTo, BlockFor, Size, FillStep, DueAt, Pending, SkippedTo;
    var ss := p.before.sources;
    if c1, c2 :| CycleStarts(p.before, p.after, p.texts, p.intervals, p.now, p.maximum, p.head, c1, c2, p.c, p.t) {
      AtMostStop(ss, p.before.since, p.now, p.t.first.value);
    }
  }

  /** The table when its sources have been covered and their flags cleared. */
  function Cleared(ss: seq<SourceState>, since: Since): seq<SourceState> {
    ClearFlags(MarkTo(ss, since, |ss|))
  }

  lemma {:induction false} ClearedBlocks(ss: seq<SourceState>, since: Since, now: real, stop: nat)
    requires stop <= |ss|
    ensures |BlocksTo(Cleared(ss, since), since, now, stop)| ==
            |BlocksTo(ss, since, now, stop)| + SkippedTo(ss, since, stop)
  {
    hide BlockFor;
    if stop > 0 {
      ClearedBlocks(ss, since, now, stop - 1);
    }
  }

  lemma {:induction false} MoreSkipped(ss: seq<SourceState>, since: Since, stop: nat, end: nat)
    requires stop <= end <= |ss|
    ensures SkippedTo(ss, since, stop) <= SkippedTo(ss, since, end)
    ensures SkippedTo(ss, since, stop) == SkippedTo(ss, since, end) <==>
            forall j :: stop <= j < end ==> !(Eligible(ss[j], since) && ss[j].processed)
  {
    hide Eligible;
    if stop < end {
      MoreSkipped(ss, since, stop, end - 1);
    }
  }

  /** The second pass hands out a block for every source that was skipped, or the packet is
      full: the block of some source that is to be reported does not fit any more. */
  lemma SkippedIsMadeUp(p: Packet) returns (s: SourceState)
    requires EndsAtOnce(p)
    ensures |BlocksOf(Closing(p), p.now)| <= Skipped(p)
    ensures |BlocksOf(Closing(p), p.now)| < Skipped(p) ==>
              && s in Closing(p).table && BlockContents.Reportable(s, p.before.since)
              && Size(WithBlocks(p.c, [BlockFor(s, p.now)])) > p.maximum
  {
    hide IsBuilt, Size, BlockFor, SkippedTo, BlocksTo;
    var closing, since := Closing(p), p.before.since;
    FirstPassIsWhole(p);
    s := SourceState(0, false, false, false, 0.0, false, Stats(0, 0, 0, 0, 0, 0, None));
    NoBlocksYet(closing.table, since, p.now);
    if Skipped(p) > 0 {
      var c, full :|
        && IsPass(closing.table, since, p.now, p.maximum, c, Skipped(p), closing.stop, full)
        && p.c == WithBlocks(c, BlocksTo(closing.table, since, p.now, closing.stop));
      ClearedBlocks(p.before.sources, since, p.now, |closing.table|);
      if full {
        s := closing.table[closing.stop];
        var blocks := BlocksTo(closing.table, since, p.now, closing.stop);
        assert c.blocks + (blocks + [BlockFor(s, p.now)]) == c.blocks + blocks + [BlockFor(s, p.now)];
        assert WithBlocks(p.c, [BlockFor(s, p.now)]) == WithBlocks(c, blocks + [BlockFor(s, p.now)]);
      }
    }
  }
  // ---- one source twice in one packet ----

  /** Two blocks about one source. */
  predicate Repeats(blocks: seq<ReportBlock>) {
    exists m, n :: 0 <= m < n < |blocks| && blocks[m].ssrc == blocks[n].ssrc
  }

  /** Somebody who is reported for the first time stands in front of somebody skipped. */
  predicate OutOfOrder(ss: seq<SourceState>, since: Since) {
    exists i, j :: 0 <= i < j < |ss| && Pending(ss[i], since) && Eligible(ss[j], since) && ss[j].processed
  }

  lemma RepeatsAcross(a: seq<ReportBlock>, b: seq<ReportBlock>)
    requires !Repeats(a) && !Repeats(b)
    ensures Repeats(a + b) <==> exists ssrc :: HasBlock(a, ssrc) && HasBlock(b, ssrc)
  {
    var all := a + b;
    if m, n :| 0 <= m < n < |all| && all[m].ssrc == all[n].ssrc {
      assert m < |a| <= n;
      assert a[m] == all[m] && b[n - |a|] == all[n];
      assert HasBlock(a, all[m].ssrc) && HasBlock(b, all[m].ssrc);
    }
    if ssrc :| HasBlock(a, ssrc) && HasBlock(b, ssrc) {
      var m, n :| 0 <= m < |a| && 0 <= n < |b| && a[m].ssrc == ssrc == b[n].ssrc;
      assert all[m] == a[m] && all[|a| + n] == b[n];
    }
  }

  lemma CoveredTwice(ss: seq<SourceState>, since: Since, stop: nat)
    requires DistinctSources(ss) && stop <= |ss|
    ensures (exists ssrc :: Covers(ss, since, |ss|, ssrc) && Covers(Cleared(ss, since), since, stop, ssrc)) <==>
            exists i :: 0 <= i < stop && Pending(ss[i], since)
  {
    var again := Cleared(ss, since);
    if i :| 0 <= i < stop && Pending(ss[i], since) {
      assert Pending(again[i], since) && again[i].ssrc == ss[i].ssrc;
      assert Covers(ss, since, |ss|, ss[i].ssrc) && Covers(again, since, stop, ss[i].ssrc);
    }
  }

  /** A packet that makes up for all skipped sources has two blocks about one source exactly
      if a source reported for the first time stands in front of one that was skipped: the
      second pass starts at the front of the table again. */
  lemma ReportedTwice(p: Packet)
    requires EndsAtOnce(p) && p.head.blocks == [] && DistinctSources(p.before.sources)
    requires |BlocksOf(Closing(p), p.now)| == Skipped(p)
    ensures Repeats(p.c.blocks) <==> OutOfOrder(p.before.sources, p.before.since)
  {
    hide IsBuilt, Covers, Eligible, BlocksTo, SkippedTo, Repeats, Cleared;
    var ss, since, stop := p.before.sources, p.before.since, Closing(p).stop;
    FirstPassIsWhole(p);
    StopsFit(p);
    BothPasses(p);
    CoveredTwice(ss, since, stop);
    ClearedBlocks(ss, since, p.now, stop);
    MoreSkipped(ss, since, stop, |ss|);
    NoneBefore(ss, since, p.now, stop);
  }

  lemma {:induction false} NoneBefore(ss: seq<SourceState>, since: Since, now: real, stop: nat)
    requires stop <= |ss|
    ensures BlocksTo(ss, since, now, stop) == [] <==> forall i :: 0 <= i < stop ==> !Pending(ss[i], since)
  {
    hide Pending, BlockFor;
    if stop > 0 {
      NoneBefore(ss, since, now, stop - 1);
    }
  }

  lemma BothPasses(p: Packet)
    requires EndsAtOnce(p) && p.head.blocks == [] && DistinctSources(p.before.sources)
    requires Closing(p).stop <= |Closing(p).table|
    ensures var ss, since := p.before.sources, p.before.since;
            Repeats(p.c.blocks) <==>
            exists ssrc :: Covers(ss, since, |ss|, ssrc) && Covers(Cleared(ss, since), since, Closing(p).stop, ssrc)
  {
    hide IsBuilt, Covers, HasBlock, BlocksTo, Repeats, Clears;
    FirstPassIsWhole(p);
    BlocksArePasses(p);
    var a, b := BlocksOf(Opening(p), p.now), BlocksOf(Closing(p), p.now);
    assert Clears(p) by {
      hide *;
      ClearsThen(p);
    }
    assert [] + a == a;
    OneEach(Opening(p), p.now);
    OneEach(Closing(p), p.now);
    RepeatsAcross(a, b);
    forall ssrc: u32
      ensures HasBlock(a, ssrc) <==> Covers(Opening(p).table, p.before.since, Opening(p).stop, ssrc)
      ensures HasBlock(b, ssrc) <==> Covers(Closing(p).table, p.before.since, Closing(p).stop, ssrc)
    {
      BlocksMeanCovered(Opening(p).table, p.before.since, p.now, Opening(p).stop, ssrc);
      BlocksMeanCovered(Closing(p).table, p.before.since, p.now, Closing(p).stop, ssrc);
    }
  }

  lemma ClearsThen(p: Packet)
    requires EndsAtOnce(p)
    ensures Clears(p)
  {
  }

  lemma OneEach(pass: Pass, now: real)
    requires DistinctSources(pass.table)
    ensures !Repeats(BlocksOf(pass, now))
  {
    hide BlocksTo, DistinctSources;
    if pass.stop <= |pass.table| {
      OneBlockEach(pass.table, pass.since, now, pass.stop);
      assert BlocksOf(pass, now) == BlocksTo(pass.table, pass.since, now, pass.stop);
    }
  }

  /** And then the second of the two expects no packet at all: the code divides 0 by 0. */
  lemma SecondExpectsNothing(p: Packet, i: nat)
    requires EndsAtOnce(p) && i < |p.before.sources| && Pending(p.before.sources[i], p.before.since)
    ensures var s := Closing(p).table[i];
            && s.ssrc == p.before.sources[i].ssrc
            && s.stats.extHighSeq == s.stats.savedExtSeq && s.stats.newPackets == 0
  {
    FirstPassIsWhole(p);
    hide IsBuilt, Closing, Opening, BlocksTo;
  }

  // ---- a run that gets there ----

  const LATE_SSRC := 99

  /** A source at the front of the table, known before it sends anything. */
  function Late(sent: bool): SourceState {
    SourceState(LATE_SSRC, false, false, sent, if sent then 1.5 else 0.0, false, Stats(0, 0, 0, 0, 0, 0, None))
  }

  /** In front of the first packet: the silent source, 14 others that send, and ourselves. */
  function FirstTable(): (r: seq<SourceState>)
    ensures |r| == CROWD + 2 && r[0] == Late(false) && r[CROWD + 1] == Ourselves()
    ensures forall i :: 0 <= i < CROWD ==> r[i + 1] == Comer(0, i)
  {
    [Late(false)] + Crowd(0)
  }

  /** In front of the second: the first two have sent since, the other thirteen have left. */
  function SecondTable(): seq<SourceState> {
    [Late(true), Comer(0, 0).(lastRtpTime := 1.5, processed := true), Ourselves()]
  }

  /** The first packet of a new builder: 13 blocks, and no room for the fourteenth. */
  function FirstBuilt(texts: Texts): Packet {
    var was := State(FirstTable(), FirstPacket, false, 0, NO_FLAGS, NO_FLAGS);
    Packet(was, was.(sources := MarkTo(FirstTable(), FirstPacket, FITS + 1), since := After(1.0)),
           texts, NEVER, 1.0, RTP_MINPACKETSIZE, LongHead(),
           WithBlocks(LongHead(), BlocksTo(FirstTable(), FirstPacket, 1.0, FITS + 1)),
           Trace(Some(FITS + 1), None, None), {})
  }

  /** No item is ever due. */
  const NEVER: seq<int> := [0, 0, 0, 0, 0, 0]

  function SecondBuilt(texts: Texts): Packet {
    var was := FirstBuilt(texts).after.(sources := SecondTable());
    var again := Cleared(SecondTable(), was.since);
    Packet(was, State(MarkTo(again, was.since, 1), After(2.0), false, 1, NO_FLAGS, NO_FLAGS),
           texts, NEVER, 2.0, RTP_MINPACKETSIZE, LongHead(),
           WithBlocks(LongHead(), [BlockFor(Late(true), 2.0), BlockFor(again[0], 2.0)]),
           Trace(Some(3), Some(ITEM_COUNT), Some(1)), {})
  }

  lemma {:induction false} FirstBlocks(stop: nat)
    requires 0 < stop <= CROWD + 1
    ensures |BlocksTo(FirstTable(), FirstPacket, 1.0, stop)| == stop - 1
  {
    hide BlockFor;
    if stop > 1 {
      FirstBlocks(stop - 1);
      assert FirstTable()[stop - 1] == Comer(0, stop - 2);
    } else {
      assert BlocksTo(FirstTable(), FirstPacket, 1.0, 0) == [];
    }
  }

  lemma FirstIsBuilt(texts: Texts)
    ensures IsBuilt(FirstBuilt(texts))
  {
    hide Size, LongHead, BlockFor, MarkTo, BlocksTo;
    var p, ss := FirstBuilt(texts), FirstTable();
    var blocks := BlocksTo(ss, FirstPacket, 1.0, FITS + 1);
    FirstBlocks(FITS + 1);
    LongHeadSize(blocks);
    LongHeadSize(blocks + [BlockFor(ss[FITS + 1], 1.0)]);
    assert ss[FITS + 1] == Comer(0, FITS);
    assert IsPass(ss, FirstPacket, 1.0, p.maximum, LongHead(), |ss|, FITS + 1, true);
    assert ReportsOnly(p.before, p.after, 1.0, p.maximum, p.head, p.c, p.t);
  }

  lemma SecondPasses()
    ensures var ss, since, now := SecondTable(), After(1.0), 2.0;
            var again := Cleared(ss, since);
            && BlocksTo(ss, since, now, 3) == [BlockFor(ss[0], now)] && SkippedTo(ss, since, 3) == 1
            && BlocksTo(again, since, now, 1) == [BlockFor(again[0], now)]
  {
    hide BlockFor;
    var ss, since, now := SecondTable(), After(1.0), 2.0;
    var again := Cleared(ss, since);
    assert Pending(ss[0], since) && Eligible(ss[1], since) && ss[1].processed && !Eligible(ss[2], since);
    assert Pending(again[0], since);
    assert BlocksTo(ss, since, now, 0) == [] == BlocksTo(again, since, now, 0);
    assert BlocksTo(ss, since, now, 1) == [BlockFor(ss[0], now)] == BlocksTo(ss, since, now, 2);
    assert SkippedTo(ss, since, 1) == 0 && SkippedTo(ss, since, 2) == 1;
  }

  lemma NothingDue(texts: Texts, c: Compound)
    requires c.sources != []
    ensures DueAt(NEVER, 1) == NO_FLAGS && DoneAfter(NO_FLAGS, NO_FLAGS, ITEM_COUNT) == NO_FLAGS
    ensures FillStep(texts, NO_FLAGS, NO_FLAGS, RTP_MINPACKETSIZE, c, ITEM_COUNT, NO_FLAGS, c)
  {
    hide Size;
    NothingSent(ITEM_COUNT);
    assert ValuesTo(texts, NO_FLAGS, NO_FLAGS, ITEM_COUNT) == [];
    AppendNone(c);
  }

  lemma {:induction false} NothingSent(stop: nat)
    requires stop <= ITEM_COUNT
    ensures SentTo(NO_FLAGS, NO_FLAGS, stop) == []
  {
    if stop > 0 {
      NothingSent(stop - 1);
    }
  }

  lemma SecondIsBuilt(texts: Texts)
    ensures IsBuilt(SecondBuilt(texts))
  {
    hide Size, LongHead, BlockFor, MarkTo, BlocksTo, SkippedTo, FillStep, DueAt;
    var p, ss, since, now := SecondBuilt(texts), SecondTable(), After(1.0), 2.0;
    var again := Cleared(ss, since);
    var first, second := BlockFor(ss[0], now), BlockFor(again[0], now);
    var c1 := WithBlocks(LongHead(), [first]);
    SecondPasses();
    LongHeadSize([first]);
    LongHeadSize([first, second]);
    LongHeadHasSource();
    NothingDue(texts, c1);
    assert LongHead().blocks + [first] + [second] == LongHead().blocks + [first, second];
    assert p.c == WithBlocks(c1, [second]);
    assert PassStep(ss, since, now, p.maximum, LongHead(), |ss|, 3, false, MarkTo(ss, since, 3), c1);
    assert PassStep(again, since, now, p.maximum, c1, 1, 1, false, p.after.sources, p.c);
    assert CycleStarts(p.before, p.after, texts, NEVER, now, p.maximum, p.head, c1, c1, p.c, p.t);
  }

  lemma LongHeadHasSource()
    ensures LongHead().sources != [] && LongHead().blocks == []
  {
  }

  lemma ListsGoOn(texts: Texts)
    ensures var first, second := FirstBuilt(texts), SecondBuilt(texts);
            && Evolves(first.after.sources, second.before.sources, second.joined) && GoesOn(first, second)
  {
    hide BlocksTo, LongHead, WithBlocks, BlockFor, Crowd;
    var was, now := FirstBuilt(texts).after.sources, SecondTable();
    assert was[0].ssrc == now[0].ssrc && !was[0].processed;
    assert was[1].ssrc == now[1].ssrc && now[1].processed;
    assert was[CROWD + 1].ssrc == now[2].ssrc && !was[CROWD + 1].processed;
  }

  lemma BothAreOurs(texts: Texts)
    ensures Ours(FirstBuilt(texts), OUR_SSRC, LongName()) && DistinctSources(FirstTable())
    ensures Ours(SecondBuilt(texts), OUR_SSRC, LongName())
  {
    hide MarkTo, BlocksTo, WithBlocks, BlockFor, Head, Cleared;
    assert FirstBuilt(texts).before.sources == FirstTable() && FirstTable()[CROWD + 1].own;
    assert SecondBuilt(texts).before.sources == SecondTable() && SecondTable()[2].own;
  }

  lemma LateTwice(texts: Texts)
    ensures Repeats(SecondBuilt(texts).c.blocks)
  {
    hide MarkTo, LongHead;
    LongHeadHasSource();
    var blocks := SecondBuilt(texts).c.blocks;
    assert blocks[0].ssrc == blocks[1].ssrc == LATE_SSRC;
  }

  /** From a new builder, the second packet has two blocks about one source. */
  lemma TwiceInOnePacket(texts: Texts)
    ensures var first, second := FirstBuilt(texts), SecondBuilt(texts);
            && TableRun([first, second]) && GoesOn(first, second)
            && Ours(first, OUR_SSRC, LongName()) && Ours(second, OUR_SSRC, LongName())
            && first.before == State(FirstTable(), FirstPacket, false, 0, NO_FLAGS, NO_FLAGS)
            && Repeats(second.c.blocks)
  {
    FirstIsBuilt(texts);
    SecondIsBuilt(texts);
    ListsGoOn(texts);
    BothAreOurs(texts);
    LateTwice(texts);
    hide IsBuilt, LongHead, LongName, MarkTo, BlocksTo, Evolves, GoesOn, Ours, Repeats, Cleared;
  }
}
