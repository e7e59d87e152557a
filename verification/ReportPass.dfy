/** The source table as the report builder sees it, and one pass over it that hands
    out report blocks (section 6.4 of RFC 3550: nothing about ourselves or about
    contributing sources, and only sources heard from since the last report). */
module ReportPass {
  import opened Bytes
  import opened Wrappers
  import opened CompoundFormat

  datatype SrInfo = SrInfo(msw: u32, lsw: u32, receiveTime: real)

  datatype Stats = Stats(newPackets: u32, savedExtSeq: u32, extHighSeq: u32, baseSeq: u32,
                         packetsReceived: u32, jitter: u32, sr: Option<SrInfo>)

  datatype SourceState = SourceState(ssrc: u32, own: bool, csrc: bool, hasSentData: bool,
                                     lastRtpTime: real, processed: bool, stats: Stats)

  /** When the last packet was built, if one was. */
  datatype Since = FirstPacket | After(prevBuildTime: real)

  predicate Eligible(s: SourceState, since: Since) {
    !s.own && !s.csrc && s.hasSentData && (since.FirstPacket? || s.lastRtpTime > since.prevBuildTime)
  }

  predicate Pending(s: SourceState, since: Since) {
    Eligible(s, since) && !s.processed
  }

  function Wrap32(x: int): u32 {
    x % 0x1_0000_0000
  }

  /** Fraction of the packets expected in the interval that did not come, in 1/256;
      0 when more came than were expected, and when none was expected. */
  function FractionLost(expected: u32, received: u32): byte {
    if expected < received || expected == 0 then 0
    else (expected - received) * 256 / expected % 0x100
  }

  function ToSigned32(x: u32): i32 {
    if x < 0x8000_0000 then x else x - 0x1_0000_0000
  }

  function BlockFor(s: SourceState, now: real): ReportBlock {
    var st := s.stats;
    var expected := Wrap32(st.extHighSeq - st.savedExtSeq);
    var lost := Wrap32(Wrap32(st.extHighSeq - st.baseSeq) - st.packetsReceived);
    var (lsr: u32, dlsr: u32) :=
      match st.sr
      case None => (0, 0)
      case Some(sr) =>
        (sr.msw % 0x1_0000 * 0x1_0000 + sr.lsw / 0x1_0000, Wrap32(((now - sr.receiveTime) * 65536.0).Floor));
    ReportBlock(s.ssrc, FractionLost(expected, st.newPackets), ToSigned32(lost), st.extHighSeq, st.jitter, lsr, dlsr)
  }

  /** A source that has just been given its block: a new interval starts. */
  function Reported(s: SourceState): SourceState {
    s.(processed := true, stats := s.stats.(newPackets := 0, savedExtSeq := s.stats.extHighSeq))
  }

  /** The table after the pending sources before `stop` have been given their blocks. */
  function MarkTo(ss: seq<SourceState>, since: Since, stop: nat): (r: seq<SourceState>)
    ensures |r| == |ss|
    ensures forall i :: 0 <= i < |r| ==> r[i] == if i < stop && Pending(ss[i], since) then Reported(ss[i]) else ss[i]
  {
    seq(|ss|, i requires 0 <= i < |ss| => if i < stop && Pending(ss[i], since) then Reported(ss[i]) else ss[i])
  }

  /** The blocks of the pending sources before `stop`, in list order. */
  function BlocksTo(ss: seq<SourceState>, since: Since, now: real, stop: nat): seq<ReportBlock>
    requires stop <= |ss|
  {
    if stop == 0 then []
    else BlocksTo(ss, since, now, stop - 1) +
         if Pending(ss[stop - 1], since) then [BlockFor(ss[stop - 1], now)] else []
  }

  /** Eligible sources before `stop` that had been covered already. */
  function SkippedTo(ss: seq<SourceState>, since: Since, stop: nat): nat
    requires stop <= |ss|
  {
    if stop == 0 then 0
    else SkippedTo(ss, since, stop - 1) +
         if Eligible(ss[stop - 1], since) && ss[stop - 1].processed then 1 else 0
  }

  /** The eligible sources before `stop`, by SSRC. */
  function EligibleTo(ss: seq<SourceState>, since: Since, stop: nat): set<u32>
    requires stop <= |ss|
  {
    set s | s in ss[..stop] && Eligible(s, since) :: s.ssrc
  }

  /** The eligible sources that a pass comes to are those it gives a block and those it
      skips because they have one. */
  lemma {:induction false} SkippedMeans(ss: seq<SourceState>, since: Since, now: real, stop: nat)
    requires DistinctSources(ss) && stop <= |ss|
    ensures |BlocksTo(ss, since, now, stop)| + SkippedTo(ss, since, stop) == |EligibleTo(ss, since, stop)|
  {
    hide BlockFor, Eligible;
    if stop > 0 {
      SkippedMeans(ss, since, now, stop - 1);
      var last, before := ss[stop - 1], EligibleTo(ss, since, stop - 1);
      EligibleNext(ss, since, stop - 1);
    }
  }

  lemma EligibleNext(ss: seq<SourceState>, since: Since, stop: nat)
    requires DistinctSources(ss) && stop < |ss|
    ensures var before, after := EligibleTo(ss, since, stop), EligibleTo(ss, since, stop + 1);
            |after| == |before| + if Eligible(ss[stop], since) then 1 else 0
  {
    hide Eligible;
    var before, after, x := EligibleTo(ss, since, stop), EligibleTo(ss, since, stop + 1), ss[stop].ssrc;
    EligibleAt(ss, since, stop, x);
    assert x !in before;
    hide DistinctSources, EligibleTo;
    assert ss[..stop + 1] == ss[..stop] + [ss[stop]];
    forall y: u32
      ensures y in after <==> y in before || (y == x && Eligible(ss[stop], since))
    {
      EligibleAt(ss, since, stop, y);
      EligibleAt(ss, since, stop + 1, y);
    }
    assert after == before + if Eligible(ss[stop], since) then {x} else {};
  }

  lemma EligibleAt(ss: seq<SourceState>, since: Since, stop: nat, ssrc: u32)
    requires stop <= |ss|
    ensures ssrc in EligibleTo(ss, since, stop) <==>
            exists i :: 0 <= i < stop && ss[i].ssrc == ssrc && Eligible(ss[i], since)
  {
    hide Eligible;
    if i :| 0 <= i < stop && ss[i].ssrc == ssrc && Eligible(ss[i], since) {
      assert ss[..stop][i] == ss[i] && ss[i] in ss[..stop];
    }
  }

  function WithBlocks(c: Compound, blocks: seq<ReportBlock>): Compound {
    c.(blocks := c.blocks + blocks)
  }

  /** What a pass over the table is: it covers the pending sources before `stop`, and
      it stops at the end of the list, at `maxCount` blocks, or (then it is full) at the
      first pending source whose block does not fit. */
  ghost predicate IsPass(ss: seq<SourceState>, since: Since, now: real, maximum: nat, c: Compound,
                         maxCount: nat, stop: nat, full: bool) {
    && stop <= |ss|
    && var blocks := BlocksTo(ss, since, now, stop);
       && |blocks| <= maxCount
       && (blocks != [] ==> Size(WithBlocks(c, blocks)) <= maximum)
       && if full then
            && stop < |ss| && |blocks| < maxCount && Pending(ss[stop], since)
            && Size(WithBlocks(c, blocks + [BlockFor(ss[stop], now)])) > maximum
          else stop == |ss| || |blocks| == maxCount
  }

  predicate NonePending(ss: seq<SourceState>, since: Since) {
    forall i :: 0 <= i < |ss| ==> !Pending(ss[i], since)
  }

  /** When there is room for all, a pass that is not full leaves nobody out. */
  lemma CompletePass(ss: seq<SourceState>, since: Since, now: real, maximum: nat, c: Compound,
                     maxCount: nat, stop: nat, full: bool)
    requires IsPass(ss, since, now, maximum, c, maxCount, stop, full) && maxCount >= |ss| && !full
    ensures NonePending(MarkTo(ss, since, stop), since)
  {
    if stop < |ss| {
      AtMostStop(ss, since, now, stop);
    }
  }

  lemma {:induction false} AtMostStop(ss: seq<SourceState>, since: Since, now: real, stop: nat)
    requires stop <= |ss|
    ensures |BlocksTo(ss, since, now, stop)| <= stop
  {
    if stop > 0 {
      AtMostStop(ss, since, now, stop - 1);
    }
  }

  /** The sources of the table, by SSRC; a source is in it at most once. */
  predicate DistinctSources(ss: seq<SourceState>) {
    forall i, j :: 0 <= i < j < |ss| ==> ss[i].ssrc != ss[j].ssrc
  }

  /** A pass covers the source with this SSRC. */
  predicate Covers(ss: seq<SourceState>, since: Since, stop: nat, ssrc: u32) {
    exists i :: 0 <= i < |ss| && i < stop && ss[i].ssrc == ssrc && Pending(ss[i], since)
  }

  /** A block about the source with this SSRC. */
  predicate HasBlock(blocks: seq<ReportBlock>, ssrc: u32) {
    exists n :: 0 <= n < |blocks| && blocks[n].ssrc == ssrc
  }

  lemma HasBlockSnoc(blocks: seq<ReportBlock>, b: ReportBlock, ssrc: u32)
    ensures HasBlock(blocks + [b], ssrc) <==> HasBlock(blocks, ssrc) || b.ssrc == ssrc
  {
    var all := blocks + [b];
    if HasBlock(blocks, ssrc) {
      var n :| 0 <= n < |blocks| && blocks[n].ssrc == ssrc;
      assert all[n] == blocks[n];
    }
    assert all[|blocks|] == b;
    if HasBlock(all, ssrc) {
      var n :| 0 <= n < |all| && all[n].ssrc == ssrc;
      assert n == |blocks| || all[n] == blocks[n];
    }
  }

  lemma CoversNext(ss: seq<SourceState>, since: Since, stop: nat, ssrc: u32)
    requires stop < |ss|
    ensures Covers(ss, since, stop + 1, ssrc) <==>
            Covers(ss, since, stop, ssrc) || (ss[stop].ssrc == ssrc && Pending(ss[stop], since))
  {
    hide Pending;
  }

  /** A pass has a block about exactly the sources it covers. */
  lemma {:induction false} BlocksMeanCovered(ss: seq<SourceState>, since: Since, now: real, stop: nat, ssrc: u32)
    requires stop <= |ss|
    ensures HasBlock(BlocksTo(ss, since, now, stop), ssrc) <==> Covers(ss, since, stop, ssrc)
  {
    hide HasBlock, Covers, Pending;
    if stop == 0 {
      NobodyCovered(ss, since, ssrc);
    } else {
      BlocksMeanCovered(ss, since, now, stop - 1, ssrc);
      CoversNext(ss, since, stop - 1, ssrc);
      var before := BlocksTo(ss, since, now, stop - 1);
      HasBlockSnoc(before, BlockFor(ss[stop - 1], now), ssrc);
      assert before + [] == before;
    }
  }

  lemma NobodyCovered(ss: seq<SourceState>, since: Since, ssrc: u32)
    ensures !HasBlock([], ssrc) && !Covers(ss, since, 0, ssrc)
  {
  }

  /** And one about each. */
  lemma {:induction false} OneBlockEach(ss: seq<SourceState>, since: Since, now: real, stop: nat)
    requires DistinctSources(ss) && stop <= |ss|
    ensures var blocks := BlocksTo(ss, since, now, stop);
            forall m, n :: 0 <= m < n < |blocks| ==> blocks[m].ssrc != blocks[n].ssrc
  {
    if stop > 0 {
      OneBlockEach(ss, since, now, stop - 1);
      var before, x := BlocksTo(ss, since, now, stop - 1), ss[stop - 1].ssrc;
      BlocksMeanCovered(ss, since, now, stop - 1, x);
      assert !Covers(ss, since, stop - 1, x);
      assert BlockFor(ss[stop - 1], now).ssrc == x;
      hide BlockFor, Covers, Pending;
      forall m | 0 <= m < |before|
        ensures before[m].ssrc != x
      {
        assert !HasBlock(before, x);
      }
    }
  }

  /** How the table may change between two passes: sources join, sources leave, and those
      that stay may change in any way, except that no processed flag is cleared. */
  ghost predicate Evolves(before: seq<SourceState>, after: seq<SourceState>, joined: set<u32>) {
    && DistinctSources(after)
    && forall j :: 0 <= j < |after| && after[j].ssrc !in joined ==>
         exists i :: 0 <= i < |before| && before[i].ssrc == after[j].ssrc &&
                     (before[i].processed ==> after[j].processed)
  }

  /** A pass, and the sources that have joined since the pass before it. */
  datatype Pass = Pass(table: seq<SourceState>, since: Since, stop: nat, joined: set<u32>)

  predicate PassCovers(p: Pass, ssrc: u32) {
    Covers(p.table, p.since, p.stop, ssrc)
  }

  /** Passes one after the other, with no flag cleared in between. */
  ghost predicate NoClearing(passes: seq<Pass>) {
    && (forall k :: 0 <= k < |passes| ==> DistinctSources(passes[k].table))
    && (forall k :: 0 < k < |passes| ==>
          var p := passes[k - 1];
          Evolves(MarkTo(p.table, p.since, p.stop), passes[k].table, passes[k].joined))
  }

  /** Between flag clears a source gets a second block only if it has left the table and
      joined it again in between. */
  lemma NoSecondBlock(passes: seq<Pass>, i: nat, j: nat, ssrc: u32)
    requires NoClearing(passes) && i < j < |passes|
    requires PassCovers(passes[i], ssrc) && PassCovers(passes[j], ssrc)
    ensures exists k :: i < k <= j && ssrc in passes[k].joined
  {
    if forall k :: i < k <= j ==> ssrc !in passes[k].joined {
      StillMarked(passes, i, j, ssrc);
    }
  }

  predicate Marked(ss: seq<SourceState>, ssrc: u32) {
    forall i :: 0 <= i < |ss| && ss[i].ssrc == ssrc ==> ss[i].processed
  }

  /** A source that has been covered stays marked as long as it stays. */
  lemma {:induction false} StillMarked(passes: seq<Pass>, i: nat, j: nat, ssrc: u32)
    requires NoClearing(passes) && i < j < |passes| && PassCovers(passes[i], ssrc)
    requires forall k :: i < k <= j ==> ssrc !in passes[k].joined
    ensures Marked(passes[j].table, ssrc)
    decreases j
  {
    var p := passes[j - 1];
    var marked := MarkTo(p.table, p.since, p.stop);
    if i < j - 1 {
      StillMarked(passes, i, j - 1, ssrc);
    }
    assert Marked(marked, ssrc);
    assert Evolves(marked, passes[j].table, passes[j].joined);
    hide MarkTo, Covers;
  }

  // ---- how many sources are unprocessed ----

  function Unprocessed(ss: seq<SourceState>): set<u32> {
    if ss == [] then {}
    else
      var last := ss[|ss| - 1];
      Unprocessed(ss[..|ss| - 1]) + if last.processed then {} else {last.ssrc}
  }

  lemma {:induction false} UnprocessedMeans(ss: seq<SourceState>, ssrc: u32)
    ensures ssrc in Unprocessed(ss) <==> exists i :: 0 <= i < |ss| && ss[i].ssrc == ssrc && !ss[i].processed
  {
    if ss == [] {
    } else {
      var front, n := ss[..|ss| - 1], |ss| - 1;
      UnprocessedMeans(front, ssrc);
      if i :| 0 <= i < n && front[i].ssrc == ssrc && !front[i].processed {
        assert ss[i].ssrc == ssrc && !ss[i].processed;
      }
      if i :| 0 <= i < |ss| && ss[i].ssrc == ssrc && !ss[i].processed {
        assert i == n || (front[i].ssrc == ssrc && !front[i].processed);
      }
    }
  }

  lemma {:induction false} UnprocessedAtMost(ss: seq<SourceState>)
    ensures |Unprocessed(ss)| <= |ss|
  {
    if ss != [] {
      UnprocessedAtMost(ss[..|ss| - 1]);
    }
  }

  lemma SubsetSize<T>(a: set<T>, b: set<T>)
    requires a <= b
    ensures |a| <= |b|
  {
    var rest := b - a;
    assert b == a + rest;
  }

  /** Only sources that join are unprocessed anew. */
  lemma EvolvingAdds(before: seq<SourceState>, after: seq<SourceState>, joined: set<u32>)
    requires Evolves(before, after, joined)
    ensures |Unprocessed(after)| <= |Unprocessed(before)| + |joined|
  {
    forall x | x in Unprocessed(after)
      ensures x in Unprocessed(before) + joined
    {
      UnprocessedMeans(after, x);
      UnprocessedMeans(before, x);
    }
    SubsetSize(Unprocessed(after), Unprocessed(before) + joined);
  }

  lemma {:induction false} SomePending(ss: seq<SourceState>, since: Since, now: real, stop: nat)
    requires stop <= |ss| && BlocksTo(ss, since, now, stop) != []
    ensures exists i :: 0 <= i < stop && Pending(ss[i], since)
  {
    hide BlockFor, Pending;
    assert stop > 0;
    if !Pending(ss[stop - 1], since) {
      assert BlocksTo(ss, since, now, stop) == BlocksTo(ss, since, now, stop - 1) + [];
      SomePending(ss, since, now, stop - 1);
    }
  }

  /** Marking adds no unprocessed source. */
  lemma MarkingKeeps(ss: seq<SourceState>, since: Since, stop: nat, ssrc: u32)
    requires ssrc in Unprocessed(MarkTo(ss, since, stop))
    ensures ssrc in Unprocessed(ss)
  {
    hide Unprocessed, Pending;
    var marked := MarkTo(ss, since, stop);
    UnprocessedMeans(marked, ssrc);
    UnprocessedMeans(ss, ssrc);
    var i :| 0 <= i < |marked| && marked[i].ssrc == ssrc && !marked[i].processed;
    assert ss[i].ssrc == ssrc && !ss[i].processed;
  }

  /** A source that gets its block is unprocessed before, and not after. */
  lemma MarkingTakes(ss: seq<SourceState>, since: Since, stop: nat, i: nat)
    requires DistinctSources(ss) && i < stop <= |ss| && Pending(ss[i], since)
    ensures ss[i].ssrc in Unprocessed(ss) && ss[i].ssrc !in Unprocessed(MarkTo(ss, since, stop))
  {
    hide Unprocessed, Eligible;
    UnprocessedMeans(MarkTo(ss, since, stop), ss[i].ssrc);
    UnprocessedMeans(ss, ss[i].ssrc);
  }

  /** A pass that hands out a block leaves fewer sources unprocessed. */
  lemma PassProgress(ss: seq<SourceState>, since: Since, now: real, stop: nat)
    requires DistinctSources(ss) && stop <= |ss| && BlocksTo(ss, since, now, stop) != []
    ensures |Unprocessed(MarkTo(ss, since, stop))| < |Unprocessed(ss)|
  {
    hide Unprocessed, MarkTo, DistinctSources, Pending;
    SomePending(ss, since, now, stop);
    var i :| 0 <= i < stop && Pending(ss[i], since);
    MarkingTakes(ss, since, stop, i);
    var x, before, after := ss[i].ssrc, Unprocessed(ss), Unprocessed(MarkTo(ss, since, stop));
    forall y | y in after
      ensures y in before - {x}
    {
      MarkingKeeps(ss, since, stop, y);
    }
    SubsetSize(after, before - {x});
  }
}
