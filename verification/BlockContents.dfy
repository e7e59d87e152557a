/** What the report blocks of a pass say about their sources (section 6.4.1 of RFC 3550),
    field by field, and how the blocks of one report after the other join. */
module BlockContents {
  import opened Bytes
  import opened Wrappers
  import opened CompoundFormat
  import opened ReportPass

  const MODULUS := 0x1_0000_0000

  /** The numbers differ by a multiple of 2^32. */
  predicate Congruent(a: int, b: int) {
    (a - b) % MODULUS == 0
  }

  lemma WrapCongruent(x: int)
    ensures Congruent(Wrap32(x), x)
  {
    var q := x / MODULUS;
    assert x == q * MODULUS + x % MODULUS;
    MultipleOf(Wrap32(x) - x, -q);
  }

  lemma MultipleOf(x: int, q: int)
    requires x == q * MODULUS
    ensures x % MODULUS == 0
  {
  }

  lemma Quotient(x: int) returns (q: int)
    requires x % MODULUS == 0
    ensures x == q * MODULUS
  {
    q := x / MODULUS;
  }

  lemma CongruentSums(a: int, b: int, c: int, d: int)
    requires Congruent(a, b) && Congruent(c, d)
    ensures Congruent(a + c, b + d) && Congruent(a - c, b - d) && Congruent(b, a)
  {
    var q := Quotient(a - b);
    var r := Quotient(c - d);
    MultipleOf((a + c) - (b + d), q + r);
    MultipleOf((a - c) - (b - d), q - r);
    MultipleOf(b - a, -q);
  }

  lemma CongruentChain(a: int, b: int, c: int)
    requires Congruent(a, b) && Congruent(b, c)
    ensures Congruent(a, c)
  {
    CongruentSums(a, b, b, c);
    assert (a + b) - (b + c) == a - c;
  }

  // ---- the fields of one block ----

  /** The fraction of packets lost in an interval, in 1/256 and rounded down: it is right
      exactly when at least one of those expected has come; when none has it says 0. */
  lemma FractionMeans(expected: u32, received: u32)
    requires received <= expected && expected > 0
    ensures var f, lost := FractionLost(expected, received), expected - received;
            (f * expected <= 256 * lost < (f + 1) * expected <==> received > 0) && (received == 0 ==> f == 0)
  {
    var lost: nat := expected - received;
    var q := lost * 256 / expected;
    assert FractionLost(expected, received) == q % 0x100;
    hide FractionLost;
    Division(lost * 256, expected);
    if received > 0 {
      Below(q, 256, expected);
      assert q % 0x100 == q;
    } else {
      Exactly(256, expected);
      assert q == 256;
    }
  }

  lemma Division(x: nat, y: nat)
    requires y > 0
    ensures x / y * y <= x < (x / y + 1) * y
  {
    assert x == x / y * y + x % y;
  }

  lemma Below(a: int, b: int, y: nat)
    requires a * y < b * y
    ensures a < b
  {
    if a >= b {
      AtLeast(a, b, y);
    }
  }

  lemma AtLeast(a: int, b: int, y: nat)
    requires a >= b
    ensures a * y >= b * y
  {
    assert (a - b) * y == a * y - b * y;
  }

  lemma Exactly(q: nat, y: nat)
    requires y > 0
    ensures q * y / y == q
  {
    Division(q * y, y);
    Below(q * y / y, q + 1, y);
    Below(q, q * y / y + 1, y);
  }

  /** The fraction lost since the last block, for the number of packets expected since. */
  predicate TellsFraction(fraction: byte, expected: u32, received: u32) {
    if received == 0 || expected < received then fraction == 0
    else fraction * expected <= 256 * (expected - received) < (fraction + 1) * expected
  }

  /** The middle 32 bits of the sender's 64-bit NTP time, and the delay since its report
      came in, in 1/65536 seconds and rounded down while it has 32 bits; both 0 without. */
  predicate TellsTimes(b: ReportBlock, sr: Option<SrInfo>, now: real) {
    match sr
    case None => b.lsr == 0 && b.dlsr == 0
    case Some(sr) =>
      && b.lsr == (sr.msw * MODULUS + sr.lsw) / 0x1_0000 % MODULUS
      && var delay := (now - sr.receiveTime) * 65536.0;
         0.0 <= delay < MODULUS as real ==> b.dlsr as real <= delay < b.dlsr as real + 1.0
  }

  /** The block tells the source's state: its highest number and jitter as they are, and
      the packets lost since the beginning as a 32-bit number. */
  ghost predicate TellsAbout(b: ReportBlock, s: SourceState, now: real) {
    var st := s.stats;
    && b.ssrc == s.ssrc && b.extHighSeq == st.extHighSeq && b.jitter == st.jitter
    && Congruent(b.packetsLost, st.extHighSeq - st.baseSeq - st.packetsReceived)
    && (forall expected: u32 :: Congruent(expected, st.extHighSeq - st.savedExtSeq) ==>
          TellsFraction(b.fractionLost, expected, st.newPackets))
    && TellsTimes(b, st.sr, now)
  }

  lemma MiddleBits(msw: u32, lsw: u32)
    ensures (msw * MODULUS + lsw) / 0x1_0000 % MODULUS == msw % 0x1_0000 * 0x1_0000 + lsw / 0x1_0000
  {
    var (high: nat, low: nat) := (msw / 0x1_0000, msw % 0x1_0000);
    assert msw == high * 0x1_0000 + low;
    assert msw * MODULUS + lsw == (msw * 0x1_0000 + lsw / 0x1_0000) * 0x1_0000 + lsw % 0x1_0000;
    assert (msw * MODULUS + lsw) / 0x1_0000 == msw * 0x1_0000 + lsw / 0x1_0000;
    assert msw * 0x1_0000 + lsw / 0x1_0000 == high * MODULUS + (low * 0x1_0000 + lsw / 0x1_0000);
  }

  lemma SignedCongruent(x: u32)
    ensures Congruent(ToSigned32(x), x)
  {
  }

  lemma SameNumber(a: u32, b: u32)
    requires Congruent(a, b)
    ensures a == b
  {
  }

  lemma LostField(s: SourceState, now: real)
    ensures BlockFor(s, now).packetsLost ==
            ToSigned32(Wrap32(Wrap32(s.stats.extHighSeq - s.stats.baseSeq) - s.stats.packetsReceived))
  {
    hide FractionLost, Wrap32, ToSigned32;
  }

  lemma LostMeans(s: SourceState, now: real)
    ensures Congruent(BlockFor(s, now).packetsLost,
                      s.stats.extHighSeq - s.stats.baseSeq - s.stats.packetsReceived)
  {
    var st := s.stats;
    var expected := Wrap32(st.extHighSeq - st.baseSeq);
    var lost := Wrap32(expected - st.packetsReceived);
    hide BlockFor, Congruent, Wrap32, ToSigned32;
    LostField(s, now);
    WrapCongruent(st.extHighSeq - st.baseSeq);
    WrapCongruent(expected - st.packetsReceived);
    SignedCongruent(lost);
    Reflexive(st.packetsReceived);
    CongruentSums(expected, st.extHighSeq - st.baseSeq, st.packetsReceived, st.packetsReceived);
    CongruentChain(ToSigned32(lost), lost, expected - st.packetsReceived);
    CongruentChain(ToSigned32(lost), expected - st.packetsReceived,
                   st.extHighSeq - st.baseSeq - st.packetsReceived);
  }

  lemma Reflexive(x: int)
    ensures Congruent(x, x)
  {
  }

  lemma FractionTells(s: SourceState, now: real, expected: u32)
    requires Congruent(expected, s.stats.extHighSeq - s.stats.savedExtSeq)
    ensures BlockFor(s, now).fractionLost == FractionLost(expected, s.stats.newPackets)
  {
    var x := s.stats.extHighSeq - s.stats.savedExtSeq;
    assert BlockFor(s, now).fractionLost == FractionLost(Wrap32(x), s.stats.newPackets);
    hide BlockFor, FractionLost, Congruent, Wrap32;
    WrapCongruent(x);
    Reflexive(0);
    CongruentSums(expected, x, 0, 0);
    CongruentSums(Wrap32(x), x, 0, 0);
    CongruentChain(expected, x, Wrap32(x));
    SameNumber(expected, Wrap32(x));
  }

  lemma SenderTimes(s: SourceState, now: real)
    ensures TellsTimes(BlockFor(s, now), s.stats.sr, now)
  {
    hide FractionLost, ToSigned32;
    if s.stats.sr.Some? {
      MiddleBits(s.stats.sr.value.msw, s.stats.sr.value.lsw);
    }
  }

  lemma BlockTells(s: SourceState, now: real)
    ensures TellsAbout(BlockFor(s, now), s, now)
  {
    var b := BlockFor(s, now);
    assert b.ssrc == s.ssrc && b.extHighSeq == s.stats.extHighSeq && b.jitter == s.stats.jitter;
    LostMeans(s, now);
    SenderTimes(s, now);
    forall expected: u32 | Congruent(expected, s.stats.extHighSeq - s.stats.savedExtSeq)
      ensures TellsFraction(b.fractionLost, expected, s.stats.newPackets)
    {
      FractionTells(s, now, expected);
      FractionIsTold(expected, s.stats.newPackets);
      hide BlockFor, Congruent, FractionLost, TellsFraction;
    }
    hide BlockFor, Congruent, FractionLost, TellsFraction, TellsTimes;
  }

  lemma FractionIsTold(expected: u32, received: u32)
    ensures TellsFraction(FractionLost(expected, received), expected, received)
  {
    if received <= expected && expected > 0 {
      FractionMeans(expected, received);
      hide FractionLost;
    }
  }

  // ---- the blocks of a pass ----

  /** A source gets a block: it is not ourselves and no contributing source, it has sent
      data, has been heard since the last packet was built, and has had no block since the
      flags were cleared. */
  predicate Reportable(s: SourceState, since: Since) {
    && !s.own && !s.csrc && s.hasSentData && !s.processed
    && (since.After? ==> s.lastRtpTime > since.prevBuildTime)
  }

  lemma PassNext(ss: seq<SourceState>, since: Since, now: real, stop: nat)
    requires stop < |ss|
    ensures BlocksTo(ss, since, now, 0) == []
    ensures BlocksTo(ss, since, now, stop + 1) ==
            if Reportable(ss[stop], since) then BlocksTo(ss, since, now, stop) + [BlockFor(ss[stop], now)]
            else BlocksTo(ss, since, now, stop)
  {
    hide BlockFor;
    assert BlocksTo(ss, since, now, stop) + [] == BlocksTo(ss, since, now, stop);
  }

  /** Every block tells about a reportable source in front of `stop`, in the order of the
      table, and every such source has one; `at` says which. */
  ghost predicate TellInOrder(ss: seq<SourceState>, since: Since, now: real, stop: nat, blocks: seq<ReportBlock>,
                              at: seq<nat>) {
    && stop <= |ss| && |at| == |blocks|
    && (forall n :: 0 <= n < |at| ==>
          at[n] < stop && Reportable(ss[at[n]], since) && TellsAbout(blocks[n], ss[at[n]], now))
    && (forall m, n :: 0 <= m < n < |at| ==> at[m] < at[n])
    && (forall i :: 0 <= i < stop && Reportable(ss[i], since) ==> i in at)
  }

  lemma OneMoreTells(ss: seq<SourceState>, since: Since, now: real, stop: nat, blocks: seq<ReportBlock>,
                     at: seq<nat>, b: ReportBlock)
    requires TellInOrder(ss, since, now, stop, blocks, at) && stop < |ss|
    requires Reportable(ss[stop], since) && TellsAbout(b, ss[stop], now)
    ensures TellInOrder(ss, since, now, stop + 1, blocks + [b], at + [stop])
  {
    hide Reportable, TellsAbout;
    var at' := at + [stop];
    forall i | 0 <= i < stop + 1 && Reportable(ss[i], since)
      ensures i in at'
    {
      assert at'[|at|] == stop;
    }
  }

  lemma NoMoreTells(ss: seq<SourceState>, since: Since, now: real, stop: nat, blocks: seq<ReportBlock>,
                    at: seq<nat>)
    requires TellInOrder(ss, since, now, stop, blocks, at) && stop < |ss| && !Reportable(ss[stop], since)
    ensures TellInOrder(ss, since, now, stop + 1, blocks, at)
  {
    hide Reportable, TellsAbout;
  }

  lemma NothingTells(ss: seq<SourceState>, since: Since, now: real)
    ensures TellInOrder(ss, since, now, 0, BlocksTo(ss, since, now, 0), [])
  {
  }

  lemma {:induction false} PassTells(ss: seq<SourceState>, since: Since, now: real, stop: nat)
    returns (at: seq<nat>)
    requires stop <= |ss|
    ensures TellInOrder(ss, since, now, stop, BlocksTo(ss, since, now, stop), at)
  {
    hide BlocksTo, TellsAbout, BlockFor, Reportable, TellInOrder;
    if stop == 0 {
      at := [];
      NothingTells(ss, since, now);
    } else {
      at := PassTells(ss, since, now, stop - 1);
      var blocks := BlocksTo(ss, since, now, stop - 1);
      PassNext(ss, since, now, stop - 1);
      BlockTells(ss[stop - 1], now);
      if Reportable(ss[stop - 1], since) {
        OneMoreTells(ss, since, now, stop - 1, blocks, at, BlockFor(ss[stop - 1], now));
        at := at + [stop - 1];
      } else {
        NoMoreTells(ss, since, now, stop - 1, blocks, at);
      }
    }
  }

  /** What a pass leaves of the table: a source that got its block starts a new interval
      where its highest number stood, and is marked; nothing else changes. */
  lemma PassMarks(ss: seq<SourceState>, since: Since, stop: nat, i: nat)
    requires i < |ss|
    ensures var was, now := ss[i], MarkTo(ss, since, stop)[i];
            if i < stop && Reportable(was, since)
            then && now.processed && now.stats.newPackets == 0 && now.stats.savedExtSeq == was.stats.extHighSeq
                 && now == was.(processed := true, stats := now.stats)
                 && now.stats == was.stats.(newPackets := 0, savedExtSeq := was.stats.extHighSeq)
            else now == was
  {
  }

  // ---- one report after the other ----

  /** What happens to a source between two reports: packets come in, the highest number
      and the jitter move, a sender report may come in. */
  datatype Interval = Interval(received: nat, high: u32, jitter: u32, sr: Option<SrInfo>)

  function Heard(s: SourceState, iv: Interval): SourceState {
    s.(stats := s.stats.(newPackets := Wrap32(s.stats.newPackets + iv.received),
                         packetsReceived := Wrap32(s.stats.packetsReceived + iv.received),
                         extHighSeq := iv.high, jitter := iv.jitter, sr := iv.sr))
  }

  /** The source after intervals that each ended with a block about it. */
  function AfterReports(s: SourceState, ivs: seq<Interval>): SourceState {
    if ivs == [] then s else Reported(Heard(AfterReports(s, ivs[..|ivs| - 1]), ivs[|ivs| - 1]))
  }

  /** The block at the end of the last interval. */
  function LastBlock(s: SourceState, ivs: seq<Interval>, now: real): ReportBlock
    requires ivs != []
  {
    BlockFor(Heard(AfterReports(s, ivs[..|ivs| - 1]), ivs[|ivs| - 1]), now)
  }

  /** Packets that should have come and did not, added up over the intervals: each expects
      the numbers from the highest of the one before up to its own. */
  function LostIn(s: SourceState, ivs: seq<Interval>): int {
    if ivs == [] then 0 - s.stats.newPackets as int
    else
      var front, last := ivs[..|ivs| - 1], ivs[|ivs| - 1];
      var from := if front == [] then s.stats.savedExtSeq else front[|front| - 1].high;
      LostIn(s, front) + (last.high - from) - last.received
  }

  /** The fraction of a block is about what came after the block before it: expected are
      the numbers from the highest that block has told. */
  lemma NextFraction(s: SourceState, ivs: seq<Interval>, now: real, before: real)
    requires |ivs| >= 2 && ivs[|ivs| - 1].received < MODULUS
    ensures var earlier, later := LastBlock(s, ivs[..|ivs| - 1], before), LastBlock(s, ivs, now);
            later.fractionLost == FractionLost(Wrap32(later.extHighSeq - earlier.extHighSeq), ivs[|ivs| - 1].received)
  {
    hide FractionLost;
    var front, last := ivs[..|ivs| - 1], ivs[|ivs| - 1];
    var st := AfterReports(s, front).stats;
    assert st.newPackets == 0 && st.savedExtSeq == front[|front| - 1].high;
    var n: nat := last.received;
    assert Wrap32(0 + n) == n;
  }

  lemma LastInterval(s: SourceState, ivs: seq<Interval>)
    requires ivs != []
    ensures var front, last := ivs[..|ivs| - 1], ivs[|ivs| - 1];
            var st, st' := AfterReports(s, front).stats, AfterReports(s, ivs).stats;
            && st'.packetsReceived == Wrap32(st.packetsReceived + last.received)
            && st'.baseSeq == st.baseSeq && st'.extHighSeq == last.high
            && LostIn(s, ivs) == LostIn(s, front) +
                                 (last.high - (if front == [] then s.stats.savedExtSeq else front[|front| - 1].high)) -
                                 last.received
  {
    hide Wrap32;
  }

  lemma LossesNext(lost: int, from: int, base: int, received: int, high: int, more: nat)
    requires Congruent(lost, from - base - received)
    ensures Congruent(lost + (high - from) - more, high - base - Wrap32(received + more))
  {
    hide Congruent, Wrap32;
    var step := high - from - more;
    Reflexive(step);
    CongruentSums(lost, from - base - received, step, step);
    WrapCongruent(received + more);
    Reflexive(high - base);
    Reflexive(0);
    CongruentSums(Wrap32(received + more), received + more, 0, 0);
    CongruentSums(high - base, high - base, received + more, Wrap32(received + more));
    CongruentChain(lost + step, high - base - (received + more), high - base - Wrap32(received + more));
  }

  lemma {:induction false} CountersOverReports(s: SourceState, ivs: seq<Interval>)
    requires s.stats.newPackets == s.stats.packetsReceived && s.stats.savedExtSeq == s.stats.baseSeq
    ensures var st := AfterReports(s, ivs).stats;
            && st.baseSeq == s.stats.baseSeq
            && (ivs != [] ==> st.extHighSeq == ivs[|ivs| - 1].high)
            && Congruent(LostIn(s, ivs),
                         (if ivs == [] then s.stats.baseSeq else st.extHighSeq) - st.baseSeq - st.packetsReceived)
  {
    if ivs == [] {
      Reflexive(0 - s.stats.newPackets as int);
    } else {
      var front, last := ivs[..|ivs| - 1], ivs[|ivs| - 1];
      CountersOverReports(s, front);
      var st, st' := AfterReports(s, front).stats, AfterReports(s, ivs).stats;
      var from := if front == [] then s.stats.baseSeq else st.extHighSeq;
      hide Congruent, Wrap32, AfterReports, LostIn;
      LastInterval(s, ivs);
      LossesNext(LostIn(s, front), from, st.baseSeq, st.packetsReceived, last.high, last.received);
    }
  }

  /** The loss a block tells is what its intervals and those of all blocks before it have
      lost together, as a 32-bit number, since the first packet. */
  lemma LossesAddUp(s: SourceState, ivs: seq<Interval>, now: real)
    requires s.stats.newPackets == s.stats.packetsReceived && s.stats.savedExtSeq == s.stats.baseSeq && ivs != []
    ensures Congruent(LastBlock(s, ivs, now).packetsLost, LostIn(s, ivs))
  {
    hide Congruent, BlockFor, LostIn;
    CountersOverReports(s, ivs);
    var heard := Heard(AfterReports(s, ivs[..|ivs| - 1]), ivs[|ivs| - 1]);
    LostMeans(heard, now);
    var st := AfterReports(s, ivs).stats;
    assert st.extHighSeq == heard.stats.extHighSeq && st.baseSeq == heard.stats.baseSeq
           && st.packetsReceived == heard.stats.packetsReceived;
    Reflexive(0);
    CongruentSums(LostIn(s, ivs), st.extHighSeq - st.baseSeq - st.packetsReceived, 0, 0);
    CongruentChain(LastBlock(s, ivs, now).packetsLost, st.extHighSeq - st.baseSeq - st.packetsReceived, LostIn(s, ivs));
  }
}
