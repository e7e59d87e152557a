/** What the steps of the scheduler come to, in terms of the parameters, the members and
    the packets heard: the length of every interval, how a draw spreads it, what happens
    to the timer when members leave, and what the averages and counters stand for. */
module SchedulerLaws {
  import opened SchedulerModel

  // ---- arithmetic ----

  lemma QuotientAtMost(x: real, y: real, z: real)
    requires y > 0.0
    ensures x / y <= z <==> x <= z * y
  {
    var q := x / y;
    assert q * y == x;
    Order(q, z, y);
  }

  lemma Order(x: real, z: real, y: real)
    requires y > 0.0
    ensures x <= z <==> x * y <= z * y
  {
    if x <= z {
      NotNegative(z - x, y);
      assert (z - x) * y == z * y - x * y;
    } else {
      Positive(x - z, y);
      assert (x - z) * y == x * y - z * y;
    }
  }

  lemma Positive(x: real, y: real)
    requires x > 0.0 && y > 0.0
    ensures x * y > 0.0
  {
  }

  lemma Quotient(x: real, y: real)
    requires y != 0.0
    ensures x / y * y == x
  {
  }

  lemma Regroup(x: real, y: real, z: real)
    ensures x * y * z == x * (y * z)
  {
  }

  // ---- intervals ----

  /** The longer of the minimum and the time in which n packets of this size take up the
      bandwidth. */
  lemma LongerMeans(tmin: real, n: int, size: nat, bandwidth: real)
    requires bandwidth > 0.0
    ensures var td := Longer(tmin, n, size, bandwidth);
            && (n as real * size as real <= tmin * bandwidth ==> td == tmin)
            && (n as real * size as real > tmin * bandwidth ==> td * bandwidth == n as real * size as real)
  {
    var packetTime := size as real / bandwidth;
    Quotient(size as real, bandwidth);
    Regroup(n as real, packetTime, bandwidth);
    Order(n as real * packetTime, tmin, bandwidth);
  }

  /** Section 6.3.1 of RFC 3550: the members who share the bandwidth with us are the
      senders or the others when senders are at most their fraction of all, and all
      members otherwise. */
  lemma Sharing(p: Params, m: Members, sender: bool)
    requires ValidParams(p)
    ensures var total := if m.active == 0 then 1 else m.active;
            if m.senders as real <= p.senderFraction * total as real
            then && Share(p, m, sender) ==
                    (if sender then p.senderFraction * p.bandwidth else (1.0 - p.senderFraction) * p.bandwidth)
                 && GroupSize(p, m, sender) == (if sender then m.senders else total - m.senders)
            else Share(p, m, sender) == p.bandwidth && GroupSize(p, m, sender) == total
  {
    QuotientAtMost(m.senders as real, Total(m) as real, p.senderFraction);
  }

  lemma SharesNotNegative(p: Params, m: Members, sender: bool)
    requires ValidParams(p)
    ensures Share(p, m, sender) >= 0.0
  {
    NotNegative(p.senderFraction, p.bandwidth);
    NotNegative(1.0 - p.senderFraction, p.bandwidth);
  }

  /** The deterministic interval.  When a packet from each member of the group fits the
      group's share within it, it is the minimum interval, or half of it before the first
      packet when so configured; otherwise the packets of the group take up exactly the
      group's share in it. */
  lemma IntervalMeans(s: State, p: Params, m: Members, sender: bool)
    requires ValidParams(p) && Share(p, m, sender) != 0.0
    ensures var td := DeterministicInterval(s, p, m, sender);
            var bytes := GroupSize(p, m, sender) as real * s.avgPacketSize as real;
            && (s.hasSent || !p.useHalfAtStartup ==>
                  if bytes <= p.minInterval * Share(p, m, sender) then td == p.minInterval
                  else td * Share(p, m, sender) == bytes)
            && (!s.hasSent && p.useHalfAtStartup ==>
                  if bytes <= p.minInterval / 2.0 * Share(p, m, sender) then td == p.minInterval / 2.0
                  else td * Share(p, m, sender) == bytes)
  {
    hide Longer, Share, GroupSize, SendersAreFew;
    SharesNotNegative(p, m, sender);
    var n, share := GroupSize(p, m, sender), Share(p, m, sender);
    LongerMeans(MinimumNow(p, s.hasSent), n, s.avgPacketSize, share);
    assert DeterministicInterval(s, p, m, sender) == Longer(MinimumNow(p, s.hasSent), n, s.avgPacketSize, share);
    hide DeterministicInterval;
  }

  /** Half the minimum at the start is exactly what the first packet takes away. */
  lemma HalfAtStartup(s: State, p: Params, m: Members, sender: bool)
    requires ValidParams(p) && p.useHalfAtStartup && Share(p, m, sender) != 0.0
    requires GroupSize(p, m, sender) as real * s.avgPacketSize as real <= p.minInterval / 2.0 * Share(p, m, sender)
    ensures DeterministicInterval(s.(hasSent := false), p, m, sender) == p.minInterval / 2.0
    ensures DeterministicInterval(s.(hasSent := true), p, m, sender) == p.minInterval
  {
    hide DeterministicInterval, Share, GroupSize, SendersAreFew;
    SharesNotNegative(p, m, sender);
    Order(p.minInterval / 2.0, p.minInterval, Share(p, m, sender));
    IntervalMeans(s.(hasSent := false), p, m, sender);
    IntervalMeans(s.(hasSent := true), p, m, sender);
  }

  /** The interval of a BYE packet that has to wait: all members who say goodbye share the
      receivers' bandwidth, and the minimum is halved when so configured. */
  lemma ByeIntervalMeans(s: State, p: Params, r: real)
    requires ValidParams(p) && s.byeScheduled && !s.sendByeNow && ByeShare(p) != 0.0
    ensures var share, least := (1.0 - p.senderFraction) * p.bandwidth,
                                if p.useHalfAtStartup then p.minInterval / 2.0 else p.minInterval;
            var bytes := s.byeMembers as real * s.avgByeSize as real;
            exists td: real ::
              && ByeInterval(s, p, r) == Spread(td, r)
              && if bytes <= least * share then td == least else td * share == bytes
  {
    NotNegative(1.0 - p.senderFraction, p.bandwidth);
    var least := if p.useHalfAtStartup then p.minInterval / 2.0 else p.minInterval;
    LongerMeans(least, s.byeMembers, s.avgByeSize, ByeShare(p));
    var td := Longer(least, s.byeMembers, s.avgByeSize, ByeShare(p));
    assert ByeInterval(s, p, r) == Spread(td, r);
    hide Spread, Longer, ByeInterval;
  }

  /** When a BYE packet is scheduled the timer starts anew: at once, when we are fewer than
      50 and so configured, and else after the BYE interval of one packet. */
  lemma ByeTimer(s: State, p: Params, m: Members, size: nat, now: real, r: real)
    requires ValidParams(p) && CanSchedule(s, p, m) && !s.byeScheduled
    ensures var s', bytes := ScheduleBye(s, p, m, size, now, r), size as real + s.headerOverhead as real;
            && s'.prev == now && s'.byeScheduled && !s'.firstCall
            && if p.immediateBye && m.active < 50 then s'.sendByeNow && s'.next == now
               else !s'.sendByeNow && exists td: real ::
                 && s'.next == now + Spread(td, r)
                 && ByeLength(p, bytes, td)
  {
    hide Spread, Longer;
    var s1 := ByeWaiting(s, p, m, size, now);
    if !s1.sendByeNow {
      var td := ByeIntervalIs(s1, p, r);
      assert s1.byeMembers as real * s1.avgByeSize as real == size as real + s.headerOverhead as real;
    }
  }

  /** The length of a BYE interval in which so many bytes are sent: the minimum, halved when
      so configured, or the time in which they take up the receivers' bandwidth. */
  predicate ByeLength(p: Params, bytes: real, td: real) {
    var share, least := (1.0 - p.senderFraction) * p.bandwidth,
                        if p.useHalfAtStartup then p.minInterval / 2.0 else p.minInterval;
    if bytes <= least * share then td == least else td * share == bytes
  }

  lemma ByeIntervalIs(s: State, p: Params, r: real) returns (td: real)
    requires ValidParams(p) && s.byeScheduled && !s.sendByeNow && ByeShare(p) != 0.0
    ensures ByeInterval(s, p, r) == Spread(td, r) && ByeLength(p, s.byeMembers as real * s.avgByeSize as real, td)
  {
    hide Spread;
    ByeIntervalMeans(s, p, r);
    var share, least := (1.0 - p.senderFraction) * p.bandwidth,
                        if p.useHalfAtStartup then p.minInterval / 2.0 else p.minInterval;
    var bytes := s.byeMembers as real * s.avgByeSize as real;
    td :| ByeInterval(s, p, r) == Spread(td, r) && if bytes <= least * share then td == least else td * share == bytes;
  }

  /** A poll for a BYE packet that waits, once its timer has expired: it is due exactly if
      the BYE interval of all packets heard so far has passed since it was scheduled, and
      else the timer is set to when it will have. */
  lemma ByePoll(s: State, p: Params, m: Members, now: real, later: real, r: real, r2: real) returns (td: real)
    requires ValidParams(p) && CanPoll(s, p, m, now, r) && !s.firstCall && now >= s.next
    requires s.byeScheduled && !s.sendByeNow
    ensures ByeLength(p, s.byeMembers as real * s.avgByeSize as real, td)
    ensures var (s', due) := IsTime(s, p, m, now, later, r, r2);
            && (due <==> s.prev + Spread(td, r) <= now)
            && (due ==> !s'.byeScheduled && s'.prev == now)
            && (!due ==> s' == s.(next := s.prev + Spread(td, r), pmembers := m.active))
  {
    td := ByeIntervalIs(s, p, r);
    hide Spread, ByeInterval, ByeLength, DeterministicInterval;
  }

  /** A draw adds to the interval in proportion, from half of it over 1.21828 ... */
  lemma SpreadMeans(td: real, r: real, r2: real)
    ensures COMPENSATION * Spread(td, 0.0) == td / 2.0
    ensures COMPENSATION * (Spread(td, r2) - Spread(td, r)) == td * (r2 - r)
  {
    assert td * (r2 + 0.5) - td * (r + 0.5) == td * (r2 - r);
    assert td * (0.0 + 0.5) == td / 2.0;
  }

  /** ... so that every length up to one and a half times it over 1.21828 is drawn. */
  lemma SpreadReaches(td: real, t: real)
    requires td > 0.0 && 0.5 * td / COMPENSATION <= t < 1.5 * td / COMPENSATION
    ensures exists r :: IsDraw(r) && Spread(td, r) == t
  {
    var r := t * COMPENSATION / td - 0.5;
    Quotient(t * COMPENSATION, td);
    QuotientAtMost(t * COMPENSATION, td, 1.5);
    Order(0.5, t * COMPENSATION / td, td);
    Order(1.5, t * COMPENSATION / td, td);
    assert td * (r + 0.5) == t * COMPENSATION;
    assert IsDraw(r) && Spread(td, r) == t;
  }

  // ---- the timer ----

  /** Where a poll without a BYE leaves the timer.  At the first call, and when it says
      yes, a new interval starts at the reading of the clock and the timer is set within
      the spread of that interval; when the timer had expired and it says no, the timer is
      set later within the spread of the interval that had started before. */
  lemma PollSetsTimer(p: Params, s: State, m: Members, now: real, later: real, r: real, r2: real)
    requires ValidParams(p) && CanPoll(s, p, m, now, r) && IsDraw(r) && IsDraw(r2) && !s.byeScheduled
    ensures var (s', due) := IsTime(s, p, m, now, later, r, r2);
            && (!s.firstCall && now < s.next ==> s' == s && !due)
            && (s.firstCall || now >= s.next ==>
                  && CanDivide(p, m) && !s'.firstCall && s'.pmembers == m.active
                  && var td := DeterministicInterval(s, p, m, m.weAreSender);
                     if s.firstCall || due then
                       && s'.prev == now && (s.firstCall ==> !due)
                       && later + 0.5 * td / COMPENSATION <= s'.next <= later + 1.5 * td / COMPENSATION
                     else
                       && s'.prev == s.prev && s'.next > now
                       && s.prev + 0.5 * td / COMPENSATION <= s'.next <= s.prev + 1.5 * td / COMPENSATION)
  {
    if CanDivide(p, m) {
      var td := DeterministicInterval(s, p, m, m.weAreSender);
      SpreadBounds(td, r);
      SpreadBounds(td, r2);
      SameInterval(s, s.(byeScheduled := false, prev := now, pmembers := m.active), p, m);
      SameInterval(s, s.(firstCall := false, prev := now, pmembers := m.active), p, m);
      hide DeterministicInterval, Spread;
    }
  }

  /** The delay that is told is the time left on the timer: asked at `last`, a poll before
      it has passed says no, and it has passed exactly when the timer has expired. */
  lemma DelayMeans(p: Params, s: State, m: Members, now: real, later: real, last: real, r: real, t: real)
    requires s.firstCall ==> CanDivide(p, m)
    requires t >= last
    ensures var (s', delay) := TransmissionDelay(s, p, m, now, later, last, r);
            && delay >= 0.0 && !s'.firstCall && (!s.firstCall ==> s' == s)
            && (t < last + delay <==> t < s'.next)
            && (last <= s'.next ==> last + delay == s'.next)
  {
    hide TransmissionInterval;
  }

  // ---- members who leave ----

  lemma PartMeans(members: nat, pmembers: int, span: real)
    requires pmembers != 0
    ensures Part(members, pmembers, span) * pmembers as real == members as real * span
  {
    var ratio := Ratio(members, pmembers);
    Quotient(members as real, pmembers as real);
    assert ratio * span * pmembers as real == ratio * pmembers as real * span;
  }

  /** Section 6.3.4 of RFC 3550: when members leave, what is left on the timer and what
      has passed of the interval shrink in proportion to the members. */
  lemma LeavingScales(p: Params, s: State, members: nat, now: real)
    requires !s.firstCall && members < s.pmembers && s.prev <= now <= s.next
    ensures var s' := Step(p, s, MembersLeft(members, now)).0;
            && (s'.next - now) * s.pmembers as real == members as real * (s.next - now)
            && (now - s'.prev) * s.pmembers as real == members as real * (now - s.prev)
            && s'.pmembers == members && s' == s.(next := s'.next, prev := s'.prev, pmembers := members)
  {
    PartMeans(members, s.pmembers, s.next - now);
    PartMeans(members, s.pmembers, now - s.prev);
    hide Part;
  }

  lemma PartSmaller(members: nat, pmembers: int, span: real)
    requires members < pmembers && span > 0.0
    ensures 0.0 <= Part(members, pmembers, span) < span
  {
    PartMeans(members, pmembers, span);
    PartShrinks(members, pmembers, span);
    Positive((pmembers - members) as real, span);
    assert (pmembers - members) as real * span == pmembers as real * span - members as real * span;
    hide Part;
  }

  /** So the timer runs out earlier when members leave while it lies ahead; a timer that
      has expired is set to the present. */
  lemma LeavingIsEarlier(p: Params, s: State, members: nat, now: real)
    ensures var s' := Step(p, s, MembersLeft(members, now)).0;
            if s.firstCall || members >= s.pmembers then s' == s
            else if s.next > now then now <= s'.next < s.next
            else s'.next == now
  {
    if members < s.pmembers {
      var pm := if s.pmembers == 0 then 1 else s.pmembers;
      if s.next > now {
        PartSmaller(members, pm, s.next - now);
      }
      PartMeans(members, pm, 0.0);
      Cancel(Part(members, pm, 0.0), pm as real);
      hide Part;
    }
  }

  lemma Cancel(x: real, y: real)
    requires y != 0.0 && x * y == 0.0
    ensures x == 0.0
  {
  }

  /** Members who leave one after the other at one time change the timer as if they had
      left together. */
  lemma LeavingTogether(p: Params, s: State, a: nat, b: nat, now: real)
    requires b < a < s.pmembers && !s.firstCall && s.prev <= now <= s.next
    ensures var s1 := Step(p, s, MembersLeft(a, now)).0;
            Step(p, s1, MembersLeft(b, now)).0 == Step(p, s, MembersLeft(b, now)).0
  {
    var s1 := Step(p, s, MembersLeft(a, now)).0;
    hide Part;
    assert s1.next == now + Part(a, s.pmembers, s.next - now) && s1.prev == now - Part(a, s.pmembers, now - s.prev);
    PartShrinks(a, s.pmembers, s.next - now);
    PartShrinks(a, s.pmembers, now - s.prev);
    PartOfPart(b, a, s.pmembers, s.next - now);
    PartOfPart(b, a, s.pmembers, now - s.prev);
  }

  lemma PartOfPart(b: nat, a: nat, pmembers: int, span: real)
    requires a > 0 && pmembers > 0
    ensures Part(b, a, Part(a, pmembers, span)) == Part(b, pmembers, span)
  {
    var x := Part(a, pmembers, span);
    var y, z := Part(b, a, x), Part(b, pmembers, span);
    PartMeans(a, pmembers, span);
    PartMeans(b, a, x);
    PartMeans(b, pmembers, span);
    hide Part;
    var (ra, rb, rp) := (a as real, b as real, pmembers as real);
    assert y * ra * rp == rb * (x * rp) == rb * (ra * span) == ra * (rb * span) == ra * (z * rp);
    assert (y - z) * (ra * rp) == 0.0;
    Positive(ra, rp);
    Cancel(y - z, ra * rp);
  }

  /** Events in which members leave and packets come and go, and nothing is asked. */
  predicate Unasked(events: seq<Event>) {
    forall k :: 0 <= k < |events| ==> !events[k].Poll? && !events[k].AskDelay?
  }

  predicate LeavesEarly(s: State, e: Event) {
    e.MembersLeft? && !s.firstCall && e.members < s.pmembers && e.now < s.next
  }

  lemma ClockGoesOn(p: Params, s: State, e: Event, clock: real)
    requires Possible(p, s, e) && NotEarlier(e, clock)
    ensures clock <= ClockAfter(e, clock)
  {
  }

  /** Over any run in which nothing is asked the timer, if it lies ahead at all, runs out no
      later than it would have, and earlier as soon as members have left while it lay ahead. */
  lemma {:induction false} NeverLater(run: Run, i: nat)
    requires IsTrace(run) && i <= |run.events| && Unasked(run.events)
    ensures run.states[i].next <= run.states[0].next || run.states[i].next <= run.clocks[i]
    ensures (exists k :: 0 <= k < i && LeavesEarly(run.states[k], run.events[k])) ==>
              run.states[i].next < run.states[0].next || run.states[i].next <= run.clocks[i]
    decreases i
  {
    hide Possible, NotEarlier, ClockAfter, Step, LeavesEarly;
    if i > 0 {
      NeverLater(run, i - 1);
      var s, e := run.states[i - 1], run.events[i - 1];
      ClockGoesOn(run.p, s, e, run.clocks[i - 1]);
      StepNotLater(run.p, s, e, run.clocks[i - 1]);
    }
  }

  lemma StepNotLater(p: Params, s: State, e: Event, clock: real)
    requires Possible(p, s, e) && NotEarlier(e, clock) && !e.Poll? && !e.AskDelay?
    ensures var s' := Step(p, s, e).0;
            && (s'.next <= s.next || s'.next <= ClockAfter(e, clock))
            && (LeavesEarly(s, e) ==> s'.next < s.next)
  {
    if e.MembersLeft? {
      LeavingIsEarlier(p, s, e.members, e.now);
      hide MemberDecrease;
    }
  }

  // ---- what the averages and counters stand for ----

  /** A sixteenth of the new size and fifteen of the old average, rounded down. */
  lemma AverageMeans(size: nat, average: nat)
    ensures 16 * Average(size, average) <= size + 15 * average < 16 * Average(size, average) + 16
    ensures average >= size ==> size <= Average(size, average) <= average
    ensures average + 15 <= size ==> average <= Average(size, average) <= size
  {
  }

  /** Every packet but a BYE counts in the average of sizes, with the overhead of the headers
      below, whether it came in or goes out; a BYE packet only in that of BYE packets, when
      it came in while ours waits. */
  lemma PacketsCount(p: Params, s: State, e: Event)
    requires e.Incoming? || e.Outgoing?
    ensures var s', size := Step(p, s, e).0, s.headerOverhead + e.length;
            && (!e.isBye ==> 16 * s'.avgPacketSize <= size + 15 * s.avgPacketSize < 16 * s'.avgPacketSize + 16)
            && (e.isBye ==> s'.avgPacketSize == s.avgPacketSize)
            && (e.Incoming? && e.isBye && s.byeScheduled ==>
                  && 16 * s'.avgByeSize <= size + 15 * s.avgByeSize < 16 * s'.avgByeSize + 16
                  && s'.byeMembers == s.byeMembers + 1)
            && (!(e.Incoming? && e.isBye && s.byeScheduled) ==>
                  s'.avgByeSize == s.avgByeSize && s'.byeMembers == s.byeMembers)
            && (s'.next, s'.prev, s'.pmembers, s'.firstCall) == (s.next, s.prev, s.pmembers, s.firstCall)
  {
    AverageMeans(s.headerOverhead + e.length, s.avgPacketSize);
    AverageMeans(s.headerOverhead + e.length, s.avgByeSize);
    hide Average;
  }

  // ---- the beginning ----

  /** A new scheduler takes packets to have 1000 bytes, has sent nothing and has no timer:
      when that many bytes from each member fit, its first interval is half the minimum. */
  lemma FreshMeans(p: Params, m: Members)
    requires ValidParams(p) && p.useHalfAtStartup && CanDivide(p, m)
    requires GroupSize(p, m, m.weAreSender) as real * 1000.0 <= p.minInterval / 2.0 * Share(p, m, m.weAreSender)
    ensures DeterministicInterval(Fresh(), p, m, m.weAreSender) == p.minInterval / 2.0
    ensures Fresh().firstCall && !Fresh().byeScheduled && Fresh().headerOverhead == 0
  {
    hide Share, GroupSize, DeterministicInterval;
    IntervalMeans(Fresh(), p, m, m.weAreSender);
  }

  /** After a reset the scheduler answers the next poll, and goes on from it, as a new one. */
  lemma ResetIsFresh(s: State, p: Params, m: Members, now: real, later: real, r: real, r2: real)
    requires CanDivide(p, m)
    ensures var (a, due) := IsTime(AfterReset(s), p, m, now, later, r, r2);
            var (b, dueToo) := IsTime(Fresh(), p, m, now, later, r, r2);
            && due == dueToo == false
            && a == b.(byeMembers := a.byeMembers, pbyeMembers := a.pbyeMembers, avgByeSize := a.avgByeSize)
  {
    var a := AfterReset(s).(firstCall := false, prev := now, pmembers := m.active);
    var b := Fresh().(firstCall := false, prev := now, pmembers := m.active);
    SameInterval(a, b, p, m);
    hide DeterministicInterval, Spread;
  }

  predicate SizesWithin(s: State, events: seq<Event>, low: nat, high: nat) {
    forall k :: 0 <= k < |events| && (events[k].Incoming? || events[k].Outgoing?) && !events[k].isBye ==>
      low + 15 <= s.headerOverhead + events[k].length <= high
  }

  /** Over any run the average of packet sizes stays within the sizes averaged, but for
      fifteen bytes that rounding can take away; BYE packets never count in it. */
  lemma {:induction false} AverageOverRun(run: Run, i: nat, low: nat, high: nat)
    requires IsTrace(run) && i <= |run.events|
    requires low <= run.states[0].avgPacketSize <= high && SizesWithin(run.states[0], run.events, low, high)
    ensures low <= run.states[i].avgPacketSize <= high && run.states[i].headerOverhead == run.states[0].headerOverhead
    decreases i
  {
    if i > 0 {
      AverageOverRun(run, i - 1, low, high);
      StepAverage(run.p, run.states[i - 1], run.events[i - 1], low, high);
      hide Step;
    }
  }

  lemma StepAverage(p: Params, s: State, e: Event, low: nat, high: nat)
    requires Possible(p, s, e) && low <= s.avgPacketSize <= high
    requires (e.Incoming? || e.Outgoing?) && !e.isBye ==> low + 15 <= s.headerOverhead + e.length <= high
    ensures var s' := Step(p, s, e).0; low <= s'.avgPacketSize <= high && s'.headerOverhead == s.headerOverhead
  {
    hide TransmissionInterval, CheckTime, CanPoll, CanDivide, Part;
    if e.Incoming? || e.Outgoing? {
      AverageMeans(s.headerOverhead + e.length, s.avgPacketSize);
    }
  }

  /** A packet has been sent exactly if one was sent before the run or in it. */
  lemma {:induction false} HasSentMeans(run: Run, i: nat)
    requires IsTrace(run) && i <= |run.events|
    ensures run.states[i].hasSent <==>
            run.states[0].hasSent || exists k :: 0 <= k < i && run.events[k].Outgoing?
    decreases i
  {
    if i > 0 {
      HasSentMeans(run, i - 1);
      StepSends(run.p, run.states[i - 1], run.events[i - 1]);
      hide Step;
    }
  }

  lemma StepSends(p: Params, s: State, e: Event)
    requires Possible(p, s, e)
    ensures Step(p, s, e).0.hasSent <==> s.hasSent || e.Outgoing?
  {
    hide TransmissionInterval, CheckTime, CanPoll, CanDivide, Part;
  }

  function ByesIn(events: seq<Event>): nat {
    if events == [] then 0
    else
      var last := events[|events| - 1];
      ByesIn(events[..|events| - 1]) + if last.Incoming? && last.isBye then 1 else 0
  }

  /** While a BYE packet waits, the members who share its interval are ourselves and one
      for every BYE packet heard; its size is that of ours until another is heard. */
  lemma {:induction false} ByesHeard(run: Run, s: State, m: Members, size: nat, r: real, i: nat)
    requires IsByeRun(run, s, m, size, r) && i <= |run.events|
    requires forall k :: 0 <= k < i ==> !Fires(run, k)
    ensures run.states[i].byeScheduled && run.states[i].byeMembers == 1 + ByesIn(run.events[..i])
    ensures ByesIn(run.events[..i]) == 0 ==> run.states[i].avgByeSize == size + s.headerOverhead
    decreases i
  {
    hide Step, Possible, ByeInterval;
    if i == 0 {
      assert run.events[..0] == [];
    } else {
      ByesHeard(run, s, m, size, r, i - 1);
      assert run.events[..i][..i - 1] == run.events[..i - 1];
      assert !Fires(run, i - 1);
      StepHears(run.p, run.states[i - 1], run.events[i - 1]);
    }
  }

  lemma StepHears(p: Params, s: State, e: Event)
    requires Possible(p, s, e) && s.byeScheduled && !(e.Poll? && Step(p, s, e).1)
    ensures var s' := Step(p, s, e).0;
            && s'.byeScheduled
            && s'.byeMembers == s.byeMembers + (if e.Incoming? && e.isBye then 1 else 0)
            && (!(e.Incoming? && e.isBye) ==> s'.avgByeSize == s.avgByeSize)
            && (e.Incoming? && e.isBye ==>
                  16 * s'.avgByeSize <= s.headerOverhead + e.length + 15 * s.avgByeSize < 16 * s'.avgByeSize + 16)
  {
    hide TransmissionInterval, CheckTime, CanPoll, CanDivide, Part;
  }

  /** The more members say goodbye, and the larger their packets, the longer the BYE waits. */
  lemma ByesBackOff(s: State, s': State, p: Params, r: real)
    requires ValidParams(p) && ByeShare(p) != 0.0 && IsDraw(r)
    requires s.byeScheduled && !s.sendByeNow && s'.byeScheduled && !s'.sendByeNow
    requires 0 <= s.byeMembers <= s'.byeMembers && s.avgByeSize <= s'.avgByeSize
    ensures ByeInterval(s, p, r) <= ByeInterval(s', p, r)
  {
    NotNegative(1.0 - p.senderFraction, p.bandwidth);
    var b, least := ByeShare(p), MinimumNow(p, false);
    var t, t' := s.avgByeSize as real / b, s'.avgByeSize as real / b;
    Quotient(s.avgByeSize as real, b);
    Quotient(s'.avgByeSize as real, b);
    Order(t, t', b);
    Order(0.0, t, b);
    MoreTimes(s.byeMembers, s'.byeMembers, t, t');
    var td, td' := Longer(least, s.byeMembers, s.avgByeSize, b), Longer(least, s'.byeMembers, s'.avgByeSize, b);
    assert td <= td';
    LongerSpread(td, td', r);
    hide Longer, Spread;
  }

  lemma LongerSpread(td: real, td': real, r: real)
    requires td <= td' && IsDraw(r)
    ensures Spread(td, r) <= Spread(td', r)
  {
    Order(td, td', r + 0.5);
  }

  lemma MoreTimes(n: int, n': int, t: real, t': real)
    requires 0 <= n <= n' && 0.0 <= t <= t'
    ensures n as real * t <= n' as real * t'
  {
    NotNegative((n' - n) as real, t);
    NotNegative(n' as real, t' - t);
    assert (n' - n) as real * t == n' as real * t - n as real * t;
    assert n' as real * (t' - t) == n' as real * t' - n' as real * t;
  }
}
