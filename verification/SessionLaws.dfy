/** What runs of a session come to, in terms of its parameters and of the clock: how long a
    collision is remembered and so how often an SSRC can change because of one address, when
    an SSRC counts as having sent, and what becomes of the BYE packets of a session that ends. */
module SessionLaws {
  import opened Wrappers
  import opened SchedulerModel
  import opened SessionModel
  import Scheduler
  import SchedulerLaws
  import CollisionList

  // ---- how long a collision is remembered ----

  /** The time for which a collision is remembered at least. */
  predicate IsMemory(c: Config, memory: real) {
    ValidParams(c.p) && c.collisionMultiplier >= 0.0 && memory == c.collisionMultiplier * (c.p.minInterval / 2.0)
  }

  lemma CheckBounds(c: Config, s: SessionState, i: Input, memory: real)
    requires IsMemory(c, memory) && Share(c.p, i.m, false) != 0.0
    ensures CollisionCheck(c, s, i) <= i.time - memory
  {
    var td, x := DeterministicInterval(s.sched, c.p, i.m, false), c.p.minInterval / 2.0;
    assert td >= x;
    NotNegative(c.collisionMultiplier, td - x);
    assert c.collisionMultiplier * (td - x) == td * c.collisionMultiplier - memory;
    hide DeterministicInterval;
  }

  /** A poll keeps every collision that is no older than the multiplier times half the
      minimum interval. */
  lemma PollKeepsRecent(c: Config, s: SessionState, i: Input, memory: real, e: CollisionList.Entry)
    requires PollPossible(c, s, i) && IsMemory(c, memory)
    requires e in ReceiveAll(c, s, i.arrivals).s.collisions && i.time - e.time <= memory
    ensures e in PollResult(c, s, i).s.collisions
  {
    var r := ReceiveAll(c, s, i.arrivals);
    hide ReceiveAll, CanReceiveAll, IsTime, CanPoll;
    if r.ok {
      CheckBounds(c, r.s, i, memory);
      CollisionList.KeptEntries(r.s.collisions, CollisionCheck(c, r.s, i), e);
      assert Transmit(c, TimeOut(c, r.s, i), i).0.collisions == TimeOut(c, r.s, i).collisions;
    }
  }

  /** And, when its arrivals have been handled, none that is older than the multiplier times
      the interval: the minimum, or the time in which one packet from each of the members
      who share the receivers' bandwidth takes it up. */
  lemma PollForgetsOld(c: Config, s: SessionState, i: Input, interval: real, e: CollisionList.Entry)
    requires PollPossible(c, s, i) && ReceiveAll(c, s, i.arrivals).ok
    requires ValidParams(c.p) && c.collisionMultiplier >= 0.0 && interval >= c.p.minInterval
    requires GroupSize(c.p, i.m, false) as real * ReceiveAll(c, s, i.arrivals).s.sched.avgPacketSize as real
             <= interval * Share(c.p, i.m, false)
    requires i.time - e.time > c.collisionMultiplier * interval
    ensures e !in PollResult(c, s, i).s.collisions
  {
    hide ReceiveAll, CanReceiveAll, IsTime, CanPoll, Share, GroupSize, CollisionCheck;
    var r := ReceiveAll(c, s, i.arrivals);
    CheckAtLeast(c, r.s, i, interval);
    CollisionList.KeptEntries(r.s.collisions, CollisionCheck(c, r.s, i), e);
    assert Transmit(c, TimeOut(c, r.s, i), i).0.collisions == TimeOut(c, r.s, i).collisions;
    hide Transmit, CanTransmit, TimeOut;
  }

  lemma CheckAtLeast(c: Config, s: SessionState, i: Input, interval: real)
    requires ValidParams(c.p) && c.collisionMultiplier >= 0.0 && interval >= c.p.minInterval
    requires Share(c.p, i.m, false) != 0.0
    requires GroupSize(c.p, i.m, false) as real * s.sched.avgPacketSize as real <= interval * Share(c.p, i.m, false)
    ensures CollisionCheck(c, s, i) >= i.time - c.collisionMultiplier * interval
  {
    hide Share, GroupSize;
    var td := DeterministicInterval(s.sched, c.p, i.m, false);
    IntervalAtMost(s.sched, c.p, i.m, interval);
    assert CollisionCheck(c, s, i) == i.time - td * c.collisionMultiplier;
    hide DeterministicInterval, CollisionCheck;
    NotNegative(c.collisionMultiplier, interval - td);
    assert c.collisionMultiplier * (interval - td) == c.collisionMultiplier * interval - td * c.collisionMultiplier;
  }

  lemma IntervalAtMost(s: State, p: Params, m: Members, interval: real)
    requires ValidParams(p) && Share(p, m, false) != 0.0 && interval >= p.minInterval
    requires GroupSize(p, m, false) as real * s.avgPacketSize as real <= interval * Share(p, m, false)
    ensures DeterministicInterval(s, p, m, false) <= interval
  {
    hide DeterministicInterval, Share, GroupSize;
    SchedulerLaws.IntervalMeans(s, p, m, false);
    SchedulerLaws.SharesNotNegative(p, m, false);
    SchedulerLaws.Order(DeterministicInterval(s, p, m, false), interval, Share(p, m, false));
  }

  // ---- runs with a clock ----

  function LastTime(arrivals: seq<Arrival>, clock: real): real {
    if arrivals == [] then clock else arrivals[|arrivals| - 1].time
  }

  /** The packets came in one after the other, none before the clock. */
  predicate InOrder(arrivals: seq<Arrival>, clock: real) {
    && (arrivals != [] ==> clock <= arrivals[0].time)
    && (forall j, k :: 0 <= j < k < |arrivals| ==> arrivals[j].time <= arrivals[k].time)
  }

  function ClockOf(events: seq<SessionModel.Event>, clock: real): real {
    if events == [] then clock
    else
      var last := events[|events| - 1];
      if last.PollSession? then last.i.time else ClockOf(events[..|events| - 1], clock)
  }

  /** The clock never goes back, from packet to packet and from poll to poll. */
  predicate Clocked(events: seq<SessionModel.Event>, clock: real) {
    events == [] ||
    (var front, last := events[..|events| - 1], events[|events| - 1];
     Clocked(front, clock) &&
     (last.PollSession? ==>
        var now := ClockOf(front, clock);
        InOrder(last.i.arrivals, now) && LastTime(last.i.arrivals, now) <= last.i.time))
  }

  /** When something happened to the collision list, or for a timeout a time at which it
      had not yet happened or just did. */
  function Moment(op: CollisionList.Op, memory: real): real {
    match op
    case Update(_, time) => time
    case Expire(check) => check + memory
  }

  /** A history up to this time, in which nothing is seen earlier than what came before. */
  ghost predicate Timely(h: seq<Happening>, memory: real, clock: real) {
    && (forall j :: 0 <= j < |h| ==> Moment(h[j].op, memory) <= clock)
    && (forall i, j :: 0 <= i < j < |h| && h[j].op.Update? ==> Moment(h[i].op, memory) <= Moment(h[j].op, memory))
  }

  ghost predicate NotBefore(h: seq<Happening>, clock: real) {
    forall j :: 0 <= j < |h| && h[j].op.Update? ==> clock <= h[j].op.time
  }

  lemma TimelyThen(h: seq<Happening>, clock: real, h2: seq<Happening>, clock2: real, memory: real)
    requires Timely(h, memory, clock) && Timely(h2, memory, clock2) && clock <= clock2 && NotBefore(h2, clock)
    ensures Timely(h + h2, memory, clock2)
  {
    var all := h + h2;
    forall j | 0 <= j < |all|
      ensures Moment(all[j].op, memory) <= clock2
    {
      assert all[j] == if j < |h| then h[j] else h2[j - |h|];
    }
    forall i, j | 0 <= i < j < |all| && all[j].op.Update?
      ensures Moment(all[i].op, memory) <= Moment(all[j].op, memory)
    {
      if j < |h| {
        assert all[i] == h[i] && all[j] == h[j];
      } else if i < |h| {
        assert all[i] == h[i] && all[j] == h2[j - |h|];
      } else {
        assert all[i] == h2[i - |h|] && all[j] == h2[j - |h|];
      }
    }
  }

  lemma ReceiveTimely(c: Config, s: SessionState, a: Arrival, memory: real)
    requires CanReceive(c, s, a)
    ensures var h := Receive(c, s, a).happened;
            Timely(h, memory, a.time) && NotBefore(h, a.time) && |h| <= 1
  {
    hide Effects, ScheduleBye, CollisionList.Has, CollisionList.Updated;
  }

  lemma {:induction false} ReceiveAllTimely(c: Config, s: SessionState, arrivals: seq<Arrival>, memory: real,
                                             clock: real)
    requires CanReceiveAll(c, s, arrivals) && InOrder(arrivals, clock)
    ensures var h := ReceiveAll(c, s, arrivals).happened;
            Timely(h, memory, LastTime(arrivals, clock)) && NotBefore(h, clock)
    ensures clock <= LastTime(arrivals, clock)
    decreases |arrivals|
  {
    hide Receive, CanReceive;
    if arrivals != [] {
      var a, rest := arrivals[0], arrivals[1..];
      var r := Receive(c, s, a);
      ReceiveTimely(c, s, a, memory);
      if r.ok {
        ReceiveAllTimely(c, r.s, rest, memory, a.time);
        var h2 := ReceiveAll(c, r.s, rest).happened;
        assert LastTime(rest, a.time) == LastTime(arrivals, clock);
        TimelyThen(r.happened, a.time, h2, LastTime(arrivals, clock), memory);
      }
    }
  }

  lemma PollTimely(c: Config, s: SessionState, i: Input, memory: real, clock: real)
    requires PollPossible(c, s, i) && IsMemory(c, memory)
    requires InOrder(i.arrivals, clock) && LastTime(i.arrivals, clock) <= i.time
    ensures var h := PollResult(c, s, i).happened;
            Timely(h, memory, i.time) && NotBefore(h, clock)
    ensures clock <= i.time
  {
    ReceiveAllTimely(c, s, i.arrivals, memory, clock);
    var r := ReceiveAll(c, s, i.arrivals);
    hide ReceiveAll, CanReceiveAll, Transmit, CanTransmit, TimeOut;
    if r.ok {
      CheckBounds(c, r.s, i, memory);
      var expiry := Happening(CollisionList.Expire(CollisionCheck(c, r.s, i)), false);
      hide CollisionCheck;
      TimelyThen(r.happened, LastTime(i.arrivals, clock), [expiry], i.time, memory);
    }
  }

  lemma {:induction false} RunTimely(c: Config, s: SessionState, events: seq<SessionModel.Event>, memory: real,
                                      clock: real)
    requires AllPossible(c, s, events) && IsMemory(c, memory) && Clocked(events, clock)
    ensures Timely(Happened(c, s, events), memory, ClockOf(events, clock))
  {
    if events != [] {
      hide SessionModel.Step, EventPossible, Timely, InOrder, LastTime;
      var front, last := events[..|events| - 1], events[|events| - 1];
      RunTimely(c, s, front, memory, clock);
      StepTimely(c, After(c, s, front), last, memory, ClockOf(front, clock));
      TimelyThen(Happened(c, s, front), ClockOf(front, clock), LastStep(c, s, events).happened,
                 ClockOf(events, clock), memory);
    } else {
      assert Timely([], memory, clock);
    }
  }

  lemma StepTimely(c: Config, s: SessionState, e: SessionModel.Event, memory: real, clock: real)
    requires EventPossible(c, s, e) && IsMemory(c, memory)
    requires e.PollSession? ==> InOrder(e.i.arrivals, clock) && LastTime(e.i.arrivals, clock) <= e.i.time
    ensures var h, now := SessionModel.Step(c, s, e).happened, if e.PollSession? then e.i.time else clock;
            Timely(h, memory, now) && NotBefore(h, clock) && clock <= now
  {
    if e.PollSession? {
      PollTimely(c, s, e.i, memory, clock);
      hide PollResult, PollPossible;
    }
  }

  /** An address was last seen no earlier than at any of its collisions before. */
  lemma {:induction false} SeenSince(h: seq<Happening>, memory: real, clock: real, i: nat, k: nat,
                                     addr: CollisionList.Address)
    requires Timely(h, memory, clock) && i < k <= |h| && h[i].op.Update?
    requires CollisionList.SameAddress(h[i].op.addr, addr) && CollisionList.LastSeen(Ops(h)[..k], addr).Some?
    ensures h[i].op.time <= CollisionList.LastSeen(Ops(h)[..k], addr).value
    decreases k
  {
    var ops := Ops(h);
    assert ops[..k][..k - 1] == ops[..k - 1] && ops[..k][k - 1] == h[k - 1].op;
    if i < k - 1 && !(h[k - 1].op.Update? && CollisionList.SameAddress(h[k - 1].op.addr, addr)) {
      SeenSince(h, memory, clock, i, k - 1, addr);
    } else if i < k - 1 {
      assert Moment(h[i].op, memory) <= Moment(h[k - 1].op, memory);
    }
  }

  /** Over any run with a clock, two new SSRCs because of the same address come more than
      the multiplier times half the minimum interval apart. */
  lemma NewSsrcsApart(c: Config, s: SessionState, events: seq<SessionModel.Event>, clock: real, memory: real,
                      i: nat, j: nat, addr: CollisionList.Address)
    requires AllPossible(c, s, events) && IsMemory(c, memory) && Clocked(events, clock)
    requires s.collisions == [] && i < j < |Happened(c, s, events)|
    requires RenewsFor(Happened(c, s, events)[i], addr) && RenewsFor(Happened(c, s, events)[j], addr)
    requires Happened(c, s, events)[j].op.addr == addr
    ensures Happened(c, s, events)[j].op.time - Happened(c, s, events)[i].op.time
          > c.collisionMultiplier * (c.p.minInterval / 2.0)
  {
    hide Happened, AllPossible, Clocked, ClockOf, CollisionList.LastSeen;
    var h := Happened(c, s, events);
    RunTimely(c, s, events, memory, clock);
    var k := RenewedAgain(c, s, events, i, j, addr);
    SeenSince(h, memory, ClockOf(events, clock), i, k, addr);
    assert Moment(h[k].op, memory) <= Moment(h[j].op, memory);
  }

  // ---- has this SSRC sent? ----

  predicate SendsOk(sent: Sent) {
    (sent.Report? || sent.Bye?) && sent.ok
  }

  ghost predicate Renews(h: seq<Happening>) {
    exists j :: 0 <= j < |h| && h[j].renewed
  }

  /** Something has been sent, and since then no new SSRC been taken. */
  ghost predicate SentSinceRenewal(c: Config, s: SessionState, events: seq<SessionModel.Event>)
    requires AllPossible(c, s, events)
  {
    if events == [] then s.sentPackets
    else
      var r, last := LastStep(c, s, events), events[|events| - 1];
      || (last.SendData? && last.ok)
      || SendsOk(r.sent)
      || (!Renews(r.happened) && SentSinceRenewal(c, s, events[..|events| - 1]))
  }

  lemma ReceiveSends(c: Config, s: SessionState, a: Arrival)
    requires CanReceive(c, s, a)
    ensures var r := Receive(c, s, a); r.s.sentPackets == (s.sentPackets && !Renews(r.happened))
  {
    hide Effects, ScheduleBye, CollisionList.Has, CollisionList.Updated;
    var r := Receive(c, s, a);
    if |r.happened| > 0 {
      assert r.happened[0].renewed <==> Renews(r.happened);
    }
  }

  lemma RenewsThen(h: seq<Happening>, h2: seq<Happening>)
    ensures Renews(h + h2) <==> Renews(h) || Renews(h2)
  {
    var all := h + h2;
    if j :| 0 <= j < |h| && h[j].renewed {
      assert all[j].renewed;
    }
    if j :| 0 <= j < |h2| && h2[j].renewed {
      assert all[|h| + j].renewed;
    }
    if j :| 0 <= j < |all| && all[j].renewed {
      assert all[j] == if j < |h| then h[j] else h2[j - |h|];
    }
  }

  lemma {:induction false} ReceiveAllSends(c: Config, s: SessionState, arrivals: seq<Arrival>)
    requires CanReceiveAll(c, s, arrivals)
    ensures var r := ReceiveAll(c, s, arrivals); r.s.sentPackets == (s.sentPackets && !Renews(r.happened))
    decreases |arrivals|
  {
    hide Receive, CanReceive, Renews;
    if arrivals != [] {
      var r := Receive(c, s, arrivals[0]);
      ReceiveSends(c, s, arrivals[0]);
      if r.ok {
        ReceiveAllSends(c, r.s, arrivals[1..]);
        RenewsThen(r.happened, ReceiveAll(c, r.s, arrivals[1..]).happened);
      }
    } else {
      NoRenewal();
    }
  }

  lemma NoRenewal()
    ensures !Renews([])
  {
  }

  lemma TransmitSends(c: Config, s: SessionState, i: Input)
    requires CanTransmit(c, s, i)
    ensures var (s', sent) := Transmit(c, s, i);
            && s'.sentPackets == (s.sentPackets || SendsOk(sent))
            && (SendsOk(sent) ==> s'.sched.hasSent)
  {
    hide IsTime, CanPoll, ScheduleBye, CanSchedule, Scheduler.HasBye;
  }

  lemma PollSends(c: Config, s: SessionState, i: Input)
    requires PollPossible(c, s, i)
    ensures var r := PollResult(c, s, i);
            && r.s.sentPackets == (SendsOk(r.sent) || (s.sentPackets && !Renews(r.happened)))
            && (SendsOk(r.sent) ==> r.s.sched.hasSent)
  {
    ReceiveAllSends(c, s, i.arrivals);
    var r := ReceiveAll(c, s, i.arrivals);
    hide ReceiveAll, CanReceiveAll, Transmit, CanTransmit, Renews, CollisionCheck, CollisionList.Kept, Effects;
    if r.ok {
      TransmitSends(c, TimeOut(c, r.s, i), i);
      var expiry := Happening(CollisionList.Expire(CollisionCheck(c, r.s, i)), false);
      RenewsThen(r.happened, [expiry]);
      OneExpiry(expiry);
    }
  }

  lemma OneExpiry(expiry: Happening)
    requires !expiry.renewed
    ensures !Renews([expiry])
  {
  }

  /** Over any run an SSRC counts as having sent exactly if data, a report or a BYE packet
      has been sent since it was taken; only then a collision queues a BYE packet for it. */
  lemma {:induction false} SentMeans(c: Config, s: SessionState, events: seq<SessionModel.Event>)
    requires AllPossible(c, s, events)
    ensures After(c, s, events).sentPackets <==> SentSinceRenewal(c, s, events)
  {
    if events != [] {
      hide SessionModel.Step, EventPossible, Renews, SendsOk;
      var front, last := events[..|events| - 1], events[|events| - 1];
      SentMeans(c, s, front);
      StepSends(c, After(c, s, front), last);
    }
  }

  lemma StepSends(c: Config, s: SessionState, e: SessionModel.Event)
    requires EventPossible(c, s, e)
    ensures var r := SessionModel.Step(c, s, e);
            && r.s.sentPackets == ((e.SendData? && e.ok) || SendsOk(r.sent) || (s.sentPackets && !Renews(r.happened)))
            && (SendsOk(r.sent) ==> r.s.sched.hasSent)
  {
    NoRenewal();
    hide Renews;
    if e.PollSession? {
      PollSends(c, s, e.i);
      hide PollResult, PollPossible;
    }
  }

  // ---- the BYE packet the scheduler waits for ----

  /** A BYE packet that joins an empty queue is scheduled by its own size, with nobody else
      saying goodbye; one that joins others changes nothing for them. */
  lemma EnqueuedSize(c: Config, s: SessionState, bye: Packet, a: Arrival)
    requires CanEnqueue(c, s, a)
    ensures var s' := Enqueue(c, s, bye, a);
            && s'.byes == s.byes + [bye]
            && (s.byes != [] ==> s'.sched == s.sched)
            && (s.byes == [] && !s.sched.byeScheduled ==>
                  && s'.sched.byeScheduled && s'.sched.prev == a.now && s'.sched.byeMembers == 1
                  && !s'.sched.firstCall && (s.sched.firstCall ==> s'.sched.pmembers == a.m.active)
                  && s'.sched.avgByeSize == |bye.data| + s.sched.headerOverhead
                  && (s'.sched.sendByeNow <==> c.p.immediateBye && a.m.active < 50))
  {
    hide ByeInterval;
  }

  /** When a BYE packet has been sent and others wait, the first of them is scheduled by its
      own size. */
  lemma RescheduledSize(c: Config, s: SessionState, i: Input)
    requires CanTransmit(c, s, i) && Transmit(c, s, i).1.Bye? && Transmit(c, s, i).1.ok && |s.byes| > 1
    ensures var s' := Transmit(c, s, i).0;
            && s'.byes == s.byes[1..] && s'.sched.byeScheduled && s'.sched.prev == i.byeNow && s'.sched.byeMembers == 1
            && s'.sched.avgByeSize == |s.byes[1].data| + s'.sched.headerOverhead
  {
    TimerAndBye(s.sched, c.p, i.timerMembers, i.now, i.later, i.r, i.r2);
    hide IsTime, CanPoll, ByeInterval, Scheduler.HasBye, Average;
  }

  // ---- what a poll does with what it hears ----

  /** The source table is listened to in order. */
  lemma {:induction false} EffectsInOrder(s: State, first: seq<Effect>, second: seq<Effect>)
    ensures Effects(s, first + second) == Effects(Effects(s, first), second)
    decreases |second|
  {
    hide EffectOn;
    var all := first + second;
    if second == [] {
      assert all == first;
    } else {
      EffectsInOrder(s, first, second[..|second| - 1]);
      assert all[..|all| - 1] == first + second[..|second| - 1] && all[|all| - 1] == second[|second| - 1];
    }
  }

  /** What one report of the source table does: a packet counts in the averages, and members
      who have left bring the timer forward. */
  lemma OneEffect(s: State, e: Effect)
    ensures var s' := Effects(s, [e]);
            && (e.Heard? && !(exists p :: p in e.parts && p.BYE?) ==>
                  var sum := s.headerOverhead + e.length + 15 * s.avgPacketSize;
                  16 * s'.avgPacketSize <= sum < 16 * s'.avgPacketSize + 16)
            && (e.Heard? && (exists p :: p in e.parts && p.BYE?) && s.byeScheduled ==>
                  s'.byeMembers == s.byeMembers + 1)
            && (e.Left? && !s.firstCall && e.members < s.pmembers && e.now < s.next ==> s'.next < s.next)
  {
    assert [e][..0] == [];
    assert Effects(s, [e]) == EffectOn(s, e);
    match e
    case Heard(parts, length) =>
      var p := Params(0.0, 0.0, 1.0, false, false);
      SchedulerLaws.PacketsCount(p, s, Incoming(Scheduler.HasBye(parts), length));
    case Left(members, now) =>
      var p := Params(0.0, 0.0, 1.0, false, false);
      SchedulerLaws.LeavingIsEarlier(p, s, members, now);
  }

  /** A packet that arrives is heard by the scheduler even when it is not accepted. */
  lemma ArrivalIsHeard(c: Config, s: SessionState, a: Arrival)
    requires CanReceive(c, s, a) && a.kept && (!a.accepted || !a.collision)
    ensures Receive(c, s, a).s == s.(sched := Effects(s.sched, a.effects))
  {
  }

  /** An arrival fails exactly if the source table does not take it, or if a first collision
      cannot be answered: the BYE packet cannot be built, or the SSRC not be replaced. */
  lemma ArrivalFails(c: Config, s: SessionState, a: Arrival)
    requires CanReceive(c, s, a)
    ensures !Receive(c, s, a).ok <==>
            a.kept && (!a.accepted ||
                       (a.collision && !CollisionList.Has(s.collisions, a.sender) &&
                        ((s.sentPackets && a.bye.None?) || !a.replaced)))
  {
    hide Effects, ScheduleBye, CollisionList.Has, CollisionList.Updated;
  }

  /** Arrivals are handled one after the other, up to the first that fails. */
  lemma {:induction false} ArrivalsInOrder(c: Config, s: SessionState, first: seq<Arrival>, second: seq<Arrival>)
    requires CanReceiveAll(c, s, first + second)
    ensures CanReceiveAll(c, s, first)
    ensures var r := ReceiveAll(c, s, first);
            if !r.ok then ReceiveAll(c, s, first + second) == r
            else
              && CanReceiveAll(c, r.s, second)
              && var r2 := ReceiveAll(c, r.s, second);
                 ReceiveAll(c, s, first + second) == r2.(enqueued := r.enqueued + r2.enqueued,
                                                         happened := r.happened + r2.happened)
    decreases |first|
  {
    hide Receive, CanReceive;
    if first == [] {
      assert [] + second == second;
      if CanReceiveAll(c, s, second) {
        var r2 := ReceiveAll(c, s, second);
        assert [] + r2.enqueued == r2.enqueued && [] + r2.happened == r2.happened;
      }
    } else {
      var all := first + second;
      assert all[0] == first[0] && all[1..] == first[1..] + second;
      var r := Receive(c, s, first[0]);
      if r.ok {
        ArrivalsInOrder(c, r.s, first[1..], second);
        var r1 := ReceiveAll(c, r.s, first[1..]);
        if r1.ok {
          var r2 := ReceiveAll(c, r1.s, second);
          assert r.enqueued + (r1.enqueued + r2.enqueued) == (r.enqueued + r1.enqueued) + r2.enqueued;
          assert r.happened + (r1.happened + r2.happened) == (r.happened + r1.happened) + r2.happened;
        }
      }
    }
  }

  /** A poll whose arrivals fail stops there. */
  lemma FailedPoll(c: Config, s: SessionState, i: Input)
    requires PollPossible(c, s, i) && !ReceiveAll(c, s, i.arrivals).ok
    ensures PollResult(c, s, i).s == ReceiveAll(c, s, i.arrivals).s && PollResult(c, s, i).sent == Nothing
  {
    hide ReceiveAll, CanReceiveAll;
  }

  /** Members who are timed out in a poll bring its timer forward. */
  lemma TimedOutMembers(c: Config, s: SessionState, i: Input, members: nat, t: real)
    requires PollPossible(c, s, i) && i.arrivals == [] && i.effects == [Left(members, t)]
    requires !s.sched.firstCall && members < s.sched.pmembers && t < s.sched.next
    requires i.now < Effects(s.sched, i.effects).next
    ensures PollResult(c, s, i).s.sched.next < s.sched.next && PollResult(c, s, i).sent == Nothing
  {
    OneEffect(s.sched, Left(members, t));
    assert [Left(members, t)][..0] == [];
    hide CollisionCheck, CollisionList.Kept, CheckTime, CanCheck, Part;
  }

  /** Once the arrivals have been handled, something is sent exactly if the timer says so:
      the first BYE packet that waits, or without one the report if it could be built. */
  lemma SentExactly(c: Config, s: SessionState, i: Input)
    requires CanTransmit(c, s, i)
    ensures var sent := Transmit(c, s, i).1;
            if !IsTime(s.sched, c.p, i.timerMembers, i.now, i.later, i.r, i.r2).1 then sent == Nothing
            else if s.byes != [] then sent == Bye(s.byes[0], i.sendOk)
            else match i.report
                 case Some(report) => sent == Report(report, i.sendOk)
                 case None => sent == Nothing
  {
    hide IsTime, CanPoll, ScheduleBye, CanSchedule, Scheduler.HasBye;
  }

  // ---- leaving ----

  /** When a turn sends a BYE packet and others wait, the next is scheduled by its own size. */
  lemma TurnSchedules(p: Params, sched: State, queue: seq<Packet>, turn: Turn)
    requires |queue| > 1 && TurnPossible(p, sched, queue, turn) && TakeTurn(p, sched, queue, turn).1 != []
    ensures var (s', gone) := TakeTurn(p, sched, queue, turn);
            && gone == [queue[0]] && s'.byeScheduled && s'.prev == turn.byeNow && s'.byeMembers == 1
            && s'.avgByeSize == |queue[1].data| + s'.headerOverhead
  {
    TimerAndBye(sched, p, turn.m, turn.now, turn.later, turn.r, turn.r2);
    hide IsTime, CanPoll, ByeInterval;
  }

  /** When a session ends, an SSRC that has sent says goodbye behind all who wait: what is
      sent are the BYE packets that waited, then our own, or some of them from the front. */
  lemma OwnByeComesLast(p: Params, s: SessionState, bye: Packet, m: Members, now: real, r: real,
                        stop: real, turns: seq<Turn>, k: nat, sent: seq<Packet>)
    requires s.sentPackets && CanJoin(p, s, Some(bye), m)
    requires var s1 := WithOwnBye(p, s, Some(bye), m, now, r);
             AllTurnsPossible(p, s1.sched, s1.byes, turns) && IsCourse(p, s1.sched, s1.byes, stop, turns, k, sent)
    ensures sent <= s.byes + [bye]
    ensures sent == s.byes + [bye] || (0 < k <= |turns| && turns[k - 1].time >= stop)
    ensures s.byes != [] ==> WithOwnBye(p, s, Some(bye), m, now, r).sched == s.sched
  {
    hide TakeTurn, TurnPossible, ScheduleBye;
  }

  /** One that has not sent, or whose BYE packet cannot be built, sends only those that
      waited. */
  lemma NoOwnBye(p: Params, s: SessionState, bye: Option<Packet>, m: Members, now: real, r: real)
    requires CanJoin(p, s, bye, m) && (!s.sentPackets || bye.None?)
    ensures WithOwnBye(p, s, bye, m, now, r) == s
  {
  }
}
