/** What the session does with the packets of one poll, its SSRC, its collision list and
    its queue of BYE packets, as functions on the session's state.  Arriving packets,
    results of sending and building, clock readings and random draws are parameters. */
module SessionModel {
  import opened Bytes
  import opened Wrappers
  import opened RtcpPackets
  import opened SchedulerModel
  import Scheduler
  import CollisionList

  /** A compound packet: its bytes and the packets in it. */
  datatype Packet = Packet(data: seq<byte>, parts: seq<RTCPPacket>)

  datatype Config = Config(p: Params, collisionMultiplier: real)

  datatype SessionState = SessionState(sched: State, collisions: seq<CollisionList.Entry>, byes: seq<Packet>,
                             sentPackets: bool, ssrc: u32)

  /** What the source table tells the scheduler while it takes a packet in. */
  datatype Effect = Heard(parts: seq<RTCPPacket>, length: nat) | Left(members: nat, now: real)

  /** A packet from the transmitter and everything that happens while it is handled. */
  datatype Arrival = Arrival(kept: bool, accepted: bool, effects: seq<Effect>, collision: bool,
                             sender: CollisionList.Address, time: real, bye: Option<Packet>,
                             m: Members, now: real, r: real, newSsrc: u32, replaced: bool)

  /** One poll: what arrived, and what the calls after that return. */
  datatype Input = Input(arrivals: seq<Arrival>, m: Members, time: real, effects: seq<Effect>,
                         timerMembers: Members, now: real, later: real, r: real, r2: real,
                         report: Option<Packet>, sendOk: bool, byeMembers: Members, byeNow: real, byeR: real)

  datatype Sent = Nothing | Report(p: Packet, ok: bool) | Bye(p: Packet, ok: bool)

  /** An operation on the collision list, and whether it came with a new SSRC. */
  datatype Happening = Happening(op: CollisionList.Op, renewed: bool)

  datatype Received = Received(s: SessionState, enqueued: seq<Packet>, happened: seq<Happening>, ok: bool)

  datatype Polled = Polled(s: SessionState, enqueued: seq<Packet>, happened: seq<Happening>, sent: Sent)

  ghost function EffectOn(s: State, e: Effect): State {
    match e
    case Heard(parts, length) => AnalyseIncoming(s, Scheduler.HasBye(parts), length)
    case Left(members, now) => MemberDecrease(s, members, now)
  }

  ghost function Effects(s: State, effects: seq<Effect>): State {
    if effects == [] then s else EffectOn(Effects(s, effects[..|effects| - 1]), effects[|effects| - 1])
  }

  // ---- receiving ----

  predicate CanEnqueue(c: Config, s: SessionState, a: Arrival) {
    s.byes == [] ==> CanSchedule(s.sched, c.p, a.m)
  }

  /** The new BYE packet waits behind the others; the first one is scheduled. */
  ghost function Enqueue(c: Config, s: SessionState, bye: Packet, a: Arrival): SessionState
    requires CanEnqueue(c, s, a)
  {
    s.(byes := s.byes + [bye],
       sched := if s.byes == [] then ScheduleBye(s.sched, c.p, a.m, |bye.data|, a.now, a.r) else s.sched)
  }

  ghost predicate CanCollide(c: Config, s: SessionState, a: Arrival) {
    !CollisionList.Has(s.collisions, a.sender) && s.sentPackets && a.bye.Some? ==> CanEnqueue(c, s, a)
  }

  /** A packet with our own SSRC from somebody else's address. */
  ghost function Collide(c: Config, s: SessionState, a: Arrival): Received
    requires CanCollide(c, s, a)
  {
    var op := CollisionList.Update(a.sender, a.time);
    var listed := CollisionList.Has(s.collisions, a.sender);
    var s1 := s.(collisions := CollisionList.Updated(s.collisions, a.sender, a.time));
    if listed then Received(s1, [], [Happening(op, false)], true)
    else if s.sentPackets && a.bye.None? then Received(s1, [], [Happening(op, false)], false)
    else
      var s2 := if s.sentPackets then Enqueue(c, s1, a.bye.value, a) else s1;
      Received(s2.(ssrc := a.newSsrc, sentPackets := false), if s.sentPackets then [a.bye.value] else [],
               [Happening(op, true)], a.replaced)
  }

  /** Where a BYE packet is scheduled, its interval has a divisor that is not zero. */
  ghost predicate CanReceive(c: Config, s: SessionState, a: Arrival) {
    a.kept && a.accepted && a.collision ==> CanCollide(c, s.(sched := Effects(s.sched, a.effects)), a)
  }

  ghost function Receive(c: Config, s: SessionState, a: Arrival): Received
    requires CanReceive(c, s, a)
  {
    if !a.kept then Received(s, [], [], true)
    else
      var s1 := s.(sched := Effects(s.sched, a.effects));
      if !a.accepted then Received(s1, [], [], false)
      else if !a.collision then Received(s1, [], [], true)
      else Collide(c, s1, a)
  }

  /** A new SSRC is taken exactly on the first collision with an address, as long as the
      BYE packet could be built that must say goodbye from an SSRC that has sent; and
      only then a BYE packet is queued. */
  lemma OnCollision(c: Config, s: SessionState, a: Arrival)
    requires CanReceive(c, s, a)
    ensures var r := Receive(c, s, a);
            var renews := a.kept && a.accepted && a.collision && !CollisionList.Has(s.collisions, a.sender)
                          && (s.sentPackets ==> a.bye.Some?);
            && (renews <==> exists h :: h in r.happened && h.renewed)
            && (renews ==> r.s.ssrc == a.newSsrc && !r.s.sentPackets && (r.enqueued != [] <==> s.sentPackets))
            && (!renews ==> r.s.ssrc == s.ssrc && r.s.sentPackets == s.sentPackets && r.enqueued == [])
  {
    hide ScheduleBye, Effects, CollisionList.Has, CollisionList.Updated;
    var r := Receive(c, s, a);
    if a.kept && a.accepted && a.collision {
      assert r.happened[0] in r.happened;
    }
  }

  ghost predicate CanReceiveAll(c: Config, s: SessionState, arrivals: seq<Arrival>)
    decreases |arrivals|
  {
    arrivals == [] ||
    (CanReceive(c, s, arrivals[0]) &&
     var r := Receive(c, s, arrivals[0]);
     r.ok ==> CanReceiveAll(c, r.s, arrivals[1..]))
  }

  /** The packets in order, up to the first that fails. */
  ghost function ReceiveAll(c: Config, s: SessionState, arrivals: seq<Arrival>): Received
    requires CanReceiveAll(c, s, arrivals)
    decreases |arrivals|
  {
    if arrivals == [] then Received(s, [], [], true)
    else
      var r := Receive(c, s, arrivals[0]);
      if !r.ok then r else Before(r.enqueued, r.happened, ReceiveAll(c, r.s, arrivals[1..]))
  }

  ghost function Before(enqueued: seq<Packet>, happened: seq<Happening>, r: Received): Received {
    r.(enqueued := enqueued + r.enqueued, happened := happened + r.happened)
  }

  // ---- the rest of a poll ----

  ghost function CollisionCheck(c: Config, s: SessionState, i: Input): real
    requires Share(c.p, i.m, false) != 0.0
  {
    i.time - DeterministicInterval(s.sched, c.p, i.m, false) * c.collisionMultiplier
  }

  /** The timeouts of members and of collision entries. */
  ghost function TimeOut(c: Config, s: SessionState, i: Input): SessionState
    requires Share(c.p, i.m, false) != 0.0
  {
    s.(collisions := CollisionList.Kept(s.collisions, CollisionCheck(c, s, i)), sched := Effects(s.sched, i.effects))
  }

  ghost predicate CanTransmit(c: Config, s: SessionState, i: Input) {
    && CanPoll(s.sched, c.p, i.timerMembers, i.now, i.r)
    && var (sched, due) := IsTime(s.sched, c.p, i.timerMembers, i.now, i.later, i.r, i.r2);
       due && |s.byes| > 1 && i.sendOk ==> CanSchedule(sched, c.p, i.byeMembers)
  }

  /** The timer, and what is sent when it has expired. */
  ghost function Transmit(c: Config, s: SessionState, i: Input): (SessionState, Sent)
    requires CanTransmit(c, s, i)
  {
    var (sched, due) := IsTime(s.sched, c.p, i.timerMembers, i.now, i.later, i.r, i.r2);
    var s1 := s.(sched := sched);
    if !due then (s1, Nothing)
    else if s.byes == [] then
      if i.report.None? then (s1, Nothing)
      else if !i.sendOk then (s1, Report(i.report.value, false))
      else (Accounted(s1, i.report.value), Report(i.report.value, true))
    else
      var pack, s2 := s.byes[0], s1.(byes := s.byes[1..]);
      if !i.sendOk then (s2, Bye(pack, false))
      else (Accounted(Reschedule(c, s2, i), pack), Bye(pack, true))
  }

  /** More BYE packets to send: the next one is scheduled. */
  ghost function Reschedule(c: Config, s: SessionState, i: Input): SessionState
    requires s.byes != [] ==> CanSchedule(s.sched, c.p, i.byeMembers)
  {
    if s.byes == [] then s
    else s.(sched := ScheduleBye(s.sched, c.p, i.byeMembers, |s.byes[0].data|, i.byeNow, i.byeR))
  }

  ghost function Accounted(s: SessionState, pack: Packet): SessionState {
    s.(sentPackets := true, sched := AnalyseOutgoing(s.sched, Scheduler.HasBye(pack.parts), |pack.data|))
  }

  /** Every interval that the poll computes has a divisor that is not zero. */
  ghost predicate PollPossible(c: Config, s: SessionState, i: Input) {
    && CanReceiveAll(c, s, i.arrivals)
    && var r := ReceiveAll(c, s, i.arrivals);
       r.ok ==> Share(c.p, i.m, false) != 0.0 && CanTransmit(c, TimeOut(c, r.s, i), i)
  }

  /** It is enough that senders and receivers have their shares of the bandwidth. */
  lemma SharesSuffice(c: Config, s: SessionState, i: Input)
    requires ByeShare(c.p) != 0.0 && Share(c.p, i.m, false) != 0.0 && CanDivide(c.p, i.timerMembers)
    ensures PollPossible(c, s, i)
  {
    hide Receive, IsTime, Share, ByeShare, CheckTime;
    AllReceived(c, s, i.arrivals);
    hide ReceiveAll, CanReceiveAll;
  }

  /** And where no arrival fails it is necessary that receivers have one: the timeout of
      collision entries divides by it in every poll, so that no session with a sender
      fraction of 1 can be polled. */
  lemma EveryPollDivides(c: Config, s: SessionState, i: Input)
    requires PollPossible(c, s, i) && ReceiveAll(c, s, i.arrivals).ok && i.m.senders <= Total(i.m)
    ensures ByeShare(c.p) != 0.0 && c.p.senderFraction != 1.0
  {
    hide ReceiveAll, CanReceiveAll, CanTransmit, TimeOut;
    AtMostOne(i.m.senders, Total(i.m));
    NotZero(1.0 - c.p.senderFraction, c.p.bandwidth);
  }

  lemma AtMostOne(n: nat, total: nat)
    requires n <= total && total > 0
    ensures n as real / total as real <= 1.0
  {
  }

  lemma NotZero(x: real, y: real)
    ensures x != 0.0 && y != 0.0 ==> x * y != 0.0
    ensures x == 0.0 || y == 0.0 ==> x * y == 0.0
  {
  }

  lemma {:induction false} AllReceived(c: Config, s: SessionState, arrivals: seq<Arrival>)
    requires ByeShare(c.p) != 0.0
    ensures CanReceiveAll(c, s, arrivals)
    decreases |arrivals|
  {
    hide ByeShare, Receive;
    if arrivals != [] && Receive(c, s, arrivals[0]).ok {
      AllReceived(c, Receive(c, s, arrivals[0]).s, arrivals[1..]);
    }
  }

  ghost function PollResult(c: Config, s: SessionState, i: Input): Polled
    requires PollPossible(c, s, i)
  {
    var r := ReceiveAll(c, s, i.arrivals);
    if !r.ok then Polled(r.s, r.enqueued, r.happened, Nothing)
    else
      var expiry := Happening(CollisionList.Expire(CollisionCheck(c, r.s, i)), false);
      var (s', sent) := Transmit(c, TimeOut(c, r.s, i), i);
      Polled(s', r.enqueued, r.happened + [expiry], sent)
  }

  // ---- the BYE queue ----

  /** The scheduler waits to send a BYE packet only while one is queued. */
  ghost predicate ByeQueued(s: SessionState) {
    s.sched.byeScheduled ==> s.byes != []
  }

  ghost predicate InSync(s: SessionState) {
    s.sched.byeScheduled <==> s.byes != []
  }

  /** BYE packets are queued and the scheduler does not know. */
  ghost predicate Stalled(s: SessionState) {
    s.byes != [] && !s.sched.byeScheduled
  }

  lemma {:induction false} EffectsKeepBye(s: State, effects: seq<Effect>)
    ensures Effects(s, effects).byeScheduled == s.byeScheduled
  {
    if effects != [] {
      EffectsKeepBye(s, effects[..|effects| - 1]);
    }
  }

  /** BYE packets join the queue behind the others, and the scheduler stays as well
      informed about it as it was. */
  ghost predicate Grows(s: SessionState, enqueued: seq<Packet>, s': SessionState) {
    && s'.byes == s.byes + enqueued
    && (ByeQueued(s) ==> ByeQueued(s')) && Stalled(s') == Stalled(s)
  }

  lemma GrowsMore(s: SessionState, first: seq<Packet>, mid: SessionState, second: seq<Packet>, s': SessionState)
    requires Grows(s, first, mid) && Grows(mid, second, s')
    ensures Grows(s, first + second, s')
  {
    hide ByeQueued, Stalled;
    assert s.byes + first + second == s.byes + (first + second);
  }

  lemma ReceiveKeepsQueue(c: Config, s: SessionState, a: Arrival)
    requires CanReceive(c, s, a)
    ensures Grows(s, Receive(c, s, a).enqueued, Receive(c, s, a).s)
  {
    EffectsKeepBye(s.sched, a.effects);
  }

  lemma {:induction false} ReceiveAllKeepsQueue(c: Config, s: SessionState, arrivals: seq<Arrival>)
    requires CanReceiveAll(c, s, arrivals)
    ensures Grows(s, ReceiveAll(c, s, arrivals).enqueued, ReceiveAll(c, s, arrivals).s)
    decreases |arrivals|
  {
    if arrivals == [] {
    } else {
      var r := Receive(c, s, arrivals[0]);
      ReceiveKeepsQueue(c, s, arrivals[0]);
      hide Receive, Grows;
      if r.ok {
        ReceiveAllKeepsQueue(c, r.s, arrivals[1..]);
        var rest := ReceiveAll(c, r.s, arrivals[1..]);
        GrowsMore(s, r.enqueued, r.s, rest.enqueued, rest.s);
      }
    }
  }

  function ByeSent(sent: Sent): seq<Packet> {
    if sent.Bye? then [sent.p] else []
  }

  lemma TimerAndBye(s: State, p: Params, m: Members, now: real, later: real, r: real, r2: real)
    requires CanPoll(s, p, m, now, r)
    ensures var (s', due) := IsTime(s, p, m, now, later, r, r2);
            s'.byeScheduled == (s.byeScheduled && !due)
  {
    hide CheckTime, TransmissionInterval;
  }

  lemma Rescheduled(c: Config, s: SessionState, i: Input)
    requires s.byes != [] ==> CanSchedule(s.sched, c.p, i.byeMembers)
    ensures var s' := Reschedule(c, s, i);
            s'.byes == s.byes && s'.sched.byeScheduled == (s.sched.byeScheduled || s.byes != [])
  {
    hide ByeInterval;
  }

  lemma TransmitKeepsQueue(c: Config, s: SessionState, i: Input)
    requires CanTransmit(c, s, i)
    ensures var (s', sent) := Transmit(c, s, i);
            && s.byes == ByeSent(sent) + s'.byes
            && (ByeQueued(s) ==> ByeQueued(s'))
            && Stalled(s') == (if sent.Bye? then !sent.ok && s'.byes != [] else Stalled(s))
            && (sent.Report? ==> s.byes == [])
            && (!sent.Nothing? ==> IsTime(s.sched, c.p, i.timerMembers, i.now, i.later, i.r, i.r2).1)
  {
    hide IsTime, Reschedule, Accounted, CanPoll, CanSchedule, CanDivide;
    TimerAndBye(s.sched, c.p, i.timerMembers, i.now, i.later, i.r, i.r2);
    var (sched, due) := IsTime(s.sched, c.p, i.timerMembers, i.now, i.later, i.r, i.r2);
    var s1 := s.(sched := sched);
    if due && s.byes != [] {
      assert s.byes == [s.byes[0]] + s.byes[1..];
      var s2 := s1.(byes := s.byes[1..]);
      if i.sendOk {
        Rescheduled(c, s2, i);
        AccountedKeeps(Reschedule(c, s2, i), s.byes[0]);
      }
    } else if due && i.report.Some? {
      AccountedKeeps(s1, i.report.value);
    }
    assert [] + s.byes == s.byes;
  }

  lemma AccountedKeeps(s: SessionState, pack: Packet)
    ensures Accounted(s, pack).byes == s.byes && Accounted(s, pack).collisions == s.collisions
    ensures Accounted(s, pack).sched.byeScheduled == s.sched.byeScheduled
  {
  }

  /** A BYE packet failed to leave while others waited. */
  predicate ByeFailed(r: Polled) {
    r.sent.Bye? && !r.sent.ok && r.s.byes != []
  }

  /** One poll.  The BYE packets leave in the order they were queued, at most one per
      expired timer, and no report is sent while one waits.  The scheduler waits for a
      BYE packet only while one is queued; and one is queued without its waiting exactly
      if sending one has failed while others were queued, or if that was so before and
      none has been sent. */
  lemma PollKeepsQueue(c: Config, s: SessionState, i: Input)
    requires PollPossible(c, s, i)
    ensures var r := PollResult(c, s, i);
            && s.byes + r.enqueued == ByeSent(r.sent) + r.s.byes
            && (ByeQueued(s) ==> ByeQueued(r.s))
            && Stalled(r.s) == (if r.sent.Bye? then ByeFailed(r) else Stalled(s))
            && (r.sent.Report? ==> s.byes + r.enqueued == [])
  {
    hide ReceiveAll, CanReceiveAll, Transmit, CanTransmit, Effects, CollisionList.Kept, Share;
    var r := ReceiveAll(c, s, i.arrivals);
    ReceiveAllKeepsQueue(c, s, i.arrivals);
    if r.ok {
      EffectsKeepBye(r.s.sched, i.effects);
      TransmitKeepsQueue(c, TimeOut(c, r.s, i), i);
    } else {
      assert [] + r.s.byes == r.s.byes;
    }
  }

  // ---- runs ----

  /** What happens to a session: the application sends data, or asks how long to wait for
      the next poll, or the session is polled. */
  datatype Event =
    | SendData(ok: bool)
    | AskForDelay(m: Members, now: real, later: real, last: real, r: real)
    | PollSession(i: Input)

  ghost predicate EventPossible(c: Config, s: SessionState, e: Event) {
    match e
    case SendData(_) => true
    case AskForDelay(m, _, _, _, _) => s.sched.firstCall ==> CanDivide(c.p, m)
    case PollSession(i) => PollPossible(c, s, i)
  }

  /** Data that could be sent, by any of the SendPacket calls or as an APP packet. */
  ghost function DataSent(s: SessionState, ok: bool): SessionState {
    if ok then s.(sentPackets := true) else s
  }

  ghost function Step(c: Config, s: SessionState, e: Event): Polled
    requires EventPossible(c, s, e)
  {
    match e
    case SendData(ok) => Polled(DataSent(s, ok), [], [], Nothing)
    case AskForDelay(m, now, later, last, r) =>
      Polled(s.(sched := TransmissionDelay(s.sched, c.p, m, now, later, last, r).0), [], [], Nothing)
    case PollSession(i) => PollResult(c, s, i)
  }

  lemma StepKeepsQueue(c: Config, s: SessionState, e: Event)
    requires EventPossible(c, s, e)
    ensures var r := Step(c, s, e);
            && s.byes + r.enqueued == ByeSent(r.sent) + r.s.byes
            && (ByeQueued(s) ==> ByeQueued(r.s))
            && Stalled(r.s) == (if r.sent.Bye? then ByeFailed(r) else Stalled(s))
  {
    hide PollResult, PollPossible;
    if e.PollSession? {
      PollKeepsQueue(c, s, e.i);
    } else {
      assert s.byes + [] == [] + s.byes;
    }
  }

  ghost predicate AllPossible(c: Config, s: SessionState, events: seq<Event>)
    decreases |events|, 0
  {
    events == [] ||
    (var front := events[..|events| - 1];
     AllPossible(c, s, front) && EventPossible(c, After(c, s, front), events[|events| - 1]))
  }

  ghost function After(c: Config, s: SessionState, events: seq<Event>): SessionState
    requires AllPossible(c, s, events)
    decreases |events|, 1
  {
    if events == [] then s
    else Step(c, After(c, s, events[..|events| - 1]), events[|events| - 1]).s
  }

  ghost function LastStep(c: Config, s: SessionState, events: seq<Event>): Polled
    requires AllPossible(c, s, events) && events != []
  {
    Step(c, After(c, s, events[..|events| - 1]), events[|events| - 1])
  }

  ghost function Enqueued(c: Config, s: SessionState, events: seq<Event>): seq<Packet>
    requires AllPossible(c, s, events)
  {
    if events == [] then [] else Enqueued(c, s, events[..|events| - 1]) + LastStep(c, s, events).enqueued
  }

  ghost function ByesSent(c: Config, s: SessionState, events: seq<Event>): seq<Packet>
    requires AllPossible(c, s, events)
  {
    if events == [] then [] else ByesSent(c, s, events[..|events| - 1]) + ByeSent(LastStep(c, s, events).sent)
  }

  ghost function Happened(c: Config, s: SessionState, events: seq<Event>): seq<Happening>
    requires AllPossible(c, s, events)
  {
    if events == [] then [] else Happened(c, s, events[..|events| - 1]) + LastStep(c, s, events).happened
  }

  /** Over any run the BYE packets sent are the first of those queued, in that order and
      each once; the others are still queued, in order. */
  lemma {:induction false} ByesLeaveInOrder(c: Config, s: SessionState, events: seq<Event>)
    requires AllPossible(c, s, events)
    ensures s.byes + Enqueued(c, s, events) == ByesSent(c, s, events) + After(c, s, events).byes
    ensures ByeQueued(s) ==> ByeQueued(After(c, s, events))
  {
    if events == [] {
    } else {
      hide Step, EventPossible, ByeQueued;
      var front := events[..|events| - 1];
      ByesLeaveInOrder(c, s, front);
      StepKeepsQueue(c, After(c, s, front), events[|events| - 1]);
      var r := LastStep(c, s, events);
      InOrder(s.byes, Enqueued(c, s, front), ByesSent(c, s, front), After(c, s, front).byes, r.enqueued,
              ByeSent(r.sent), r.s.byes);
    }
  }

  lemma InOrder(start: seq<Packet>, enqueued: seq<Packet>, sent: seq<Packet>, queue: seq<Packet>,
                more: seq<Packet>, leaving: seq<Packet>, rest: seq<Packet>)
    requires start + enqueued == sent + queue && queue + more == leaving + rest
    ensures start + (enqueued + more) == (sent + leaving) + rest
  {
    assert start + (enqueued + more) == (start + enqueued) + more;
    assert (sent + queue) + more == sent + (queue + more);
    assert sent + (leaving + rest) == (sent + leaving) + rest;
  }

  /** A BYE packet failed to leave while others waited, and none has been sent since. */
  ghost predicate FailedLast(c: Config, s: SessionState, events: seq<Event>)
    requires AllPossible(c, s, events)
  {
    events != [] &&
    var r := LastStep(c, s, events);
    if r.sent.Bye? then ByeFailed(r) else FailedLast(c, s, events[..|events| - 1])
  }

  /** Over any run the scheduler waits for a BYE packet exactly while the queue holds one,
      except from a send that failed while others waited until the next BYE packet is
      sent: then some are queued and the scheduler does not wait. */
  lemma {:induction false} ByeScheduledIffQueued(c: Config, s: SessionState, events: seq<Event>)
    requires AllPossible(c, s, events) && InSync(s)
    ensures InSync(After(c, s, events)) <==> !FailedLast(c, s, events)
    ensures Stalled(After(c, s, events)) <==> FailedLast(c, s, events)
  {
    ByesLeaveInOrder(c, s, events);
    StalledIffFailed(c, s, events);
    hide After, FailedLast;
  }

  lemma {:induction false} StalledIffFailed(c: Config, s: SessionState, events: seq<Event>)
    requires AllPossible(c, s, events) && !Stalled(s)
    ensures Stalled(After(c, s, events)) <==> FailedLast(c, s, events)
  {
    if events == [] {
    } else {
      hide Step, EventPossible, Stalled, ByeFailed;
      var front := events[..|events| - 1];
      StalledIffFailed(c, s, front);
      StepKeepsQueue(c, After(c, s, front), events[|events| - 1]);
    }
  }

  // ---- a run that stalls ----

  /** A participant alone in its session, with no immediate BYE. */
  const ALONE := Members(0, 1, false)
  const PATIENT := Config(Params(1000.0, 0.25, 5.0, true, false), 10.0)

  /** A collision with this address, for which this BYE packet is built and this new SSRC
      is drawn. */
  function Collision(sender: CollisionList.Address, time: real, bye: Packet, newSsrc: u32): Arrival {
    Arrival(true, true, [], true, sender, time, Some(bye), ALONE, time, 0.0, newSsrc, true)
  }

  /** A poll at this time that finds one packet. */
  function PollAt(a: Arrival, time: real, sendOk: bool): Input {
    Input([a], ALONE, time, [], ALONE, time, time, 0.0, 0.0, None, sendOk, ALONE, time, 0.0)
  }

  function Opening(ownSsrc: u32): SessionState {
    SessionState(Fresh(), [], [], false, ownSsrc)
  }

  /** The poll in which the first collision comes in. */
  function FirstPoll(a: CollisionList.Address, p: Packet, newSsrc: u32): Event {
    PollSession(PollAt(Collision(a, 0.0, p, newSsrc), 0.0, true))
  }

  /** The poll in which the second comes in, and in which nothing can be sent. */
  function SecondPoll(b: CollisionList.Address, q: Packet, newSsrc: u32): Event {
    PollSession(PollAt(Collision(b, 100.0, q, newSsrc), 100.0, false))
  }

  /** Data, a collision, data, another collision, and the first BYE packet cannot be sent:
      then the second is queued and the scheduler does not wait for it. */
  lemma FailureStalls(a: CollisionList.Address, b: CollisionList.Address, p: Packet, q: Packet,
                      ownSsrc: u32, second: u32, third: u32)
    requires !CollisionList.SameAddress(a, b) && |p.data| <= 560
    requires ownSsrc != second && second != third && ownSsrc != third
    ensures var s, events := Opening(ownSsrc), [SendData(true), FirstPoll(a, p, second),
                                                SendData(true), SecondPoll(b, q, third)];
            && AllPossible(PATIENT, s, events)
            && After(PATIENT, s, events).byes == [q] && Stalled(After(PATIENT, s, events))
            && After(PATIENT, s, events).ssrc == third
  {
    var s, e := Opening(ownSsrc), SendData(true);
    var s1 := DataSent(s, true);
    var s2 := FirstCollisionWaits(a, p, s1, second);
    var s3 := DataSent(s2, true);
    var s4 := SecondCollisionFails(a, b, p, q, s3, third);
    assert EventPossible(PATIENT, s, e) && Step(PATIENT, s, e).s == s1;
    assert EventPossible(PATIENT, s2, e) && Step(PATIENT, s2, e).s == s3;
    hide Step, EventPossible, After, AllPossible, Stalled, FirstPoll, SecondPoll;
    TwoEvents(PATIENT, s, [], e, FirstPoll(a, p, second), s, s1, s2);
    var two := [] + [e, FirstPoll(a, p, second)];
    TwoEvents(PATIENT, s, two, e, SecondPoll(b, q, third), s2, s3, s4);
    assert two + [e, SecondPoll(b, q, third)] == [e, FirstPoll(a, p, second), e, SecondPoll(b, q, third)];
  }

  lemma TwoEvents(c: Config, s: SessionState, events: seq<Event>, e: Event, f: Event,
                  from: SessionState, mid: SessionState, end: SessionState)
    requires events == [] ==> from == s
    requires events != [] ==> AllPossible(c, s, events) && After(c, s, events) == from
    requires EventPossible(c, from, e) && mid == Step(c, from, e).s
    requires EventPossible(c, mid, f) && end == Step(c, mid, f).s
    ensures AllPossible(c, s, events + [e, f]) && After(c, s, events + [e, f]) == end
  {
    hide Step, EventPossible, After, AllPossible;
    NoEvent(c, s);
    AfterOne(c, s, events, e);
    AfterOne(c, s, events + [e], f);
    assert events + [e] + [f] == events + [e, f];
  }

  lemma NoEvent(c: Config, s: SessionState)
    ensures AllPossible(c, s, []) && After(c, s, []) == s
  {
  }

  lemma AfterOne(c: Config, s: SessionState, events: seq<Event>, e: Event)
    requires AllPossible(c, s, events) && EventPossible(c, After(c, s, events), e)
    ensures AllPossible(c, s, events + [e])
    ensures After(c, s, events + [e]) == Step(c, After(c, s, events), e).s
  {
    hide Step, EventPossible;
    assert (events + [e])[..|events|] == events;
  }

  /** The first collision's BYE packet waits for its interval to pass. */
  lemma FirstCollisionWaits(a: CollisionList.Address, p: Packet, s: SessionState, newSsrc: u32)
    returns (s': SessionState)
    requires s.byes == [] && s.sentPackets && s.collisions == [] && !s.sched.byeScheduled && s.sched.headerOverhead == 0
    requires |p.data| <= 560
    ensures EventPossible(PATIENT, s, FirstPoll(a, p, newSsrc))
    ensures s' == Step(PATIENT, s, FirstPoll(a, p, newSsrc)).s
    ensures s'.byes == [p] && s'.collisions == [CollisionList.Entry(a, 0.0)] && s'.ssrc == newSsrc
    ensures s'.sched.byeScheduled && !s'.sched.firstCall && s'.sched.prev == 0.0 && s'.sched.next <= 100.0
    ensures !s'.sched.sendByeNow && s'.sched.avgByeSize == |p.data| && s'.sched.byeMembers == 1
  {
    var i := PollAt(Collision(a, 0.0, p, newSsrc), 0.0, true);
    PatientShares();
    SharesSuffice(PATIENT, s, i);
    s' := Step(PATIENT, s, PollSession(i)).s;
    OneArrival(PATIENT, s, i.arrivals[0]);
    var r := Receive(PATIENT, s, i.arrivals[0]);
    assert r.s.sched == ScheduleBye(s.sched, PATIENT.p, ALONE, |p.data|, 0.0, 0.0);
    PatientInterval(ByeWaiting(s.sched, PATIENT.p, ALONE, |p.data|, 0.0));
    assert r.s.collisions == [CollisionList.Entry(a, 0.0)];
    KeptOne(r.s.collisions[0], CollisionCheck(PATIENT, r.s, i));
    hide Receive, ByeInterval, DeterministicInterval, CollisionList.Kept;
  }

  lemma PatientShares()
    ensures Share(PATIENT.p, ALONE, false) == 750.0 && ByeShare(PATIENT.p) == 750.0
    ensures CanDivide(PATIENT.p, ALONE)
  {
  }

  lemma PatientInterval(s: State)
    requires s.byeScheduled && !s.sendByeNow && s.byeMembers == 1 && s.avgByeSize <= 560
    ensures ByeShare(PATIENT.p) != 0.0 && 0.0 < ByeInterval(s, PATIENT.p, 0.0) < 100.0
  {
    PatientShares();
    assert s.avgByeSize as real / 750.0 <= 1.0;
  }

  lemma OneArrival(c: Config, s: SessionState, a: Arrival)
    requires CanReceiveAll(c, s, [a])
    ensures ReceiveAll(c, s, [a]).s == Receive(c, s, a).s && ReceiveAll(c, s, [a]).ok == Receive(c, s, a).ok
  {
    hide Receive;
    assert [a][1..] == [];
  }

  lemma KeptOne(e: CollisionList.Entry, check: real)
    requires e.time >= check
    ensures CollisionList.Kept([e], check) == [e]
  {
    assert [e][..0] == [];
    CollisionList.KeptEntries([e], check, e);
  }

  /** The second collision's BYE packet is queued behind it, and sending the first fails. */
  lemma SecondCollisionFails(a: CollisionList.Address, b: CollisionList.Address, p: Packet, q: Packet,
                             s: SessionState, newSsrc: u32)
    returns (s': SessionState)
    requires !CollisionList.SameAddress(a, b) && |p.data| <= 560
    requires s.byes == [p] && s.sentPackets && s.collisions == [CollisionList.Entry(a, 0.0)]
    requires s.sched.byeScheduled && !s.sched.firstCall && s.sched.prev == 0.0 && s.sched.next <= 100.0
    requires !s.sched.sendByeNow && s.sched.avgByeSize == |p.data| && s.sched.byeMembers == 1
    ensures EventPossible(PATIENT, s, SecondPoll(b, q, newSsrc))
    ensures s' == Step(PATIENT, s, SecondPoll(b, q, newSsrc)).s
    ensures s'.byes == [q] && Stalled(s') && s'.ssrc == newSsrc
  {
    var i := PollAt(Collision(b, 100.0, q, newSsrc), 100.0, false);
    PatientShares();
    SharesSuffice(PATIENT, s, i);
    s' := Step(PATIENT, s, PollSession(i)).s;
    OneArrival(PATIENT, s, i.arrivals[0]);
    var r := Receive(PATIENT, s, i.arrivals[0]);
    assert !CollisionList.Has(s.collisions, b);
    assert r.s.sched == s.sched && r.s.byes == [p] + [q];
    PatientInterval(r.s.sched);
    hide Receive, ByeInterval, DeterministicInterval, CollisionList.Kept;
  }

  // ---- collisions ----

  function Ops(h: seq<Happening>): (ops: seq<CollisionList.Op>)
    ensures |ops| == |h| && forall i :: 0 <= i < |h| ==> ops[i] == h[i].op
  {
    seq(|h|, i requires 0 <= i < |h| => h[i].op)
  }

  /** A history of the collision list that starts from the one `ops` leave: it leads to
      `list`, and a new SSRC came only with an address that was not listed. */
  ghost predicate Explains(ops: seq<CollisionList.Op>, h: seq<Happening>, list: seq<CollisionList.Entry>) {
    && list == CollisionList.After(ops + Ops(h))
    && forall i :: 0 <= i < |h| && h[i].renewed ==>
         h[i].op.Update? && !CollisionList.Has(CollisionList.After(ops + Ops(h)[..i]), h[i].op.addr)
  }

  lemma ExplainsNothing(ops: seq<CollisionList.Op>)
    ensures Explains(ops, [], CollisionList.After(ops))
  {
    assert ops + Ops([]) == ops;
  }

  lemma ExplainsOne(ops: seq<CollisionList.Op>, h: Happening)
    requires h.renewed ==> h.op.Update? && !CollisionList.Has(CollisionList.After(ops), h.op.addr)
    ensures Explains(ops, [h], CollisionList.Apply(CollisionList.After(ops), h.op))
  {
    assert Ops([h]) == [h.op];
    assert (ops + [h.op])[..|ops|] == ops;
    assert ops + Ops([h])[..0] == ops;
  }

  lemma ExplainsThen(ops: seq<CollisionList.Op>, h: seq<Happening>, mid: seq<CollisionList.Entry>,
                     h2: seq<Happening>, list: seq<CollisionList.Entry>)
    requires Explains(ops, h, mid) && Explains(ops + Ops(h), h2, list)
    ensures Explains(ops, h + h2, list)
  {
    hide CollisionList.After, CollisionList.Has;
    assert Ops(h + h2) == Ops(h) + Ops(h2);
    assert ops + Ops(h + h2) == ops + Ops(h) + Ops(h2);
    forall i | 0 <= i < |h + h2| && (h + h2)[i].renewed
      ensures (h + h2)[i].op.Update?
      ensures !CollisionList.Has(CollisionList.After(ops + Ops(h + h2)[..i]), (h + h2)[i].op.addr)
    {
      if i < |h| {
        assert Ops(h + h2)[..i] == Ops(h)[..i];
      } else {
        assert ops + Ops(h + h2)[..i] == ops + Ops(h) + Ops(h2)[..i - |h|];
      }
    }
  }

  lemma ReceiveExplains(c: Config, s: SessionState, a: Arrival, ops: seq<CollisionList.Op>)
    requires CanReceive(c, s, a) && s.collisions == CollisionList.After(ops)
    ensures var r := Receive(c, s, a);
            && Explains(ops, r.happened, r.s.collisions)
            && (r.s.ssrc != s.ssrc ==> |r.happened| == 1 && r.happened[0].renewed)
  {
    hide CollisionList.After, CollisionList.Has, CollisionList.Updated, Explains, Effects, ScheduleBye;
    if a.kept && a.accepted && a.collision {
      ExplainsOne(ops, Collide(c, s.(sched := Effects(s.sched, a.effects)), a).happened[0]);
    } else {
      ExplainsNothing(ops);
    }
  }

  lemma {:induction false} ReceiveAllExplains(c: Config, s: SessionState, arrivals: seq<Arrival>,
                                              ops: seq<CollisionList.Op>)
    requires CanReceiveAll(c, s, arrivals) && s.collisions == CollisionList.After(ops)
    ensures var r := ReceiveAll(c, s, arrivals);
            Explains(ops, r.happened, r.s.collisions)
    decreases |arrivals|
  {
    if arrivals == [] {
      ExplainsNothing(ops);
    } else {
      var r := Receive(c, s, arrivals[0]);
      ReceiveExplains(c, s, arrivals[0], ops);
      hide Receive;
      if r.ok {
        assert r.s.collisions == CollisionList.After(ops + Ops(r.happened));
        hide Explains;
        ReceiveAllExplains(c, r.s, arrivals[1..], ops + Ops(r.happened));
        var rest := ReceiveAll(c, r.s, arrivals[1..]);
        ExplainsThen(ops, r.happened, r.s.collisions, rest.happened, rest.s.collisions);
      }
    }
  }

  lemma PollExplains(c: Config, s: SessionState, i: Input, ops: seq<CollisionList.Op>)
    requires PollPossible(c, s, i) && s.collisions == CollisionList.After(ops)
    ensures Explains(ops, PollResult(c, s, i).happened, PollResult(c, s, i).s.collisions)
  {
    var r := ReceiveAll(c, s, i.arrivals);
    ReceiveAllExplains(c, s, i.arrivals, ops);
    hide ReceiveAll;
    if r.ok {
      assert r.s.collisions == CollisionList.After(ops + Ops(r.happened));
      hide Explains;
      var expiry := Happening(CollisionList.Expire(CollisionCheck(c, r.s, i)), false);
      ExplainsOne(ops + Ops(r.happened), expiry);
      assert Transmit(c, TimeOut(c, r.s, i), i).0.collisions == TimeOut(c, r.s, i).collisions;
      ExplainsThen(ops, r.happened, r.s.collisions, [expiry], TimeOut(c, r.s, i).collisions);
    }
  }

  lemma StepExplains(c: Config, s: SessionState, e: Event, ops: seq<CollisionList.Op>)
    requires EventPossible(c, s, e) && s.collisions == CollisionList.After(ops)
    ensures Explains(ops, Step(c, s, e).happened, Step(c, s, e).s.collisions)
  {
    hide PollResult, PollPossible, Explains, CollisionList.After;
    if e.PollSession? {
      PollExplains(c, s, e.i, ops);
    } else {
      ExplainsNothing(ops);
    }
  }

  lemma {:induction false} RunExplains(c: Config, s: SessionState, events: seq<Event>)
    requires AllPossible(c, s, events) && s.collisions == []
    ensures Explains([], Happened(c, s, events), After(c, s, events).collisions)
  {
    if events == [] {
      ExplainsNothing([]);
    } else {
      hide Step, EventPossible;
      var front := events[..|events| - 1];
      RunExplains(c, s, front);
      var ops := Ops(Happened(c, s, front));
      assert [] + ops == ops;
      StepExplains(c, After(c, s, front), events[|events| - 1], ops);
      ExplainsThen([], Happened(c, s, front), After(c, s, front).collisions,
                   LastStep(c, s, events).happened, LastStep(c, s, events).s.collisions);
    }
  }

  ghost predicate RenewsFor(h: Happening, addr: CollisionList.Address) {
    h.renewed && h.op.Update? && CollisionList.SameAddress(h.op.addr, addr)
  }

  lemma RenewedTwice(h: seq<Happening>, list: seq<CollisionList.Entry>, i: nat, j: nat, addr: CollisionList.Address)
    returns (k: nat)
    requires Explains([], h, list) && i < j < |h|
    requires RenewsFor(h[i], addr) && RenewsFor(h[j], addr) && h[j].op.addr == addr
    ensures i < k < j && h[k].op.Expire?
    ensures var seen := CollisionList.LastSeen(Ops(h)[..k], addr);
            seen.Some? && seen.value < h[k].op.check
  {
    hide CollisionList.After, CollisionList.Has, CollisionList.LastSeen;
    assert [] + Ops(h)[..j] == Ops(h)[..j];
    k := CollisionList.CreatedAgain(Ops(h), i, j, addr);
  }

  /** Two new SSRCs because of the same address: in between the entry of that address
      timed out, its last sighting being older than the check time. */
  lemma RenewedAgain(c: Config, s: SessionState, events: seq<Event>, i: nat, j: nat, addr: CollisionList.Address)
    returns (k: nat)
    requires AllPossible(c, s, events) && s.collisions == [] && i < j < |Happened(c, s, events)|
    requires RenewsFor(Happened(c, s, events)[i], addr) && RenewsFor(Happened(c, s, events)[j], addr)
    requires Happened(c, s, events)[j].op.addr == addr
    ensures i < k < j && Happened(c, s, events)[k].op.Expire?
    ensures var seen := CollisionList.LastSeen(Ops(Happened(c, s, events))[..k], addr);
            seen.Some? && seen.value < Happened(c, s, events)[k].op.check
  {
    hide Happened, Explains, AllPossible, After;
    RunExplains(c, s, events);
    k := RenewedTwice(Happened(c, s, events), After(c, s, events).collisions, i, j, addr);
  }

  // ---- leaving ----

  /** One turn of the loop in which the last BYE packets are sent. */
  datatype Turn = Turn(time: real, m: Members, now: real, later: real, r: real, r2: real,
                       byeMembers: Members, byeNow: real, byeR: real)

  /** Every interval the turn computes has a divisor that is not zero. */
  ghost predicate TurnPossible(p: Params, sched: State, queue: seq<Packet>, turn: Turn) {
    && CanPoll(sched, p, turn.m, turn.now, turn.r)
    && var (s, due) := IsTime(sched, p, turn.m, turn.now, turn.later, turn.r, turn.r2);
       due && |queue| > 1 ==> CanSchedule(s, p, turn.byeMembers)
  }

  /** One turn: the state of the scheduler after it, and the packet that left, if any. */
  ghost function TakeTurn(p: Params, sched: State, queue: seq<Packet>, turn: Turn): (r: (State, seq<Packet>))
    requires queue != [] && TurnPossible(p, sched, queue, turn)
    ensures r.1 <= queue && |r.1| <= 1
  {
    var (s1, due) := IsTime(sched, p, turn.m, turn.now, turn.later, turn.r, turn.r2);
    if !due then (s1, [])
    else if |queue| == 1 then (s1, [queue[0]])
    else (ScheduleBye(s1, p, turn.byeMembers, |queue[1].data|, turn.byeNow, turn.byeR), [queue[0]])
  }

  /** The first k turns, taken for as long as BYE packets wait. */
  ghost predicate TurnsPossible(p: Params, sched: State, queue: seq<Packet>, turns: seq<Turn>, k: nat)
    requires k <= |turns|
    decreases k, 0
  {
    k > 0 ==>
      && TurnsPossible(p, sched, queue, turns, k - 1)
      && var (s, sent) := Turned(p, sched, queue, turns, k - 1);
         |sent| < |queue| ==> TurnPossible(p, s, queue[|sent|..], turns[k - 1])
  }

  /** The scheduler after k turns, and the BYE packets that have left in them. */
  ghost function Turned(p: Params, sched: State, queue: seq<Packet>, turns: seq<Turn>, k: nat)
    : (r: (State, seq<Packet>))
    requires k <= |turns| && TurnsPossible(p, sched, queue, turns, k)
    ensures r.1 <= queue && |r.1| <= k
    decreases k, 1
  {
    if k == 0 then (sched, [])
    else
      var (s, sent) := Turned(p, sched, queue, turns, k - 1);
      if |sent| == |queue| then (s, sent)
      else
        var (s', gone) := TakeTurn(p, s, queue[|sent|..], turns[k - 1]);
        (s', sent + gone)
  }

  ghost predicate AllTurnsPossible(p: Params, sched: State, queue: seq<Packet>, turns: seq<Turn>) {
    forall k :: 0 <= k <= |turns| ==> TurnsPossible(p, sched, queue, turns, k)
  }

  /** k turns one after the other: each finds a BYE packet waiting, and all but the last
      are before the end of the waiting time. */
  ghost predicate OnCourse(p: Params, sched: State, queue: seq<Packet>, stop: real, turns: seq<Turn>,
                           k: nat, sent: seq<Packet>)
    requires AllTurnsPossible(p, sched, queue, turns)
  {
    && k <= |turns| && sent == Turned(p, sched, queue, turns, k).1
    && (forall l :: 0 <= l < k ==> Turned(p, sched, queue, turns, l).1 != queue)
    && (forall l :: 0 <= l < k - 1 ==> turns[l].time < stop)
  }

  /** The turns of the whole loop: after them all BYE packets have left, or the time is up. */
  ghost predicate IsCourse(p: Params, sched: State, queue: seq<Packet>, stop: real, turns: seq<Turn>,
                           k: nat, sent: seq<Packet>)
    requires AllTurnsPossible(p, sched, queue, turns)
  {
    && OnCourse(p, sched, queue, stop, turns, k, sent)
    && (sent == queue || (0 < k && turns[k - 1].time >= stop))
  }

  predicate CanJoin(p: Params, s: SessionState, bye: Option<Packet>, m: Members) {
    s.sentPackets && bye.Some? && s.byes == [] ==> CanSchedule(s.sched, p, m)
  }

  /** Our own BYE packet, if this SSRC has sent, joins the queue. */
  ghost function WithOwnBye(p: Params, s: SessionState, bye: Option<Packet>, m: Members, now: real, r: real)
    : SessionState
    requires CanJoin(p, s, bye, m)
  {
    if !s.sentPackets || bye.None? then s
    else s.(byes := s.byes + [bye.value],
            sched := if s.byes == [] then ScheduleBye(s.sched, p, m, |bye.value.data|, now, r) else s.sched)
  }

  ghost predicate Expires(p: Params, s: State, t: Turn)
    requires CanPoll(s, p, t.m, t.now, t.r)
  {
    IsTime(s, p, t.m, t.now, t.later, t.r, t.r2).1
  }

  /** In such a course every turn sends the next BYE packet exactly if its timer has
      expired; so the last of the queue leaves only after all others. */
  lemma OneTurnMore(p: Params, sched: State, queue: seq<Packet>, stop: real, turns: seq<Turn>,
                    k: nat, sent: seq<Packet>, l: nat)
    requires AllTurnsPossible(p, sched, queue, turns) && IsCourse(p, sched, queue, stop, turns, k, sent) && l < k
    ensures var (s, before) := Turned(p, sched, queue, turns, l);
            && |before| < |queue| && CanPoll(s, p, turns[l].m, turns[l].now, turns[l].r)
            && Turned(p, sched, queue, turns, l + 1).1 ==
               before + if Expires(p, s, turns[l]) then [queue[|before|]] else []
  {
    hide IsTime, ScheduleBye, CanPoll, CanSchedule;
    assert TurnsPossible(p, sched, queue, turns, l + 1);
  }
}
