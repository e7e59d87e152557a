/** The session object's part in collisions and BYE packets: ProcessPolledData and
    BYEDestroy, step by step, proved against SessionModel. */
module Session {
  import opened Bytes
  import opened Wrappers
  import opened SchedulerModel
  import opened SessionModel
  import Scheduler
  import CollisionList

  class RTPSession {
    const rtcpSched: Scheduler.RTCPScheduler
    const collisionList: CollisionList.RTPCollisionList
    var byePackets: seq<Packet>
    var sentPackets: bool
    var ssrc: u32
    var created: bool
    var collisionMultiplier: real

    ghost function Value(): SessionState
      reads this, rtcpSched, collisionList
    {
      SessionState(rtcpSched.Value(), collisionList.addressList, byePackets, sentPackets, ssrc)
    }

    ghost function Configuration(): Config
      reads this, rtcpSched
    {
      Config(rtcpSched.params, collisionMultiplier)
    }

    constructor (p: Params, multiplier: real, ownSsrc: u32)
      ensures fresh(rtcpSched) && fresh(collisionList)
      ensures Configuration() == Config(p, multiplier) && created
      ensures Value() == Opening(ownSsrc) && InSync(Value())
    {
      rtcpSched := new Scheduler.RTCPScheduler(p);
      collisionList := new CollisionList.RTPCollisionList();
      byePackets, sentPackets, ssrc, created, collisionMultiplier := [], false, ownSsrc, true, multiplier;
    }

    /** What the source table tells the scheduler. */
    method TellScheduler(effects: seq<Effect>)
      modifies rtcpSched
      ensures rtcpSched.params == old(rtcpSched.params)
      ensures rtcpSched.Value() == Effects(old(rtcpSched.Value()), effects)
    {
      assert effects[..0] == [];
      for i := 0 to |effects|
        invariant rtcpSched.params == old(rtcpSched.params)
        invariant rtcpSched.Value() == Effects(old(rtcpSched.Value()), effects[..i])
      {
        assert effects[..i + 1][..i] == effects[..i];
        match effects[i]
        case Heard(parts, length) => rtcpSched.AnalyseIncoming(parts, length);
        case Left(members, now) => rtcpSched.ActiveMemberDecrease(members, now);
      }
      assert effects[..|effects|] == effects;
    }

    /** The body of the loop over the packets that arrived. */
    method HandleArrival(a: Arrival) returns (ok: bool)
      requires CanReceive(Configuration(), Value(), a)
      modifies this`byePackets, this`sentPackets, this`ssrc, rtcpSched, collisionList
      ensures Configuration() == old(Configuration())
      ensures var r := Receive(old(Configuration()), old(Value()), a);
              Value() == r.s && ok == r.ok
    {
      if !a.kept {
        return true;
      }
      TellScheduler(a.effects);
      if !a.accepted {
        return false;
      }
      if a.collision {
        var isNew := collisionList.UpdateAddress(a.sender, a.time);
        if isNew {
          var hasSentPackets := sentPackets;
          if hasSentPackets {
            if a.bye.None? {
              return false;
            }
            byePackets := byePackets + [a.bye.value];
            if |byePackets| == 1 {
              rtcpSched.ScheduleBYEPacket(a.m, |a.bye.value.data|, a.now, a.r);
            }
          }
          ssrc := a.newSsrc;
          sentPackets := false;
          if !a.replaced {
            return false;
          }
        }
      }
      return true;
    }

    /** The loop over the packets that arrived, up to the first that fails. */
    method HandleArrivals(arrivals: seq<Arrival>) returns (ok: bool)
      requires CanReceiveAll(Configuration(), Value(), arrivals)
      modifies this`byePackets, this`sentPackets, this`ssrc, rtcpSched, collisionList
      ensures Configuration() == old(Configuration())
      ensures var r := ReceiveAll(old(Configuration()), old(Value()), arrivals);
              Value() == r.s && ok == r.ok
    {
      hide Receive, CanReceive, Value;
      ghost var c := Configuration();
      ghost var whole := ReceiveAll(c, Value(), arrivals);
      var i := 0;
      assert arrivals[0..] == arrivals;
      while i < |arrivals|
        invariant i <= |arrivals| && Configuration() == c && CanReceiveAll(c, Value(), arrivals[i..])
        invariant var r := ReceiveAll(c, Value(), arrivals[i..]);
                  r.s == whole.s && r.ok == whole.ok
      {
        FirstOfRest(c, Value(), arrivals, i);
        var good := HandleArrival(arrivals[i]);
        if !good {
          return false;
        }
        i := i + 1;
      }
      return true;
    }

    /** One poll. */
    method ProcessPolledData(i: Input) returns (sent: Sent)
      requires PollPossible(Configuration(), Value(), i)
      modifies this, rtcpSched, collisionList
      ensures Configuration() == old(Configuration()) && created == old(created)
      ensures var r := PollResult(old(Configuration()), old(Value()), i);
              Value() == r.s && sent == r.sent
    {
      hide ReceiveAll, CanReceiveAll, Transmit, CanTransmit, Effects, CollisionList.Kept, DeterministicInterval;
      var ok := HandleArrivals(i.arrivals);
      if !ok {
        return Nothing;
      }
      var td := rtcpSched.CalculateDeterministicInterval(i.m, false);
      var collTimeout := td * collisionMultiplier;
      assert i.time - collTimeout == CollisionCheck(Configuration(), Value(), i);
      TellScheduler(i.effects);
      collisionList.Timeout(i.time, collTimeout);
      sent := SendDue(i);
    }

    /** The timer, and the packet that is due. */
    method SendDue(i: Input) returns (sent: Sent)
      requires CanTransmit(Configuration(), Value(), i)
      modifies this`byePackets, this`sentPackets, rtcpSched
      ensures Configuration() == old(Configuration())
      ensures (Value(), sent) == Transmit(old(Configuration()), old(Value()), i)
    {
      var isTime := rtcpSched.IsTime(i.timerMembers, i.now, i.later, i.r, i.r2);
      if !isTime {
        return Nothing;
      }
      var pack: Packet;
      if byePackets == [] {
        if i.report.None? {
          return Nothing;
        }
        pack := i.report.value;
        if !i.sendOk {
          return Report(pack, false);
        }
        sentPackets := true;
        sent := Report(pack, true);
      } else {
        pack := byePackets[0];
        byePackets := byePackets[1..];
        if !i.sendOk {
          return Bye(pack, false);
        }
        sentPackets := true;
        sent := Bye(pack, true);
        if byePackets != [] {
          rtcpSched.ScheduleBYEPacket(i.byeMembers, |byePackets[0].data|, i.byeNow, i.byeR);
        }
      }
      rtcpSched.AnalyseOutgoing(pack.parts, |pack.data|);
    }

    /** SendPacket, in any of its forms, and SendRTCPAPPPacket: `sendOk` says whether the
        data could be built and sent. */
    method SendData(sendOk: bool) returns (ok: bool)
      modifies this`sentPackets
      ensures ok == (created && sendOk) && Value() == DataSent(old(Value()), ok)
    {
      if !created {
        return false;
      }
      if !sendOk {
        return false;
      }
      sentPackets := true;
      return true;
    }

    /** How long to wait for the next poll; nothing when a thread polls. */
    method GetRTCPDelay(pollThread: bool, m: Members, now: real, later: real, last: real, r: real)
      returns (delay: real)
      requires rtcpSched.firstCall ==> CanDivide(rtcpSched.params, m)
      modifies rtcpSched
      ensures Configuration() == old(Configuration())
      ensures if !created || pollThread then delay == 0.0 && Value() == old(Value())
              else
                && Value() ==
                   SessionModel.Step(old(Configuration()), old(Value()), AskForDelay(m, now, later, last, r)).s
                && delay == TransmissionDelay(old(Value()).sched, rtcpSched.params, m, now, later, last, r).1
    {
      hide TransmissionDelay;
      if !created {
        return 0.0;
      }
      if pollThread {
        return 0.0;
      }
      delay := rtcpSched.GetTransmissionDelay(m, now, later, last, r);
    }

    /** Says goodbye and closes the session.  `bye` is the packet BuildBYEPacket returns;
        the clock reaches the end of the waiting time in one of the turns.  The loop takes
        k turns, and our own BYE packet is the last in the queue. */
    method BYEDestroy(stop: real, bye: Option<Packet>, m: Members, now: real, r: real, turns: seq<Turn>)
      returns (sent: seq<Packet>, ghost k: nat)
      requires CanJoin(rtcpSched.params, Value(), bye, m)
      requires var s := WithOwnBye(rtcpSched.params, Value(), bye, m, now, r);
               AllTurnsPossible(rtcpSched.params, s.sched, s.byes, turns)
      requires exists i :: 0 <= i < |turns| && turns[i].time >= stop
      modifies this, rtcpSched, collisionList
      ensures rtcpSched.params == old(rtcpSched.params)
      ensures !old(created) ==> sent == [] && Value() == old(Value())
      ensures old(created) ==>
                var s := WithOwnBye(rtcpSched.params, old(Value()), bye, m, now, r);
                IsCourse(rtcpSched.params, s.sched, s.byes, stop, turns, k, sent)
      ensures old(created) ==> !created && byePackets == [] && collisionList.addressList == []
      ensures old(created) ==> !rtcpSched.byeScheduled && rtcpSched.firstCall
    {
      hide IsCourse, ScheduleBye;
      sent, k := [], 0;
      if !created {
        return;
      }
      if sentPackets {
        if bye.Some? {
          byePackets := byePackets + [bye.value];
          if |byePackets| == 1 {
            rtcpSched.ScheduleBYEPacket(m, |bye.value.data|, now, r);
          }
        }
      }
      if byePackets == [] {
        NothingToSend(rtcpSched.params, rtcpSched.Value(), stop, turns);
      }
      if byePackets != [] {
        sent, k := SendByes(stop, turns);
      }
      rtcpSched.Reset();
      collisionList.Clear();
      byePackets := [];
      created := false;
    }

    /** The loop that waits for the timer and sends one BYE packet each time it expires. */
    method SendByes(stop: real, turns: seq<Turn>) returns (sent: seq<Packet>, ghost k: nat)
      requires AllTurnsPossible(rtcpSched.params, rtcpSched.Value(), byePackets, turns)
      requires exists i :: 0 <= i < |turns| && turns[i].time >= stop
      requires byePackets != []
      modifies this`byePackets, rtcpSched
      ensures rtcpSched.params == old(rtcpSched.params)
      ensures IsCourse(rtcpSched.params, old(rtcpSched.Value()), old(byePackets), stop, turns, k, sent)
      ensures old(byePackets) == sent + byePackets
    {
      hide TakeTurn, TurnPossible, Turned, OnCourse, TurnsPossible;
      ghost var p, start, queue := rtcpSched.params, rtcpSched.Value(), byePackets;
      ghost var last :| 0 <= last < |turns| && turns[last].time >= stop;
      var done := false;
      sent, k := [], 0;
      var turn := 0;
      NoTurn(p, start, queue, stop, turns);
      while !done
        invariant k == turn <= |turns| && rtcpSched.params == p
        invariant rtcpSched.Value() == Turned(p, start, queue, turns, k).0
        invariant OnCourse(p, start, queue, stop, turns, k, sent)
        invariant queue == sent + byePackets
        invariant !done ==> byePackets != [] && k <= last && (0 < k ==> turns[k - 1].time < stop)
        invariant done ==> sent == queue || (0 < k && turns[k - 1].time >= stop)
        decreases !done, |turns| - k
      {
        NextTurn(p, start, queue, stop, turns, k, sent, byePackets);
        if turns[turn].time >= stop {
          done := true;
        }
        var gone := SendIfDue(turns[turn]);
        ConcatAssociative(sent, gone, byePackets);
        sent := sent + gone;
        if byePackets == [] {
          done := true;
        }
        turn := turn + 1;
        k := k + 1;
      }
    }

    /** Sends the first BYE packet if the timer has expired, and schedules the next. */
    method SendIfDue(turn: Turn) returns (gone: seq<Packet>)
      requires byePackets != [] && TurnPossible(rtcpSched.params, rtcpSched.Value(), byePackets, turn)
      modifies this`byePackets, rtcpSched
      ensures rtcpSched.params == old(rtcpSched.params)
      ensures (rtcpSched.Value(), gone) ==
              TakeTurn(old(rtcpSched.params), old(rtcpSched.Value()), old(byePackets), turn)
      ensures old(byePackets) == gone + byePackets
    {
      hide SchedulerModel.IsTime, ScheduleBye;
      ghost var queue := byePackets;
      gone := [];
      var isTime := rtcpSched.IsTime(turn.m, turn.now, turn.later, turn.r, turn.r2);
      if isTime {
        var pack := byePackets[0];
        byePackets := byePackets[1..];
        gone := [pack];
        assert queue == gone + byePackets && (byePackets != [] ==> byePackets[0] == queue[1]);
        if byePackets != [] {
          rtcpSched.ScheduleBYEPacket(turn.byeMembers, |byePackets[0].data|, turn.byeNow, turn.byeR);
        }
      }
    }
  }

  lemma NoTurn(p: Params, sched: State, queue: seq<Packet>, stop: real, turns: seq<Turn>)
    requires AllTurnsPossible(p, sched, queue, turns)
    ensures Turned(p, sched, queue, turns, 0).0 == sched && OnCourse(p, sched, queue, stop, turns, 0, [])
    ensures [] + queue == queue
  {
  }

  /** With nothing to send the loop takes no turn. */
  lemma NothingToSend(p: Params, sched: State, stop: real, turns: seq<Turn>)
    requires AllTurnsPossible(p, sched, [], turns)
    ensures IsCourse(p, sched, [], stop, turns, 0, [])
  {
  }

  lemma NextTurn(p: Params, sched: State, queue: seq<Packet>, stop: real, turns: seq<Turn>, k: nat,
                 sent: seq<Packet>, waiting: seq<Packet>)
    requires AllTurnsPossible(p, sched, queue, turns) && OnCourse(p, sched, queue, stop, turns, k, sent) && k < |turns|
    requires queue == sent + waiting && waiting != [] && (0 < k ==> turns[k - 1].time < stop)
    ensures TurnPossible(p, Turned(p, sched, queue, turns, k).0, waiting, turns[k])
    ensures var (s', gone) := TakeTurn(p, Turned(p, sched, queue, turns, k).0, waiting, turns[k]);
            Turned(p, sched, queue, turns, k + 1).0 == s' && OnCourse(p, sched, queue, stop, turns, k + 1, sent + gone)
  {
    hide TakeTurn, TurnPossible;
    assert queue[|sent|..] == waiting;
    assert TurnsPossible(p, sched, queue, turns, k + 1);
  }

  lemma FirstOfRest(c: Config, s: SessionState, arrivals: seq<Arrival>, i: nat)
    requires i < |arrivals| && CanReceiveAll(c, s, arrivals[i..])
    ensures CanReceive(c, s, arrivals[i])
    ensures var r := Receive(c, s, arrivals[i]);
            var whole := ReceiveAll(c, s, arrivals[i..]);
            if !r.ok then whole == r
            else
              && CanReceiveAll(c, r.s, arrivals[i + 1..])
              && var rest := ReceiveAll(c, r.s, arrivals[i + 1..]);
                 whole.s == rest.s && whole.ok == rest.ok
  {
    hide Receive;
    assert arrivals[i..][0] == arrivals[i];
    assert arrivals[i..][1..] == arrivals[i + 1..];
  }
}
