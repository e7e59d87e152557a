/** The scheduler object: the fields of its state, updated step by step.  Each method is
    proved against the function of SchedulerModel for the same step. */
module Scheduler {
  import opened RtcpPackets
  import opened SchedulerModel

  datatype Setting = Accepted | InvalidBandwidth | BadFraction | BadMinimumInterval

  ghost predicate HasBye(packets: seq<RTCPPacket>) {
    exists p :: p in packets && p.BYE?
  }

  class RTCPSchedulerParams {
    var bandwidth: real
    var senderFraction: real
    var minInterval: real
    var useHalfAtStartup: bool
    var immediateBye: bool

    ghost function Value(): Params
      reads this
    {
      Params(bandwidth, senderFraction, minInterval, useHalfAtStartup, immediateBye)
    }

    constructor ()
      ensures ValidParams(Value())
    {
      bandwidth, senderFraction, minInterval := 1000.0, 0.25, 5.0;
      useHalfAtStartup, immediateBye := true, true;
    }

    /** The setters keep the parameters valid, and refuse exactly the values that would not. */
    method SetRTCPBandwidth(bw: real) returns (status: Setting)
      requires ValidParams(Value())
      modifies this
      ensures ValidParams(Value())
      ensures status.Accepted? <==> ValidParams(old(Value()).(bandwidth := bw))
      ensures Value() == if status.Accepted? then old(Value()).(bandwidth := bw) else old(Value())
    {
      if bw < 0.0 {
        return InvalidBandwidth;
      }
      bandwidth := bw;
      return Accepted;
    }

    method SetSenderBandwidthFraction(fraction: real) returns (status: Setting)
      requires ValidParams(Value())
      modifies this
      ensures ValidParams(Value())
      ensures status.Accepted? <==> ValidParams(old(Value()).(senderFraction := fraction))
      ensures Value() == if status.Accepted? then old(Value()).(senderFraction := fraction) else old(Value())
    {
      if fraction < 0.0 || fraction > 1.0 {
        return BadFraction;
      }
      senderFraction := fraction;
      return Accepted;
    }

    method SetMinimumTransmissionInterval(t: real) returns (status: Setting)
      requires ValidParams(Value())
      modifies this
      ensures ValidParams(Value())
      ensures status.Accepted? <==> ValidParams(old(Value()).(minInterval := t))
      ensures Value() == if status.Accepted? then old(Value()).(minInterval := t) else old(Value())
    {
      if t < MIN_INTERVAL {
        return BadMinimumInterval;
      }
      minInterval := t;
      return Accepted;
    }
  }

  class RTCPScheduler {
    var params: Params
    var headerOverhead: nat
    var avgRtcpPackSize: nat
    var hasSentRtcp: bool
    var firstCall: bool
    var nextRtcpTime: real
    var prevRtcpTime: real
    var pmembers: int
    var byeScheduled: bool
    var byeMembers: int
    var pbyeMembers: int
    var avgByePacketSize: nat
    var sendByeNow: bool

    ghost function Value(): State
      reads this
    {
      State(headerOverhead, avgRtcpPackSize, hasSentRtcp, firstCall, nextRtcpTime, prevRtcpTime, pmembers,
            byeScheduled, byeMembers, pbyeMembers, avgByePacketSize, sendByeNow)
    }

    constructor (p: Params)
      ensures params == p && Value() == Fresh()
    {
      params := p;
      pmembers, byeMembers, pbyeMembers, avgByePacketSize := 0, 0, 0, 0;
      nextRtcpTime, prevRtcpTime := 0.0, 0.0;
      new;
      Reset();
    }

    method Reset()
      modifies this
      ensures params == old(params) && Value() == AfterReset(old(Value()))
    {
      headerOverhead := 0;
      hasSentRtcp := false;
      firstCall := true;
      avgRtcpPackSize := 1000;
      byeScheduled := false;
      sendByeNow := false;
    }

    method SetHeaderOverhead(bytes: nat)
      modifies this`headerOverhead
      ensures Value() == old(Value()).(headerOverhead := bytes)
    {
      headerOverhead := bytes;
    }

    method AnalyseIncoming(packets: seq<RTCPPacket>, length: nat)
      modifies this
      ensures params == old(params)
      ensures Value() == SchedulerModel.AnalyseIncoming(old(Value()), HasBye(packets), length)
    {
      var isBye := FindBye(packets);
      if !isBye {
        var packSize := headerOverhead + length;
        avgRtcpPackSize := (packSize + 15 * avgRtcpPackSize) / 16;
      } else {
        if byeScheduled {
          var packSize := headerOverhead + length;
          avgByePacketSize := (packSize + 15 * avgByePacketSize) / 16;
          byeMembers := byeMembers + 1;
        }
      }
    }

    method AnalyseOutgoing(packets: seq<RTCPPacket>, length: nat)
      modifies this
      ensures params == old(params)
      ensures Value() == SchedulerModel.AnalyseOutgoing(old(Value()), HasBye(packets), length)
    {
      var isBye := FindBye(packets);
      if !isBye {
        var packSize := headerOverhead + length;
        avgRtcpPackSize := (packSize + 15 * avgRtcpPackSize) / 16;
      }
      hasSentRtcp := true;
    }

    /** The two loops that look for a BYE packet in the compound packet. */
    static method FindBye(packets: seq<RTCPPacket>) returns (isBye: bool)
      ensures isBye == HasBye(packets)
    {
      isBye := false;
      var i := 0;
      while !isBye && i < |packets|
        invariant i <= |packets|
        invariant isBye == exists k :: 0 <= k < i && packets[k].BYE?
      {
        if packets[i].BYE? {
          isBye := true;
        }
        i := i + 1;
      }
      assert isBye ==> exists k :: 0 <= k < i && packets[k] in packets && packets[k].BYE?;
    }

    method GetTransmissionDelay(m: Members, now: real, later: real, last: real, r: real) returns (delay: real)
      requires firstCall ==> CanDivide(params, m)
      modifies this
      ensures params == old(params)
      ensures (Value(), delay) == TransmissionDelay(old(Value()), params, m, now, later, last, r)
    {
      if firstCall {
        firstCall := false;
        prevRtcpTime := now;
        pmembers := m.active;
        CalculateNextRTCPTime(m, later, r);
      }
      if last > nextRtcpTime {
        return 0.0;
      }
      var diff := nextRtcpTime;
      diff := diff - last;
      return diff;
    }

    /** Whether it is time for a packet; `now` and `later` are the clock readings, `r`
        and `r2` the random draws. */
    method IsTime(m: Members, now: real, later: real, r: real, r2: real) returns (due: bool)
      requires CanPoll(Value(), params, m, now, r)
      modifies this
      ensures params == old(params)
      ensures (Value(), due) == SchedulerModel.IsTime(old(Value()), params, m, now, later, r, r2)
    {
      if firstCall {
        firstCall := false;
        prevRtcpTime := now;
        pmembers := m.active;
        CalculateNextRTCPTime(m, later, r);
        return false;
      }
      var currentTime := now;
      if currentTime < nextRtcpTime {
        return false;
      }
      var checkTime: real;
      if !byeScheduled {
        checkTime := CalculateTransmissionInterval(m, m.weAreSender, r);
      } else {
        checkTime := CalculateBYETransmissionInterval(r);
      }
      checkTime := checkTime + prevRtcpTime;
      if checkTime <= currentTime {
        byeScheduled := false;
        prevRtcpTime := currentTime;
        pmembers := m.active;
        CalculateNextRTCPTime(m, later, r2);
        return true;
      }
      nextRtcpTime := checkTime;
      pmembers := m.active;
      return false;
    }

    method CalculateNextRTCPTime(m: Members, later: real, r: real)
      requires CanDivide(params, m)
      modifies this`nextRtcpTime
      ensures nextRtcpTime == later + TransmissionInterval(old(Value()), params, m, r)
    {
      SameInterval(Value(), Value().(next := later), params, m);
      hide DeterministicInterval, Spread, Share;
      nextRtcpTime := later;
      var interval := CalculateTransmissionInterval(m, m.weAreSender, r);
      nextRtcpTime := nextRtcpTime + interval;
    }

    method CalculateDeterministicInterval(m: Members, sender: bool) returns (td: real)
      requires Share(params, m, sender) != 0.0
      ensures td == DeterministicInterval(Value(), params, m, sender)
    {
      var numTotal := m.active;
      if numTotal == 0 {
        numTotal := numTotal + 1;
      }
      var fraction := m.senders as real / numTotal as real;
      assert (fraction <= params.senderFraction) == SendersAreFew(params, m);
      ghost var few := SendersAreFew(params, m);
      ghost var share, group := Share(params, m, sender), GroupSize(params, m, sender);
      assert few && sender ==> share == params.senderFraction * params.bandwidth && group == m.senders;
      assert few && !sender ==>
               share == (1.0 - params.senderFraction) * params.bandwidth && group == numTotal - m.senders;
      assert !few ==> share == params.bandwidth && group == numTotal;
      hide SendersAreFew, Longer, Share, GroupSize;
      var c, n;
      if fraction <= params.senderFraction {
        if sender {
          c := avgRtcpPackSize as real / (params.senderFraction * params.bandwidth);
          assert c == avgRtcpPackSize as real / share;
          n := m.senders as real;
        } else {
          c := avgRtcpPackSize as real / ((1.0 - params.senderFraction) * params.bandwidth);
          assert c == avgRtcpPackSize as real / share;
          n := (numTotal - m.senders) as real;
        }
      } else {
        c := avgRtcpPackSize as real / params.bandwidth;
        n := numTotal as real;
      }
      var tmin := params.minInterval;
      if !hasSentRtcp && params.useHalfAtStartup {
        tmin := tmin / 2.0;
      }
      LongerIs(tmin, group, avgRtcpPackSize, share, c, n);
      var nTimesC := n * c;
      td := if tmin > nTimesC then tmin else nTimesC;
    }

    method CalculateTransmissionInterval(m: Members, sender: bool, r: real) returns (t: real)
      requires Share(params, m, sender) != 0.0
      ensures t == Spread(DeterministicInterval(Value(), params, m, sender), r)
    {
      var td := CalculateDeterministicInterval(m, sender);
      var mul := r + 0.5;
      t := td * mul / COMPENSATION;
    }

    method CalculateBYETransmissionInterval(r: real) returns (t: real)
      requires ByeDivides(Value(), params)
      ensures t == ByeInterval(Value(), params, r)
    {
      if !byeScheduled {
        return 0.0;
      }
      if sendByeNow {
        return 0.0;
      }
      var c := avgByePacketSize as real / ((1.0 - params.senderFraction) * params.bandwidth);
      var n := byeMembers as real;
      var tmin := params.minInterval;
      if params.useHalfAtStartup {
        tmin := tmin / 2.0;
      }
      var nTimesC := n * c;
      var td := if tmin > nTimesC then tmin else nTimesC;
      var mul := r + 0.5;
      t := td * mul / COMPENSATION;
    }

    method PerformReverseReconsideration(members: nat, now: real)
      modifies this
      ensures params == old(params) && Value() == ReverseReconsideration(old(Value()), members, now)
    {
      hide Part;
      if firstCall {
        return;
      }
      var ahead := nextRtcpTime;
      if ahead > now {
        ahead := ahead - now;
      } else {
        ahead := 0.0;
      }
      var behind := now;
      if behind > prevRtcpTime {
        behind := behind - prevRtcpTime;
      } else {
        behind := 0.0;
      }
      if pmembers == 0 {
        pmembers := pmembers + 1;
      }
      var diff1 := Part(members, pmembers, ahead);
      var diff2 := Part(members, pmembers, behind);
      nextRtcpTime := now;
      prevRtcpTime := now;
      nextRtcpTime := nextRtcpTime + diff1;
      prevRtcpTime := prevRtcpTime - diff2;
      pmembers := members;
    }

    method ActiveMemberDecrease(members: nat, now: real)
      modifies this
      ensures params == old(params) && Value() == MemberDecrease(old(Value()), members, now)
    {
      if members < pmembers {
        PerformReverseReconsideration(members, now);
      }
    }

    method ScheduleBYEPacket(m: Members, packetSize: nat, now: real, r: real)
      requires CanSchedule(Value(), params, m)
      modifies this
      ensures params == old(params) && Value() == ScheduleBye(old(Value()), params, m, packetSize, now, r)
    {
      if byeScheduled {
        return;
      }
      if firstCall {
        firstCall := false;
        pmembers := m.active;
      }
      byeScheduled := true;
      avgByePacketSize := packetSize + headerOverhead;
      byeMembers := 1;
      pbyeMembers := 1;
      if params.immediateBye && m.active < 50 {
        sendByeNow := true;
      } else {
        sendByeNow := false;
      }
      prevRtcpTime := now;
      assert Value() == ByeWaiting(old(Value()), params, m, packetSize, now);
      SameBye(Value(), now, params, r);
      hide ByeInterval, ByeWaiting;
      nextRtcpTime := prevRtcpTime;
      var interval := CalculateBYETransmissionInterval(r);
      nextRtcpTime := nextRtcpTime + interval;
    }
  }
}
