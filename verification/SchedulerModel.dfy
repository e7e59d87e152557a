/** The timing rules of RTCP (sections 6.2 and 6.3 of RFC 3550) as functions on the
    scheduler's state: transmission intervals, timer reconsideration when the timer
    expires, reverse reconsideration when members leave, and BYE back-off.  Times are
    real numbers of seconds; a clock reading or a random draw is a parameter. */
module SchedulerModel {

  datatype Params = Params(bandwidth: real, senderFraction: real, minInterval: real,
                           useHalfAtStartup: bool, immediateBye: bool)

  /** The compensation of section 6.3.1: the interval is divided by e - 3/2. */
  const COMPENSATION := 1.21828

  const MIN_INTERVAL := 1.0

  /** What the setters of the parameters let through. */
  predicate ValidParams(p: Params) {
    p.bandwidth >= 0.0 && 0.0 <= p.senderFraction <= 1.0 && p.minInterval >= MIN_INTERVAL
  }

  /** What the source table tells. */
  datatype Members = Members(senders: nat, active: nat, weAreSender: bool)

  datatype State = State(headerOverhead: nat, avgPacketSize: nat, hasSent: bool, firstCall: bool,
                         next: real, prev: real, pmembers: int,
                         byeScheduled: bool, byeMembers: int, pbyeMembers: int, avgByeSize: nat, sendByeNow: bool)

  function AfterReset(s: State): State {
    s.(headerOverhead := 0, hasSent := false, firstCall := true, avgPacketSize := 1000,
       byeScheduled := false, sendByeNow := false)
  }

  function Fresh(): State {
    State(0, 1000, false, true, 0.0, 0.0, 0, false, 0, 0, 0, false)
  }

  // ---- intervals ----

  function Total(m: Members): nat {
    if m.active == 0 then 1 else m.active
  }

  predicate SendersAreFew(p: Params, m: Members) {
    m.senders as real / Total(m) as real <= p.senderFraction
  }

  /** The bandwidth our group of members shares. */
  function Share(p: Params, m: Members, sender: bool): real {
    if SendersAreFew(p, m) then
      if sender then p.senderFraction * p.bandwidth else (1.0 - p.senderFraction) * p.bandwidth
    else p.bandwidth
  }

  function GroupSize(p: Params, m: Members, sender: bool): int {
    if SendersAreFew(p, m) then if sender then m.senders else Total(m) - m.senders
    else Total(m)
  }

  /** The minimum interval: half of it before the first packet, when so configured. */
  function MinimumNow(p: Params, hasSent: bool): real {
    if !hasSent && p.useHalfAtStartup then p.minInterval / 2.0 else p.minInterval
  }

  function DeterministicInterval(s: State, p: Params, m: Members, sender: bool): (td: real)
    requires Share(p, m, sender) != 0.0
    ensures td >= MinimumNow(p, s.hasSent)
  {
    Longer(MinimumNow(p, s.hasSent), GroupSize(p, m, sender), s.avgPacketSize, Share(p, m, sender))
  }

  /** The minimum, or the time the packets of n members take at this bandwidth. */
  function Longer(tmin: real, n: int, size: nat, bandwidth: real): (td: real)
    requires bandwidth != 0.0
    ensures td >= tmin
  {
    var packetTime := size as real / bandwidth;
    if tmin > n as real * packetTime then tmin else n as real * packetTime
  }

  /** Bytes a second that n members send when each sends a packet of this size once an
      interval. */
  function Rate(n: int, size: nat, td: real): real
    requires td != 0.0
  {
    n as real * size as real / td
  }

  lemma LongerKeepsShare(tmin: real, n: int, size: nat, bandwidth: real)
    requires tmin > 0.0 && n >= 0 && bandwidth > 0.0
    ensures Rate(n, size, Longer(tmin, n, size, bandwidth)) <= bandwidth
  {
    var packetTime := size as real / bandwidth;
    var td := Longer(tmin, n, size, bandwidth);
    var all := n as real * packetTime;
    assert td >= all;
    assert n as real * size as real == all * bandwidth by {
      assert packetTime * bandwidth == size as real;
    }
    RatioAtMost(all, td, bandwidth);
  }

  lemma RatioAtMost(x: real, td: real, bandwidth: real)
    requires 0.0 < td && x <= td && bandwidth > 0.0
    ensures x * bandwidth / td <= bandwidth
  {
    assert x * bandwidth <= td * bandwidth;
  }

  /** Section 6.2 of RFC 3550: at the deterministic interval the members together stay
      within the RTCP bandwidth, senders and receivers apart when senders are few. */
  lemma BandwidthKept(s: State, p: Params, m: Members)
    requires ValidParams(p) && m.senders <= Total(m)
    requires Share(p, m, true) > 0.0 && Share(p, m, false) > 0.0
    ensures var senders := DeterministicInterval(s, p, m, true);
            var others := DeterministicInterval(s, p, m, false);
            && senders > 0.0 && others > 0.0
            && if SendersAreFew(p, m)
               then Rate(m.senders, s.avgPacketSize, senders) + Rate(Total(m) - m.senders, s.avgPacketSize, others)
                    <= p.bandwidth
               else senders == others && Rate(Total(m), s.avgPacketSize, senders) <= p.bandwidth
  {
    GroupKeepsShare(s, p, m, true);
    GroupKeepsShare(s, p, m, false);
    SharesAddUp(p, m);
    if !SendersAreFew(p, m) {
      assert DeterministicInterval(s, p, m, true) == DeterministicInterval(s, p, m, false);
      assert Share(p, m, true) == p.bandwidth;
    }
    hide DeterministicInterval, Share, Rate, SendersAreFew;
  }

  lemma GroupKeepsShare(s: State, p: Params, m: Members, sender: bool)
    requires ValidParams(p) && m.senders <= Total(m) && Share(p, m, sender) > 0.0
    ensures var td := DeterministicInterval(s, p, m, sender);
            td > 0.0 && Rate(GroupSize(p, m, sender), s.avgPacketSize, td) <= Share(p, m, sender)
  {
    hide Longer, Share, SendersAreFew, Rate;
    LongerKeepsShare(MinimumNow(p, s.hasSent), GroupSize(p, m, sender), s.avgPacketSize, Share(p, m, sender));
  }

  lemma SharesAddUp(p: Params, m: Members)
    ensures SendersAreFew(p, m) ==> Share(p, m, true) + Share(p, m, false) == p.bandwidth
  {
  }

  /** A draw from [0, 1) spreads the interval over half to one and a half times itself. */
  predicate IsDraw(r: real) {
    0.0 <= r < 1.0
  }

  function Spread(td: real, r: real): real {
    td * (r + 0.5) / COMPENSATION
  }

  lemma NotNegative(x: real, y: real)
    requires x >= 0.0 && y >= 0.0
    ensures x * y >= 0.0
  {
  }

  lemma Between(td: real, x: real, product: real)
    requires td >= 0.0 && 0.5 <= x <= 1.5 && product == td * x
    ensures 0.5 * td <= product <= 1.5 * td
  {
    NotNegative(td, x - 0.5);
    NotNegative(td, 1.5 - x);
    assert td * (x - 0.5) == product - 0.5 * td;
    assert td * (1.5 - x) == 1.5 * td - product;
  }

  lemma SpreadBounds(td: real, r: real)
    requires td >= 0.0 && IsDraw(r)
    ensures 0.5 * td / COMPENSATION <= Spread(td, r) <= 1.5 * td / COMPENSATION
  {
    Between(td, r + 0.5, td * (r + 0.5));
  }

  function TransmissionInterval(s: State, p: Params, m: Members, r: real): real
    requires Share(p, m, m.weAreSender) != 0.0
  {
    Spread(DeterministicInterval(s, p, m, m.weAreSender), r)
  }

  function ByeShare(p: Params): real {
    (1.0 - p.senderFraction) * p.bandwidth
  }

  /** The BYE interval divides by the receivers' share only while a BYE packet has to wait. */
  predicate ByeDivides(s: State, p: Params) {
    s.byeScheduled && !s.sendByeNow ==> ByeShare(p) != 0.0
  }

  function ByeInterval(s: State, p: Params, r: real): real
    requires ByeDivides(s, p)
  {
    if !s.byeScheduled || s.sendByeNow then 0.0
    else
      Spread(Longer(MinimumNow(p, false), s.byeMembers, s.avgByeSize, ByeShare(p)), r)
  }

  lemma LongerIs(tmin: real, members: int, size: nat, bandwidth: real, c: real, n: real)
    requires bandwidth != 0.0 && c == size as real / bandwidth && n == members as real
    ensures Longer(tmin, members, size, bandwidth) == if tmin > n * c then tmin else n * c
  {
  }

  /** The BYE interval does not depend on when the running interval ends. */
  lemma SameBye(s: State, next: real, p: Params, r: real)
    requires ByeDivides(s, p)
    ensures ByeInterval(s.(next := next), p, r) == ByeInterval(s, p, r)
  {
  }

  // ---- steps ----

  /** The divisor of the transmission interval is not zero. */
  predicate CanDivide(p: Params, m: Members) {
    Share(p, m, m.weAreSender) != 0.0
  }

  /** And neither is that of the BYE interval, should a BYE packet have to be scheduled. */
  predicate CanSchedule(s: State, p: Params, m: Members) {
    s.byeScheduled || (p.immediateBye && m.active < 50) || ByeShare(p) != 0.0
  }

  /** Starting the timer at the first call. */
  function Begin(s: State, p: Params, m: Members, now: real, later: real, r: real): State
    requires CanDivide(p, m)
  {
    var s1 := s.(firstCall := false, prev := now, pmembers := m.active);
    s1.(next := later + TransmissionInterval(s1, p, m, r))
  }

  /** The divisor of the interval that is recomputed when the timer expires. */
  predicate CanCheck(s: State, p: Params, m: Members) {
    if s.byeScheduled then ByeDivides(s, p) else CanDivide(p, m)
  }

  /** The interval recomputed when the timer expires. */
  function CheckTime(s: State, p: Params, m: Members, r: real): real
    requires CanCheck(s, p, m)
  {
    s.prev + if s.byeScheduled then ByeInterval(s, p, r) else TransmissionInterval(s, p, m, r)
  }

  /** The intervals a poll computes have divisors that are not zero: the transmission
      interval at the first call and when a packet is due, and the one that decides whether
      it is due once the timer has expired. */
  predicate CanPoll(s: State, p: Params, m: Members, now: real, r: real) {
    if s.firstCall then CanDivide(p, m)
    else now >= s.next ==> CanCheck(s, p, m) && (CheckTime(s, p, m, r) <= now ==> CanDivide(p, m))
  }

  /** One poll: `now` and `later` are the two clock readings, `r` and `r2` the draws. */
  function IsTime(s: State, p: Params, m: Members, now: real, later: real, r: real, r2: real): (State, bool)
    requires CanPoll(s, p, m, now, r)
  {
    if s.firstCall then (Begin(s, p, m, now, later, r), false)
    else if now < s.next then (s, false)
    else
      var check := CheckTime(s, p, m, r);
      if check <= now then
        var s1 := s.(byeScheduled := false, prev := now, pmembers := m.active);
        (s1.(next := later + TransmissionInterval(s1, p, m, r2)), true)
      else (s.(next := check, pmembers := m.active), false)
  }

  /** How long until a packet may be due. */
  function TransmissionDelay(s: State, p: Params, m: Members, now: real, later: real, last: real, r: real)
    : (State, real)
    requires s.firstCall ==> CanDivide(p, m)
  {
    var s1 := if s.firstCall then Begin(s, p, m, now, later, r) else s;
    (s1, if last > s1.next then 0.0 else s1.next - last)
  }

  function Ratio(members: nat, pmembers: int): real
    requires pmembers != 0
  {
    members as real / pmembers as real
  }

  /** The part of a time span that is left when members leave. */
  function Part(members: nat, pmembers: int, span: real): real
    requires pmembers != 0
  {
    Ratio(members, pmembers) * span
  }

  /** Both ends of the running interval move towards the present, in proportion. */
  function ReverseReconsideration(s: State, members: nat, now: real): State {
    if s.firstCall then s
    else
      var pm := if s.pmembers == 0 then 1 else s.pmembers;
      var ahead := if s.next > now then s.next - now else 0.0;
      var behind := if now > s.prev then now - s.prev else 0.0;
      s.(next := now + Part(members, pm, ahead), prev := now - Part(members, pm, behind), pmembers := members)
  }

  function MemberDecrease(s: State, members: nat, now: real): State {
    if members < s.pmembers then ReverseReconsideration(s, members, now) else s
  }

  function ScheduleBye(s: State, p: Params, m: Members, size: nat, now: real, r: real): State
    requires CanSchedule(s, p, m)
  {
    if s.byeScheduled then s
    else
      var s1 := ByeWaiting(s, p, m, size, now);
      s1.(next := now + ByeInterval(s1, p, r))
  }

  /** The state a BYE of this size waits in, before its interval is drawn. */
  function ByeWaiting(s: State, p: Params, m: Members, size: nat, now: real): State {
    s.(firstCall := false, pmembers := if s.firstCall then m.active else s.pmembers,
       byeScheduled := true, avgByeSize := size + s.headerOverhead, byeMembers := 1, pbyeMembers := 1,
       sendByeNow := p.immediateBye && m.active < 50, prev := now)
  }

  /** A sixteenth of the new size, fifteen sixteenths of the old average. */
  function Average(size: nat, average: nat): nat {
    (size + 15 * average) / 16
  }

  function AnalyseIncoming(s: State, isBye: bool, length: nat): State {
    if !isBye then s.(avgPacketSize := Average(s.headerOverhead + length, s.avgPacketSize))
    else if s.byeScheduled then
      s.(avgByeSize := Average(s.headerOverhead + length, s.avgByeSize), byeMembers := s.byeMembers + 1)
    else s
  }

  function AnalyseOutgoing(s: State, isBye: bool, length: nat): State {
    var s1 := if !isBye then s.(avgPacketSize := Average(s.headerOverhead + length, s.avgPacketSize)) else s;
    s1.(hasSent := true)
  }

  // ---- runs ----

  datatype Event =
    | Poll(m: Members, now: real, later: real, r: real, r2: real)
    | AskDelay(m: Members, now: real, later: real, last: real, r: real)
    | MembersLeft(members: nat, now: real)
    | Incoming(isBye: bool, length: nat)
    | Outgoing(isBye: bool, length: nat)

  predicate Possible(p: Params, s: State, e: Event) {
    match e
    case Poll(m, now, later, r, r2) => CanPoll(s, p, m, now, r) && now <= later && IsDraw(r) && IsDraw(r2)
    case AskDelay(m, now, later, last, r) => (s.firstCall ==> CanDivide(p, m)) && now <= later <= last && IsDraw(r)
    case _ => true
  }

  function Step(p: Params, s: State, e: Event): (State, bool)
    requires Possible(p, s, e)
  {
    match e
    case Poll(m, now, later, r, r2) => IsTime(s, p, m, now, later, r, r2)
    case AskDelay(m, now, later, last, r) => (TransmissionDelay(s, p, m, now, later, last, r).0, false)
    case MembersLeft(members, now) => (MemberDecrease(s, members, now), false)
    case Incoming(isBye, length) => (AnalyseIncoming(s, isBye, length), false)
    case Outgoing(isBye, length) => (AnalyseOutgoing(s, isBye, length), false)
  }

  /** The clock after an event, given the clock before it. */
  function ClockAfter(e: Event, clock: real): real {
    match e
    case Poll(_, _, later, _, _) => later
    case AskDelay(_, _, _, last, _) => last
    case MembersLeft(_, now) => now
    case _ => clock
  }

  /** No reading of the event is earlier than the clock. */
  predicate NotEarlier(e: Event, clock: real) {
    match e
    case Poll(_, now, _, _, _) => clock <= now
    case AskDelay(_, now, _, _, _) => clock <= now
    case MembersLeft(_, now) => clock <= now
    case _ => true
  }

  /** A run: the events, the states between them, and the clock at each state. */
  datatype Run = Run(p: Params, events: seq<Event>, states: seq<State>, clocks: seq<real>)

  ghost predicate IsTrace(run: Run) {
    && ValidParams(run.p)
    && |run.states| == |run.clocks| == |run.events| + 1
    && forall i :: 0 <= i < |run.events| ==>
         && Possible(run.p, run.states[i], run.events[i]) && NotEarlier(run.events[i], run.clocks[i])
         && run.states[i + 1] == Step(run.p, run.states[i], run.events[i]).0
         && run.clocks[i + 1] == ClockAfter(run.events[i], run.clocks[i])
  }

  /** A run without a BYE packet of our own. */
  ghost predicate IsRun(run: Run) {
    IsTrace(run) && !run.states[0].byeScheduled && run.states[0].prev <= run.clocks[0]
  }

  predicate Fires(run: Run, i: nat)
    requires i < |run.events| && i < |run.states| && Possible(run.p, run.states[i], run.events[i])
  {
    run.events[i].Poll? && Step(run.p, run.states[i], run.events[i]).1
  }

  // ---- minimum spacing ----

  /** Reverse reconsideration never moves the start of the interval back, because it
      runs only when members are fewer than they were. */
  lemma ReverseOnlyRaises(s: State, members: nat, now: real)
    requires s.prev <= now && members < s.pmembers
    ensures s.prev <= ReverseReconsideration(s, members, now).prev <= now
  {
    hide Part;
    PartShrinks(members, s.pmembers, now - s.prev);
  }

  lemma PartShrinks(members: nat, pmembers: int, span: real)
    requires members < pmembers && span >= 0.0
    ensures 0.0 <= Part(members, pmembers, span) <= span
  {
    RatioBounds(members, pmembers);
    Shrinks(Ratio(members, pmembers), span);
  }

  lemma RatioBounds(members: nat, pmembers: int)
    requires members < pmembers
    ensures 0.0 <= Ratio(members, pmembers) <= 1.0
  {
  }

  lemma Shrinks(ratio: real, x: real)
    requires 0.0 <= ratio <= 1.0 && x >= 0.0
    ensures 0.0 <= ratio * x <= x
  {
  }

  /** What every step keeps: no BYE, and an interval that started in the past. */
  lemma KeepsPast(p: Params, s: State, e: Event, clock: real)
    requires ValidParams(p) && Possible(p, s, e) && NotEarlier(e, clock) && !s.byeScheduled && s.prev <= clock
    ensures var (s', fired) := Step(p, s, e);
            && !s'.byeScheduled && s'.prev <= ClockAfter(e, clock)
            && (!s.firstCall ==> !s'.firstCall && s.prev <= s'.prev)
            && (s.hasSent ==> s'.hasSent)
            && (fired ==> !s.firstCall && !s'.firstCall && s'.prev == e.now)
  {
    if e.MembersLeft? && e.members < s.pmembers {
      ReverseOnlyRaises(s, e.members, e.now);
    }
  }

  lemma {:induction false} PastOverRun(run: Run, i: nat)
    requires IsRun(run) && i <= |run.events|
    ensures !run.states[i].byeScheduled && run.states[i].prev <= run.clocks[i]
  {
    if i > 0 {
      PastOverRun(run, i - 1);
      KeepsPast(run.p, run.states[i - 1], run.events[i - 1], run.clocks[i - 1]);
    }
  }

  /** After a packet was due at event i the interval never starts before that. */
  lemma {:induction false} PrevOverRun(run: Run, i: nat, j: nat)
    requires IsRun(run) && i < j <= |run.events| && Fires(run, i)
    ensures !run.states[j].firstCall && run.events[i].now <= run.states[j].prev
    decreases j
  {
    hide Step;
    PastOverRun(run, j - 1);
    KeepsPast(run.p, run.states[j - 1], run.events[j - 1], run.clocks[j - 1]);
    if i < j - 1 {
      PrevOverRun(run, i, j - 1);
    }
  }

  /** When a poll says yes, the interval since its start is at least half the minimum. */
  lemma FiringIsLate(p: Params, s: State, e: Event)
    requires ValidParams(p) && Possible(p, s, e) && e.Poll? && !s.byeScheduled && Step(p, s, e).1
    ensures e.now - s.prev >= 0.5 * MinimumNow(p, s.hasSent) / COMPENSATION
  {
    var td := DeterministicInterval(s, p, e.m, e.m.weAreSender);
    SpreadBounds(td, e.r);
  }

  /** Two polls of one run that say yes are at least half the minimum interval over
      1.21828 apart, reverse reconsideration or not; a quarter of it only while nothing
      has been sent and the half is configured. */
  lemma {:induction false} MinimumSpacing(run: Run, i: nat, j: nat)
    requires IsRun(run) && i < j < |run.events| && Fires(run, i) && Fires(run, j)
    ensures run.events[j].now - run.events[i].now >= 0.25 * run.p.minInterval / COMPENSATION
    ensures run.states[j].hasSent || !run.p.useHalfAtStartup ==>
              run.events[j].now - run.events[i].now >= 0.5 * run.p.minInterval / COMPENSATION
  {
    hide Step;
    PrevOverRun(run, i, j);
    PastOverRun(run, j);
    FiringIsLate(run.p, run.states[j], run.events[j]);
  }

  /** Asked again before that time, the scheduler says no. */
  lemma NotAgainRightAway(p: Params, s: State, e: Event, e2: Event)
    requires ValidParams(p) && Possible(p, s, e) && e.Poll? && e2.Poll? && Step(p, s, e).1
    requires Possible(p, Step(p, s, e).0, e2)
    requires e2.now < e.later + 0.25 * p.minInterval / COMPENSATION ||
             ((s.hasSent || !p.useHalfAtStartup) && e2.now < e.later + 0.5 * p.minInterval / COMPENSATION)
    ensures !Step(p, Step(p, s, e).0, e2).1
  {
    var s1 := s.(byeScheduled := false, prev := e.now, pmembers := e.m.active);
    SpreadBounds(DeterministicInterval(s1, p, e.m, e.m.weAreSender), e.r2);
  }

  // ---- bounded response ----

  predicate IntervalBounded(p: Params, s: State, m: Members, d: real) {
    CanDivide(p, m) ==> DeterministicInterval(s, p, m, m.weAreSender) <= d
  }

  /** No interval computed in the run is longer than d, and no call takes longer than
      `lag` between its clock readings. */
  ghost predicate Bounded(p: Params, s: State, e: Event, d: real, lag: real) {
    match e
    case Poll(m, now, later, _, _) => IntervalBounded(p, s, m, d) && later - now <= lag
    case AskDelay(m, now, later, _, _) => IntervalBounded(p, s, m, d) && later - now <= lag
    case _ => true
  }

  function LongestWait(d: real, lag: real): real {
    1.5 * d / COMPENSATION + lag
  }

  /** The timer never runs past the longest wait, or past the present. */
  predicate TimerBounded(s: State, d: real, lag: real, clock: real) {
    s.firstCall || s.next <= s.prev + LongestWait(d, lag) || s.next <= clock
  }

  lemma KeepsBounded(p: Params, s: State, e: Event, clock: real, d: real, lag: real)
    requires ValidParams(p) && Possible(p, s, e) && NotEarlier(e, clock) && !s.byeScheduled && s.prev <= clock
    requires d >= 0.0 && lag >= 0.0 && Bounded(p, s, e, d, lag) && TimerBounded(s, d, lag, clock)
    ensures TimerBounded(Step(p, s, e).0, d, lag, ClockAfter(e, clock))
  {
    match e
    case Poll(m, now, later, r, r2) =>
      if CanDivide(p, m) {
        var td := DeterministicInterval(s, p, m, m.weAreSender);
        SpreadBounds(td, r);
        SpreadBounds(td, r2);
        SameInterval(s, s.(byeScheduled := false, prev := now, pmembers := m.active), p, m);
        SameInterval(s, s.(firstCall := false, prev := now, pmembers := m.active), p, m);
      }
    case AskDelay(m, now, later, last, r) =>
      if CanDivide(p, m) {
        SpreadBounds(DeterministicInterval(s, p, m, m.weAreSender), r);
        SameInterval(s, s.(firstCall := false, prev := now, pmembers := m.active), p, m);
      }
    case MembersLeft(members, now) =>
      if members < s.pmembers && !s.firstCall {
        ReverseBounded(s, members, now, d, lag);
      }
    case Incoming(_, _) =>
    case Outgoing(_, _) =>
  }

  /** The interval depends on the average size and on whether a packet was sent. */
  lemma SameInterval(s: State, s': State, p: Params, m: Members)
    requires s.avgPacketSize == s'.avgPacketSize && s.hasSent == s'.hasSent && CanDivide(p, m)
    ensures DeterministicInterval(s, p, m, m.weAreSender) == DeterministicInterval(s', p, m, m.weAreSender)
  {
  }

  lemma ReverseBounded(s: State, members: nat, now: real, d: real, lag: real)
    requires s.prev <= now && members < s.pmembers && !s.firstCall && d >= 0.0 && lag >= 0.0
    requires s.next <= s.prev + LongestWait(d, lag) || s.next <= now
    ensures var s' := ReverseReconsideration(s, members, now);
            s'.next <= s'.prev + LongestWait(d, lag) || s'.next <= now
  {
    var pm := if s.pmembers == 0 then 1 else s.pmembers;
    hide Part;
    PartShrinks(members, pm, now - s.prev);
    PartShrinks(members, pm, if s.next > now then s.next - now else 0.0);
  }

  ghost predicate BoundedRun(run: Run, d: real, lag: real) {
    && IsRun(run) && d >= 0.0 && lag >= 0.0
    && TimerBounded(run.states[0], d, lag, run.clocks[0])
    && forall i :: 0 <= i < |run.events| ==> Bounded(run.p, run.states[i], run.events[i], d, lag)
  }

  lemma {:induction false} TimerOverRun(run: Run, d: real, lag: real, i: nat)
    requires BoundedRun(run, d, lag) && i <= |run.events|
    ensures TimerBounded(run.states[i], d, lag, run.clocks[i])
  {
    hide Step, Bounded, TimerBounded;
    if i > 0 {
      TimerOverRun(run, d, lag, i - 1);
      PastOverRun(run, i - 1);
      KeepsBounded(run.p, run.states[i - 1], run.events[i - 1], run.clocks[i - 1], d, lag);
    }
  }

  /** In a run whose intervals never exceed d, every poll after the first call says yes
      once 1.5 d / 1.21828, and the time a call takes, have passed since the interval
      started. */
  lemma BoundedResponse(run: Run, d: real, lag: real, i: nat)
    requires BoundedRun(run, d, lag) && i < |run.events| && run.events[i].Poll?
    requires !run.states[i].firstCall
    requires run.events[i].now >= run.states[i].prev + 1.5 * d / COMPENSATION + lag
    ensures Fires(run, i)
  {
    TimerOverRun(run, d, lag, i);
    PastOverRun(run, i);
    var s, e := run.states[i], run.events[i];
    assert Bounded(run.p, s, e, d, lag);
    SpreadBounds(DeterministicInterval(s, run.p, e.m, e.m.weAreSender), e.r);
  }

  // ---- BYE back-off ----

  /** A run that starts where a BYE packet of this size has just been scheduled. */
  ghost predicate IsByeRun(run: Run, s: State, m: Members, size: nat, r: real) {
    && IsTrace(run) && !s.byeScheduled && CanSchedule(s, run.p, m) && IsDraw(r)
    && run.states[0] == ScheduleBye(s, run.p, m, size, run.clocks[0], r)
  }

  predicate Waiting(s: State, clock: real) {
    s.byeScheduled && !s.firstCall && s.prev <= clock && (s.sendByeNow ==> s.next <= clock)
  }

  lemma KeepsWaiting(p: Params, s: State, e: Event, clock: real)
    requires ValidParams(p) && Possible(p, s, e) && NotEarlier(e, clock) && Waiting(s, clock)
    ensures var (s', due) := Step(p, s, e);
            && (!due ==> Waiting(s', ClockAfter(e, clock)) && s.prev <= s'.prev && s'.sendByeNow == s.sendByeNow)
            && (due ==> !s'.byeScheduled
                        && (s.sendByeNow || e.now - s.prev >= 0.5 * MinimumNow(p, false) / COMPENSATION))
            && (s.sendByeNow && e.Poll? ==> due)
  {
    if e.MembersLeft? && e.members < s.pmembers {
      ReverseOnlyRaises(s, e.members, e.now);
      var pm := if s.pmembers == 0 then 1 else s.pmembers;
      PartShrinks(e.members, pm, 0.0);
      hide Part, Ratio;
    }
    if e.Poll? {
      PolledWhileWaiting(p, s, e, clock);
      hide CheckTime, IsTime;
    }
  }

  /** The BYE interval decides, or none at all when the BYE goes at once. */
  lemma PolledWhileWaiting(p: Params, s: State, e: Event, clock: real)
    requires ValidParams(p) && Possible(p, s, e) && e.Poll? && clock <= e.now && Waiting(s, clock)
    ensures var (s', due) := IsTime(s, p, e.m, e.now, e.later, e.r, e.r2);
            && (!due ==> Waiting(s', e.later) && s'.prev == s.prev && s'.sendByeNow == s.sendByeNow)
            && (due ==> !s'.byeScheduled
                        && (s.sendByeNow || e.now - s.prev >= 0.5 * MinimumNow(p, false) / COMPENSATION))
            && (s.sendByeNow ==> due)
  {
    if !s.sendByeNow && e.now >= s.next {
      SpreadBounds(Longer(MinimumNow(p, false), s.byeMembers, s.avgByeSize, ByeShare(p)), e.r);
      hide Spread;
    }
    hide TransmissionInterval, Longer, CanDivide, Share;
  }

  lemma {:induction false} WaitingOverRun(run: Run, s: State, m: Members, size: nat, r: real, i: nat)
    requires IsByeRun(run, s, m, size, r) && i <= |run.events|
    requires forall k :: 0 <= k < i ==> !Fires(run, k)
    ensures Waiting(run.states[i], run.clocks[i]) && run.clocks[0] <= run.states[i].prev
    ensures run.states[i].sendByeNow == (run.p.immediateBye && m.active < 50)
  {
    hide Step;
    if i > 0 {
      WaitingOverRun(run, s, m, size, r, i - 1);
      assert !Fires(run, i - 1);
      KeepsWaiting(run.p, run.states[i - 1], run.events[i - 1], run.clocks[i - 1]);
      OnlyPollsAreDue(run.p, run.states[i - 1], run.events[i - 1]);
    }
  }

  /** Only a poll can say that a packet is due. */
  lemma OnlyPollsAreDue(p: Params, s: State, e: Event)
    requires Possible(p, s, e)
    ensures Step(p, s, e).1 ==> e.Poll?
  {
  }

  /** Section 6.3.7 of RFC 3550: in a group of 50 or more, or unless an immediate BYE
      was asked for, the BYE waits at least half the minimum interval over 1.21828, a
      quarter of it when the half is configured. */
  lemma ByeBacksOff(run: Run, s: State, m: Members, size: nat, r: real, i: nat)
    requires IsByeRun(run, s, m, size, r) && i < |run.events| && Fires(run, i)
    requires forall k :: 0 <= k < i ==> !Fires(run, k)
    requires !(run.p.immediateBye && m.active < 50)
    ensures run.events[i].now - run.clocks[0] >= 0.25 * run.p.minInterval / COMPENSATION
    ensures !run.p.useHalfAtStartup ==> run.events[i].now - run.clocks[0] >= 0.5 * run.p.minInterval / COMPENSATION
  {
    WaitingOverRun(run, s, m, size, r, i);
    KeepsWaiting(run.p, run.states[i], run.events[i], run.clocks[i]);
  }

  /** Otherwise the first poll after it was scheduled sends it. */
  lemma ByeImmediately(run: Run, s: State, m: Members, size: nat, r: real, i: nat)
    requires IsByeRun(run, s, m, size, r) && i < |run.events| && run.events[i].Poll?
    requires forall k :: 0 <= k < i ==> !run.events[k].Poll?
    requires run.p.immediateBye && m.active < 50
    ensures Fires(run, i)
  {
    WaitingOverRun(run, s, m, size, r, i);
    KeepsWaiting(run.p, run.states[i], run.events[i], run.clocks[i]);
  }
}
