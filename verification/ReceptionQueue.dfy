/** The queue of received packets of one source, kept in the order of their extended
    sequence numbers: insertion from the back, duplicates dropped. */
module ReceptionQueue {
  import opened Bytes
  import opened Wrappers

  /** A received packet; the statistics have given it its extended sequence number. */
  datatype Packet = Packet(extSeqNr: u32, payload: seq<byte>)

  predicate Sorted(q: seq<Packet>) {
    forall i, j :: 0 <= i < j < |q| ==> q[i].extSeqNr < q[j].extSeqNr
  }

  predicate Queued(q: seq<Packet>, n: u32) {
    exists i :: 0 <= i < |q| && q[i].extSeqNr == n
  }

  /** The queue with this packet in its place, or unchanged when its number is queued. */
  function Insert(q: seq<Packet>, p: Packet): seq<Packet> {
    if q == [] then [p]
    else if p.extSeqNr < q[0].extSeqNr then [p] + q
    else if p.extSeqNr == q[0].extSeqNr then q
    else [q[0]] + Insert(q[1..], p)
  }

  lemma {:induction false} InsertBetween(q: seq<Packet>, p: Packet, i: nat)
    requires i <= |q|
    requires forall k :: 0 <= k < i ==> q[k].extSeqNr < p.extSeqNr
    requires i < |q| ==> p.extSeqNr < q[i].extSeqNr
    ensures Insert(q, p) == q[..i] + [p] + q[i..]
  {
    if i == 0 {
      assert q[..0] + [p] + q[0..] == [p] + q;
    } else {
      InsertBetween(q[1..], p, i - 1);
      assert q[1..][..i - 1] == q[1..i] && q[1..][i - 1..] == q[i..];
      assert q[..i] + [p] + q[i..] == [q[0]] + (q[1..i] + [p] + q[i..]);
    }
  }

  lemma {:induction false} InsertQueued(q: seq<Packet>, p: Packet, i: nat)
    requires i < |q| && q[i].extSeqNr == p.extSeqNr
    requires forall k :: 0 <= k < i ==> q[k].extSeqNr < p.extSeqNr
    ensures Insert(q, p) == q
  {
    if i > 0 {
      InsertQueued(q[1..], p, i - 1);
      assert [q[0]] + q[1..] == q;
    }
  }

  /** Where a packet whose number is not queued belongs. */
  lemma {:induction false} Place(q: seq<Packet>, p: Packet) returns (i: nat)
    requires Sorted(q) && !Queued(q, p.extSeqNr)
    ensures i <= |q|
    ensures forall k :: 0 <= k < i ==> q[k].extSeqNr < p.extSeqNr
    ensures forall k :: i <= k < |q| ==> p.extSeqNr < q[k].extSeqNr
  {
    i := |q|;
    while i > 0 && p.extSeqNr < q[i - 1].extSeqNr
      invariant i <= |q| && forall k :: i <= k < |q| ==> p.extSeqNr < q[k].extSeqNr
    {
      i := i - 1;
    }
    if i > 0 {
      assert q[i - 1].extSeqNr != p.extSeqNr;
    }
  }

  lemma SortedAround(q: seq<Packet>, p: Packet, i: nat)
    requires Sorted(q) && i <= |q|
    requires forall k :: 0 <= k < i ==> q[k].extSeqNr < p.extSeqNr
    requires forall k :: i <= k < |q| ==> p.extSeqNr < q[k].extSeqNr
    ensures Sorted(q[..i] + [p] + q[i..])
  {
  }

  lemma ContentsAround(q: seq<Packet>, p: Packet, i: nat)
    requires i <= |q|
    ensures multiset(q[..i] + [p] + q[i..]) == multiset(q) + multiset{p}
  {
    assert q == q[..i] + q[i..];
  }

  /** Insertion keeps the queue strictly increasing, loses nothing, and takes the packet
      in exactly iff its number was absent. */
  lemma {:induction false} InsertMeans(q: seq<Packet>, p: Packet)
    requires Sorted(q)
    ensures Sorted(Insert(q, p))
    ensures Queued(q, p.extSeqNr) ==> Insert(q, p) == q
    ensures !Queued(q, p.extSeqNr) ==> multiset(Insert(q, p)) == multiset(q) + multiset{p}
    ensures Queued(Insert(q, p), p.extSeqNr)
  {
    if Queued(q, p.extSeqNr) {
      var i :| 0 <= i < |q| && q[i].extSeqNr == p.extSeqNr;
      InsertQueued(q, p, i);
    } else {
      var i := Place(q, p);
      InsertBetween(q, p, i);
      SortedAround(q, p, i);
      ContentsAround(q, p, i);
      hide Sorted;
      assert Insert(q, p)[i] == p;
    }
  }

  class RTPInternalSourceData {
    var ownSsrc: bool
    var validated: bool
    var isSender: bool
    var packetList: seq<Packet>

    constructor ()
      ensures packetList == [] && !validated && !isSender && !ownSsrc
    {
      packetList, validated, isSender, ownSsrc := [], false, false, false;
    }

    /** A packet arrives.  Whether the statistics accept it and whether the callback takes
        it over are arbitrary; `stored` says that somebody keeps it. */
    method ProcessRTPPacket(p: Packet, accept: bool, handled: bool) returns (stored: bool)
      requires Sorted(packetList)
      modifies this
      ensures packetList == if accept && !handled then Insert(old(packetList), p) else old(packetList)
      ensures stored <==> accept && (handled || !Queued(old(packetList), p.extSeqNr))
      ensures validated == (old(validated) || accept) && ownSsrc == old(ownSsrc)
      ensures isSender == (old(isSender) || (accept && !ownSsrc))
    {
      hide Insert;
      stored := false;
      if !accept {
        return;
      }
      validated := true;
      if validated && !ownSsrc {
        isSender := true;
      }
      if handled {
        stored := true;
        return;
      }
      if packetList == [] {
        stored := true;
        packetList := packetList + [p];
        InsertBetween([], p, 0);
        return;
      }
      var done := false;
      var it := |packetList| - 1;
      var start := 0;
      ghost var q := packetList;
      while !done
        invariant !done ==> 0 <= it < |q| && packetList == q && !stored
        invariant !done ==> forall k :: it < k < |q| ==> p.extSeqNr < q[k].extSeqNr
        invariant done ==> packetList == Insert(q, p) && stored == !Queued(q, p.extSeqNr)
        modifies this`packetList
        decreases !done, it
      {
        var seqNr := packetList[it].extSeqNr;
        if seqNr > p.extSeqNr {
          if it != start {
            it := it - 1;
          } else {
            stored := true;
            done := true;
            InsertBetween(q, p, 0);
            packetList := [p] + packetList;
            assert packetList == q[..0] + [p] + q[0..];
          }
        } else if seqNr < p.extSeqNr {
          it := it + 1;
          InsertBetween(q, p, it);
          packetList := packetList[..it] + [p] + packetList[it..];
          done := true;
          stored := true;
        } else {
          InsertQueued(q, p, it);
          done := true;
        }
      }
    }

    /** The next packet for the application: the one with the lowest number. */
    method GetNextPacket() returns (p: Option<Packet>)
      modifies this`packetList
      ensures p.Some? <==> validated && old(packetList) != []
      ensures old(packetList) == (if p.Some? then [p.value] else []) + packetList
    {
      if !validated {
        return None;
      }
      if packetList == [] {
        return None;
      }
      p := Some(packetList[0]);
      packetList := packetList[1..];
    }

    method FlushPackets()
      modifies this`packetList
      ensures packetList == []
    {
      packetList := [];
    }
  }

  // ---- runs ----

  datatype Event = Arrive(p: Packet, accept: bool, handled: bool) | Take | Flush

  /** The queue after an event, and what left it. */
  function Step(q: seq<Packet>, e: Event): (seq<Packet>, seq<Packet>) {
    match e
    case Arrive(p, accept, handled) => (if accept && !handled then Insert(q, p) else q, [])
    case Take => if q == [] then (q, []) else (q[1..], [q[0]])
    case Flush => ([], q)
  }

  /** What an event brings into the queue. */
  function Entering(q: seq<Packet>, e: Event): seq<Packet> {
    if e.Arrive? && e.accept && !e.handled && !Queued(q, e.p.extSeqNr) then [e.p] else []
  }

  function After(q: seq<Packet>, events: seq<Event>): seq<Packet> {
    if events == [] then q else Step(After(q, events[..|events| - 1]), events[|events| - 1]).0
  }

  function Entered(q: seq<Packet>, events: seq<Event>): seq<Packet> {
    if events == [] then []
    else
      var front, last := events[..|events| - 1], events[|events| - 1];
      Entered(q, front) + Entering(After(q, front), last)
  }

  function LeftBy(q: seq<Packet>, events: seq<Event>): seq<Packet> {
    if events == [] then []
    else
      var front, last := events[..|events| - 1], events[|events| - 1];
      LeftBy(q, front) + Step(After(q, front), last).1
  }

  lemma Unfold(q: seq<Packet>, events: seq<Event>)
    requires events != []
    ensures var front, last := events[..|events| - 1], events[|events| - 1];
            && After(q, events) == Step(After(q, front), last).0
            && multiset(Entered(q, events)) == multiset(Entered(q, front)) + multiset(Entering(After(q, front), last))
            && multiset(LeftBy(q, events)) == multiset(LeftBy(q, front)) + multiset(Step(After(q, front), last).1)
  {
    hide Step, Entering;
  }

  lemma StepKeeps(q: seq<Packet>, e: Event)
    requires Sorted(q)
    ensures Sorted(Step(q, e).0)
    ensures multiset(q) + multiset(Entering(q, e)) == multiset(Step(q, e).0) + multiset(Step(q, e).1)
  {
    match e
    case Arrive(p, _, _) => InsertMeans(q, p);
    case Take =>
      if q != [] {
        assert q == [q[0]] + q[1..];
      }
    case Flush =>
  }

  lemma Balance(entered: multiset<Packet>, queued: multiset<Packet>, left: multiset<Packet>,
                entering: multiset<Packet>, queuedThen: multiset<Packet>, leaving: multiset<Packet>)
    requires entered == queued + left && queued + entering == queuedThen + leaving
    ensures entered + entering == queuedThen + (left + leaving)
  {
    assert entered + entering == (queued + entering) + left;
  }

  /** Whatever arrives, is accepted, handled, taken or flushed: the queue stays strictly
      increasing, and every packet that entered is queued or has left, exactly once. */
  lemma {:induction false} QueueOverRun(events: seq<Event>)
    ensures Sorted(After([], events))
    ensures multiset(Entered([], events)) == multiset(After([], events)) + multiset(LeftBy([], events))
  {
    if events == [] {
    } else {
      var front, last := events[..|events| - 1], events[|events| - 1];
      QueueOverRun(front);
      StepKeeps(After([], front), last);
      Unfold([], events);
      hide After, Entered, LeftBy, Step, Entering, Sorted;
      var q := After([], front);
      Balance(multiset(Entered([], front)), multiset(q), multiset(LeftBy([], front)), multiset(Entering(q, last)),
              multiset(Step(q, last).0), multiset(Step(q, last).1));
    }
  }

  /** What is taken has the lowest number queued. */
  lemma TakesLowest(events: seq<Event>, i: nat)
    requires After([], events) != [] && 0 < i < |After([], events)|
    ensures Step(After([], events), Take).1[0].extSeqNr < After([], events)[i].extSeqNr
  {
    QueueOverRun(events);
  }
}
