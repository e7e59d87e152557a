/** The addresses from which a collision with our own SSRC was seen, and when. */
module CollisionList {
  import opened Bytes
  import opened Wrappers

  datatype Address = Address(ipv6: bool, host: seq<byte>, port: u16, rtcpSendPort: u16)

  /** The port RTCP is sent to does not tell addresses apart. */
  predicate SameAddress(a: Address, b: Address) {
    a.ipv6 == b.ipv6 && a.host == b.host && a.port == b.port
  }

  lemma SameButForRtcpPort(a: Address, b: Address)
    ensures SameAddress(a, b) <==> a == b.(rtcpSendPort := a.rtcpSendPort)
  {
  }

  datatype Entry = Entry(addr: Address, time: real)

  ghost predicate Distinct(list: seq<Entry>) {
    forall i, j :: 0 <= i < j < |list| ==> !SameAddress(list[i].addr, list[j].addr)
  }

  /** The first entry with this address, or the end of the list. */
  function Find(list: seq<Entry>, addr: Address): (i: nat)
    ensures i <= |list|
    ensures i < |list| ==> SameAddress(list[i].addr, addr)
    ensures forall k :: 0 <= k < i ==> !SameAddress(list[k].addr, addr)
  {
    if list == [] then 0
    else
      var i := Find(list[..|list| - 1], addr);
      if i < |list| - 1 || SameAddress(list[i].addr, addr) then i else |list|
  }

  predicate Has(list: seq<Entry>, addr: Address) {
    Find(list, addr) < |list|
  }

  function Updated(list: seq<Entry>, addr: Address, time: real): seq<Entry> {
    var i := Find(list, addr);
    if i < |list| then list[i := list[i].(time := time)] else list + [Entry(addr, time)]
  }

  /** The entries not older than the check time. */
  function Kept(list: seq<Entry>, check: real): seq<Entry> {
    if list == [] then []
    else
      var last := list[|list| - 1];
      Kept(list[..|list| - 1], check) + if last.time < check then [] else [last]
  }

  class RTPCollisionList {
    var addressList: seq<Entry>

    constructor ()
      ensures addressList == []
    {
      addressList := [];
    }

    method Clear()
      modifies this
      ensures addressList == []
    {
      addressList := [];
    }

    /** The time of the entry is renewed, or the entry is created. */
    method UpdateAddress(addr: Address, receiveTime: real) returns (created: bool)
      modifies this
      ensures created <==> !Has(old(addressList), addr)
      ensures addressList == Updated(old(addressList), addr, receiveTime)
    {
      ghost var was := addressList;
      for i := 0 to |addressList|
        invariant addressList == was
        invariant forall k :: 0 <= k < i ==> !SameAddress(was[k].addr, addr)
      {
        if SameAddress(addressList[i].addr, addr) {
          addressList := addressList[i := addressList[i].(time := receiveTime)];
          return false;
        }
      }
      addressList := addressList + [Entry(addr, receiveTime)];
      return true;
    }

    method HasAddress(addr: Address) returns (has: bool)
      ensures has == Has(addressList, addr)
    {
      for i := 0 to |addressList|
        invariant forall k :: 0 <= k < i ==> !SameAddress(addressList[k].addr, addr)
      {
        if SameAddress(addressList[i].addr, addr) {
          return true;
        }
      }
      return false;
    }

    /** Erases the entries that are too old, in one pass. */
    method Timeout(currentTime: real, timeoutDelay: real)
      modifies this
      ensures addressList == Kept(old(addressList), currentTime - timeoutDelay)
    {
      var checkTime := currentTime;
      checkTime := checkTime - timeoutDelay;
      ghost var was, seen := addressList, 0;
      var it := 0;
      PassBegins(was, checkTime);
      hide Passed;
      while it < |addressList|
        invariant seen <= |was| && Passed(was, seen, checkTime, addressList, it)
        decreases |was| - seen
      {
        PassStep(was, seen, checkTime, addressList, it);
        if addressList[it].time < checkTime {
          addressList := addressList[..it] + addressList[it + 1..];
        } else {
          it := it + 1;
        }
        seen := seen + 1;
      }
      PassEnds(was, seen, checkTime, addressList, it);
    }
  }

  /** A pass that has looked at the first `seen` entries: what it kept, then the rest. */
  ghost predicate Passed(was: seq<Entry>, seen: nat, check: real, list: seq<Entry>, it: nat)
    requires seen <= |was|
  {
    var kept := Kept(was[..seen], check);
    list == kept + was[seen..] && it == |kept|
  }

  lemma PassBegins(was: seq<Entry>, check: real)
    ensures Passed(was, 0, check, was, 0)
  {
    assert was[..0] == [];
  }

  lemma PassStep(was: seq<Entry>, seen: nat, check: real, list: seq<Entry>, it: nat)
    requires seen <= |was| && Passed(was, seen, check, list, it) && it < |list|
    ensures seen < |was|
    ensures if list[it].time < check
            then Passed(was, seen + 1, check, list[..it] + list[it + 1..], it)
            else Passed(was, seen + 1, check, list, it + 1)
  {
    var kept := Kept(was[..seen], check);
    assert was[..seen + 1][..seen] == was[..seen];
    assert was[seen..] == [was[seen]] + was[seen + 1..];
    hide Kept;
    assert list[..it] + list[it + 1..] == kept + was[seen + 1..];
    assert list == kept + [was[seen]] + was[seen + 1..];
    assert kept + [] == kept;
  }

  lemma PassEnds(was: seq<Entry>, seen: nat, check: real, list: seq<Entry>, it: nat)
    requires seen <= |was| && Passed(was, seen, check, list, it)
    ensures it >= |list| ==> list == Kept(was, check)
    ensures it < |list| ==> seen < |was|
  {
    if it >= |list| {
      assert was[..seen] == was;
    }
  }

  // ---- the list as a table of times ----

  function EntryTime(list: seq<Entry>, addr: Address): Option<real> {
    if Has(list, addr) then Some(list[Find(list, addr)].time) else None
  }

  /** With distinct addresses any entry is the one that is found. */
  lemma FindsEntry(list: seq<Entry>, i: nat, addr: Address)
    requires Distinct(list) && i < |list| && SameAddress(list[i].addr, addr)
    ensures Find(list, addr) == i
  {
  }

  lemma UpdatedTimes(list: seq<Entry>, addr: Address, time: real, other: Address)
    requires Distinct(list)
    ensures Distinct(Updated(list, addr, time))
    ensures EntryTime(Updated(list, addr, time), other) ==
            (if SameAddress(addr, other) then Some(time) else EntryTime(list, other))
  {
    var after := Updated(list, addr, time);
    var i := Find(list, addr);
    assert i < |after| && after[i].time == time && SameAddress(after[i].addr, addr);
    assert forall k :: 0 <= k < |list| ==> after[k].addr == list[k].addr;
    hide Find;
    if SameAddress(addr, other) {
      FindsEntry(after, i, other);
    } else if Has(list, other) {
      FindsEntry(after, Find(list, other), other);
    }
  }

  lemma {:induction false} KeptEntries(list: seq<Entry>, check: real, e: Entry)
    ensures e in Kept(list, check) <==> e in list && e.time >= check
  {
    if list == [] {
    } else {
      var front, last := list[..|list| - 1], list[|list| - 1];
      KeptEntries(front, check, e);
      assert list == front + [last];
    }
  }

  lemma {:induction false} KeptDistinct(list: seq<Entry>, check: real)
    requires Distinct(list)
    ensures Distinct(Kept(list, check))
  {
    if list == [] {
    } else {
      var front, last := list[..|list| - 1], list[|list| - 1];
      KeptDistinct(front, check);
      forall i | 0 <= i < |Kept(front, check)|
        ensures !SameAddress(Kept(front, check)[i].addr, last.addr)
      {
        KeptEntries(front, check, Kept(front, check)[i]);
      }
    }
  }

  lemma KeptTimes(list: seq<Entry>, check: real, addr: Address)
    requires Distinct(list)
    ensures Distinct(Kept(list, check))
    ensures EntryTime(Kept(list, check), addr) ==
            match EntryTime(list, addr) case Some(t) => (if t < check then None else Some(t)) case None => None
  {
    var kept := Kept(list, check);
    KeptDistinct(list, check);
    hide Find, Kept;
    if Has(kept, addr) {
      var e := kept[Find(kept, addr)];
      KeptEntries(list, check, e);
      var i :| 0 <= i < |list| && list[i] == e;
      FindsEntry(list, i, addr);
    } else if Has(list, addr) {
      KeptEntries(list, check, list[Find(list, addr)]);
    }
  }

  // ---- runs ----

  datatype Op = Update(addr: Address, time: real) | Expire(check: real)

  function Apply(list: seq<Entry>, op: Op): seq<Entry> {
    match op
    case Update(addr, time) => Updated(list, addr, time)
    case Expire(check) => Kept(list, check)
  }

  function After(ops: seq<Op>): seq<Entry> {
    if ops == [] then [] else Apply(After(ops[..|ops| - 1]), ops[|ops| - 1])
  }

  /** When this address was last seen, unless that has timed out since: what the list
      should say about one address, whatever happens to the others. */
  function LastSeen(ops: seq<Op>, addr: Address): Option<real> {
    if ops == [] then None
    else
      var before := LastSeen(ops[..|ops| - 1], addr);
      match ops[|ops| - 1]
      case Update(a, time) => if SameAddress(a, addr) then Some(time) else before
      case Expire(check) => if before.Some? && before.value < check then None else before
  }

  lemma {:induction false} ListTellsLastSeen(ops: seq<Op>, addr: Address)
    ensures Distinct(After(ops)) && EntryTime(After(ops), addr) == LastSeen(ops, addr)
  {
    if ops == [] {
    } else {
      var front, last := ops[..|ops| - 1], ops[|ops| - 1];
      ListTellsLastSeen(front, addr);
      hide Distinct, EntryTime, Updated, Kept, Find;
      match last
      case Update(a, time) => UpdatedTimes(After(front), a, time, addr);
      case Expire(check) => KeptTimes(After(front), check, addr);
    }
  }

  /** An entry is created a second time only after a timeout erased it: between two
      creations for an address some check time was later than its last sighting. */
  lemma {:induction false} CreatedAgain(ops: seq<Op>, i: nat, j: nat, addr: Address) returns (k: nat)
    requires i < j <= |ops| && ops[i].Update? && SameAddress(ops[i].addr, addr)
    requires !Has(After(ops[..j]), addr)
    ensures i < k < j && ops[k].Expire?
    ensures var seen := LastSeen(ops[..k], addr);
            seen.Some? && seen.value < ops[k].check
    decreases j
  {
    hide After, Find;
    ListTellsLastSeen(ops[..j], addr);
    assert ops[..j][..j - 1] == ops[..j - 1] && ops[..j][j - 1] == ops[j - 1];
    k := j - 1;
    if k > i && !Has(After(ops[..k]), addr) {
      k := CreatedAgain(ops, i, k, addr);
    } else {
      ListTellsLastSeen(ops[..k], addr);
    }
  }
}
