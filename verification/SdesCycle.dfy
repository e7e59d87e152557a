/** The items other than CNAME: which are due in a cycle, which have been sent, and
    what a cycle spread over several packets sends. */
module SdesCycle {
  import opened SdesFormat

  const ITEM_COUNT := 6

  /** The order the items are tried in. */
  const ITEM_ORDER: seq<ItemType> := [NAME, EMAIL, LOC, PHONE, TOOL, NOTE]

  type Flags = f: seq<bool> | |f| == ITEM_COUNT
    witness [false, false, false, false, false, false]

  const NO_FLAGS: Flags := [false, false, false, false, false, false]

  /** An item is due in every interval-th cycle; never when its interval is not positive. */
  function DueAt(intervals: seq<int>, count: nat): Flags
    requires |intervals| == ITEM_COUNT
  {
    seq(ITEM_COUNT, k requires 0 <= k < ITEM_COUNT => intervals[k] > 0 && count % intervals[k] == 0)
  }

  lemma NextMultiple(n: nat, count: nat) returns (c: nat)
    requires n > 0
    ensures count <= c < count + n && c % n == 0
  {
    var q := (count + n - 1) / n;
    assert count + n - 1 == q * n + (count + n - 1) % n;
    c := q * n;
    Multiple(q, n);
  }

  lemma Multiple(q: nat, n: nat)
    requires n > 0
    ensures q * n % n == 0
  {
    var k, r := q * n / n, q * n % n;
    assert q * n == k * n + r;
    assert (q - k) * n == r;
    SmallMultiple(q - k, n, r);
  }

  lemma SmallMultiple(x: int, n: nat, r: nat)
    requires x * n == r < n
    ensures r == 0
  {
    if x >= 1 {
      MoreThanOne(x, n);
    } else if x <= -1 {
      MoreThanOne(-x, n);
    }
  }

  lemma MoreThanOne(x: nat, n: nat)
    requires x >= 1
    ensures x * n >= n
  {
  }

  lemma NotLess(q: nat, r: nat, n: nat)
    requires q >= r
    ensures q * n >= r * n
  {
    assert (q - r) * n == q * n - r * n;
  }

  lemma MultiplesApart(n: nat, a: nat, b: nat)
    requires n > 0 && a < b && a % n == 0 && b % n == 0
    ensures a + n <= b
  {
    var q, r := a / n, b / n;
    assert a == q * n && b == r * n;
    if q < r {
      MoreThanOne(r - q, n);
      assert (r - q) * n == r * n - q * n;
    } else {
      NotLess(q, r, n);
    }
  }

  /** An item with interval n is due in exactly one of any n cycles in a row, first in the
      n-th; one whose interval is not positive is never due. */
  lemma DueOnceInN(intervals: seq<int>, k: nat, count: nat) returns (c: nat)
    requires |intervals| == ITEM_COUNT && k < ITEM_COUNT
    ensures intervals[k] <= 0 ==> !DueAt(intervals, count)[k]
    ensures intervals[k] > 0 ==>
              && count <= c < count + intervals[k] && DueAt(intervals, c)[k]
              && (forall d :: count <= d < count + intervals[k] && DueAt(intervals, d)[k] ==> d == c)
              && (count == 1 ==> c == intervals[k])
  {
    c := count;
    var n := intervals[k];
    if n > 0 {
      c := NextMultiple(n, count);
      forall d | count <= d < count + n && DueAt(intervals, d)[k]
        ensures d == c
      {
        if d < c {
          MultiplesApart(n, d, c);
        } else if c < d {
          MultiplesApart(n, c, d);
        }
      }
      Multiple(1, n);
      assert DueAt(intervals, n)[k];
    }
  }

  /** The due items before `stop` that have not been sent, in order. */
  function SentTo(due: Flags, done: Flags, stop: nat): (sent: seq<nat>)
    requires stop <= ITEM_COUNT
    ensures forall i :: 0 <= i < |sent| ==> sent[i] < stop
  {
    if stop == 0 then []
    else SentTo(due, done, stop - 1) + if due[stop - 1] && !done[stop - 1] then [stop - 1] else []
  }

  function DoneAfter(due: Flags, done: Flags, stop: nat): (r: Flags)
    requires stop <= ITEM_COUNT
    ensures forall k :: 0 <= k < ITEM_COUNT ==> r[k] == (done[k] || (k < stop && due[k]))
  {
    seq(ITEM_COUNT, k requires 0 <= k < ITEM_COUNT => done[k] || (k < stop && due[k]))
  }

  predicate AllSent(due: Flags, done: Flags) {
    forall k :: 0 <= k < ITEM_COUNT && due[k] ==> done[k]
  }

  /** Everything sent by several packets, the first starting from `done`. */
  function SentRun(due: Flags, done: Flags, stops: seq<nat>): seq<nat>
    requires forall i :: 0 <= i < |stops| ==> stops[i] <= ITEM_COUNT
    decreases |stops|
  {
    if stops == [] then []
    else SentTo(due, done, stops[0]) + SentRun(due, DoneAfter(due, done, stops[0]), stops[1..])
  }

  function DoneRun(due: Flags, done: Flags, stops: seq<nat>): Flags
    requires forall i :: 0 <= i < |stops| ==> stops[i] <= ITEM_COUNT
    decreases |stops|
  {
    if stops == [] then done else DoneRun(due, DoneAfter(due, done, stops[0]), stops[1..])
  }

  lemma {:induction false} SplitSent(due: Flags, done: Flags, s: nat, stop: nat)
    requires s <= ITEM_COUNT && stop <= ITEM_COUNT
    ensures var later := SentTo(due, DoneAfter(due, done, s), stop);
            if stop <= s then later == [] else SentTo(due, done, stop) == SentTo(due, done, s) + later
  {
    if stop > 0 {
      SplitSent(due, done, s, stop - 1);
      if stop - 1 == s {
        assert SentTo(due, DoneAfter(due, done, s), s) == [];
      }
    }
  }

  lemma NothingLeft(due: Flags, done: Flags, stop: nat)
    requires stop <= ITEM_COUNT && AllSent(due, done)
    ensures SentTo(due, done, stop) == []
  {
    if stop > 0 {
      NothingLeft(due, done, stop - 1);
    }
  }

  /** However a cycle is cut into packets, once everything is sent each due item has
      been sent exactly once, in the order of ITEM_ORDER. */
  lemma {:induction false} CycleSendsEachOnce(due: Flags, done: Flags, stops: seq<nat>)
    requires forall i :: 0 <= i < |stops| ==> stops[i] <= ITEM_COUNT
    requires AllSent(due, DoneRun(due, done, stops))
    ensures SentRun(due, done, stops) == SentTo(due, done, ITEM_COUNT)
    decreases |stops|
  {
    if stops == [] {
      NothingLeft(due, done, ITEM_COUNT);
    } else {
      CycleSendsEachOnce(due, DoneAfter(due, done, stops[0]), stops[1..]);
      SplitSent(due, done, stops[0], ITEM_COUNT);
      NothingBeyond(due, done, stops[0]);
    }
  }

  lemma NothingBeyond(due: Flags, done: Flags, s: nat)
    requires s <= ITEM_COUNT
    ensures s == ITEM_COUNT ==> SentTo(due, DoneAfter(due, done, s), ITEM_COUNT) == []
  {
    if s == ITEM_COUNT {
      NothingLeft(due, DoneAfter(due, done, s), ITEM_COUNT);
    }
  }

  lemma {:induction false} SentToHas(due: Flags, done: Flags, stop: nat, k: nat)
    requires stop <= ITEM_COUNT
    ensures k in SentTo(due, done, stop) <==> k < stop && due[k] && !done[k]
  {
    if stop > 0 {
      SentToHas(due, done, stop - 1, k);
    }
  }

  lemma {:induction false} SentAscends(due: Flags, done: Flags, stop: nat)
    requires stop <= ITEM_COUNT
    ensures var sent := SentTo(due, done, stop);
            |sent| <= stop && forall i, j :: 0 <= i < j < |sent| ==> sent[i] < sent[j]
  {
    if stop > 0 {
      SentAscends(due, done, stop - 1);
    }
  }

  /** SentTo lists exactly the due items before `stop` not sent yet, once each, ascending. */
  lemma SentToMeans(due: Flags, done: Flags, stop: nat)
    requires stop <= ITEM_COUNT
    ensures var sent := SentTo(due, done, stop);
            && (forall k: nat :: k in sent <==> k < stop && due[k] && !done[k])
            && (forall i, j :: 0 <= i < j < |sent| ==> sent[i] < sent[j])
            && |sent| <= stop
  {
    hide SentTo;
    SentAscends(due, done, stop);
    forall k: nat
      ensures k in SentTo(due, done, stop) <==> k < stop && due[k] && !done[k]
    {
      SentToHas(due, done, stop, k);
    }
  }

  /** Number of due items still to be sent. */
  function Remaining(due: Flags, done: Flags): nat {
    |SentTo(due, done, ITEM_COUNT)|
  }

  /** When every packet sends something, a cycle takes at most as many packets as
      items are left, six at most. */
  lemma {:induction false} CycleLength(due: Flags, done: Flags, stops: seq<nat>)
    requires forall i :: 0 <= i < |stops| ==> stops[i] <= ITEM_COUNT
    requires forall i :: 0 <= i < |stops| ==> SentTo(due, DoneRun(due, done, stops[..i]), stops[i]) != []
    ensures |stops| <= Remaining(due, done) <= ITEM_COUNT
    decreases |stops|
  {
    SentToMeans(due, done, ITEM_COUNT);
    if stops != [] {
      var s, after := stops[0], DoneAfter(due, done, stops[0]);
      assert stops[..0] == [];
      forall i | 0 <= i < |stops[1..]|
        ensures SentTo(due, DoneRun(due, after, stops[1..][..i]), stops[1..][i]) != []
      {
        assert stops[..i + 1][1..] == stops[1..][..i];
        assert DoneRun(due, done, stops[..i + 1]) == DoneRun(due, after, stops[1..][..i]);
      }
      CycleLength(due, after, stops[1..]);
      SplitSent(due, done, s, ITEM_COUNT);
      NothingBeyond(due, done, s);
    }
  }
}
