/** The hash table whose elements are also strung on one list in insertion order.  A
    bucket's chain and the list share the same nodes and are both doubly linked; a
    cursor walks the list and survives deletion. */
module KeyHashTable {
  import opened OrderedEntries

  datatype Status = Ok | InvalidHashIndex | KeyAlreadyExists | KeyNotFound | NoCurrentElement

  class HashElement<Key, Element> {
    const key: Key
    const element: Element
    const hashIndex: nat
    var hashPrev: HashElement?<Key, Element>
    var hashNext: HashElement?<Key, Element>
    var listPrev: HashElement?<Key, Element>
    var listNext: HashElement?<Key, Element>

    constructor (k: Key, e: Element, index: nat)
      ensures key == k && element == e && hashIndex == index
      ensures hashPrev == null && hashNext == null && listPrev == null && listNext == null
    {
      key, element, hashIndex := k, e, index;
      hashPrev, hashNext, listPrev, listNext := null, null, null, null;
    }
  }

  /** The node at this place of a chain, or null before its start and after its end. */
  ghost function At<K, E>(chain: seq<HashElement<K, E>>, i: int): HashElement?<K, E> {
    if 0 <= i < |chain| then chain[i] else null
  }

  ghost predicate Distinct<K, E>(chain: seq<HashElement<K, E>>) {
    forall i, j :: 0 <= i < j < |chain| ==> chain[i] != chain[j]
  }

  lemma StillDistinct<K, E>(chain: seq<HashElement<K, E>>, i: nat)
    requires Distinct(chain) && i < |chain|
    ensures Distinct(Without(chain, i))
  {
  }

  ghost predicate HashLinked<K, E>(chain: seq<HashElement<K, E>>)
    reads chain`hashPrev, chain`hashNext
  {
    && (forall i {:trigger chain[i].hashPrev} :: 0 <= i < |chain| ==> chain[i].hashPrev == At(chain, i - 1))
    && (forall i {:trigger chain[i].hashNext} :: 0 <= i < |chain| ==> chain[i].hashNext == At(chain, i + 1))
  }

  ghost predicate ListLinked<K, E>(chain: seq<HashElement<K, E>>)
    reads chain`listPrev, chain`listNext
  {
    && (forall i {:trigger chain[i].listPrev} :: 0 <= i < |chain| ==> chain[i].listPrev == At(chain, i - 1))
    && (forall i {:trigger chain[i].listNext} :: 0 <= i < |chain| ==> chain[i].listNext == At(chain, i + 1))
  }

  /** Every node hangs in the bucket of its key, and no key twice. */
  ghost predicate KeysFit<K, E>(getIndex: K -> nat, size: nat, elems: seq<HashElement<K, E>>,
                                buckets: seq<seq<HashElement<K, E>>>) {
    && |buckets| == size
    && (forall e :: e in elems ==> e.hashIndex == getIndex(e.key) < size && e in buckets[e.hashIndex])
    && DistinctKeys(EntriesOf(elems))
  }

  lemma AddingKeepsKeys<K, E>(getIndex: K -> nat, size: nat, elems: seq<HashElement<K, E>>,
                              buckets: seq<seq<HashElement<K, E>>>, n: HashElement<K, E>)
    requires KeysFit(getIndex, size, elems, buckets)
    requires n.hashIndex == getIndex(n.key) < size && !HasKey(EntriesOf(elems), n.key)
    ensures KeysFit(getIndex, size, elems + [n], buckets[n.hashIndex := [n] + buckets[n.hashIndex]])
    ensures EntriesOf(elems + [n]) == EntriesOf(elems) + [(n.key, n.element)]
  {
    var all := elems + [n];
    forall i, j | 0 <= i < j < |all|
      ensures all[i].key != all[j].key
    {
      assert EntriesOf(elems)[i].0 == all[i].key;
      if j < |elems| {
        assert EntriesOf(elems)[j].0 == all[j].key;
      }
    }
  }

  lemma RemovingKeepsKeys<K, E>(getIndex: K -> nat, size: nat, elems: seq<HashElement<K, E>>,
                                buckets: seq<seq<HashElement<K, E>>>, i: nat, j: nat)
    requires KeysFit(getIndex, size, elems, buckets) && i < |elems|
    requires j < |buckets[elems[i].hashIndex]| && buckets[elems[i].hashIndex][j] == elems[i]
    ensures var index := elems[i].hashIndex;
            KeysFit(getIndex, size, Without(elems, i), buckets[index := Without(buckets[index], j)])
    ensures EntriesOf(Without(elems, i)) == Without(EntriesOf(elems), i)
  {
    var index, rest := elems[i].hashIndex, Without(elems, i);
    forall e | e in rest
      ensures e in elems && (e.hashIndex == index ==> e in Without(buckets[index], j))
    {
      var k :| 0 <= k < |rest| && rest[k] == e;
      var k' := if k < i then k else k + 1;
      assert elems[k'] == e && EntriesOf(elems)[k'].0 == e.key && EntriesOf(elems)[i].0 == elems[i].key;
      if e.hashIndex == index {
        InWithout(buckets[index], j, e);
      }
    }
    forall a, b | 0 <= a < b < |rest|
      ensures rest[a].key != rest[b].key
    {
      var a', b' := if a < i then a else a + 1, if b < i then b else b + 1;
      assert EntriesOf(elems)[a'].0 == rest[a].key && EntriesOf(elems)[b'].0 == rest[b].key;
    }
    assert EntriesOf(rest) == Without(EntriesOf(elems), i);
  }

  ghost function EntriesOf<K, E>(chain: seq<HashElement<K, E>>): seq<(K, E)> {
    seq(|chain|, i requires 0 <= i < |chain| => (chain[i].key, chain[i].element))
  }

  class RTPKeyHashTable<Key(==), Element> {
    const getIndex: Key -> nat
    const table: array<HashElement?<Key, Element>>
    var firstHashElem: HashElement?<Key, Element>
    var lastHashElem: HashElement?<Key, Element>
    var curHashElem: HashElement?<Key, Element>

    /** The nodes in list order, the nodes of each bucket in chain order, and where in
        the list the cursor is; the end of the list stands for no current element. */
    ghost var elems: seq<HashElement<Key, Element>>
    ghost var buckets: seq<seq<HashElement<Key, Element>>>
    ghost var nodes: set<HashElement<Key, Element>>
    ghost var positioned: bool
    ghost var position: nat

    ghost predicate BucketOk(b: nat, chain: seq<HashElement<Key, Element>>)
      requires b < table.Length
      reads table, chain`hashPrev, chain`hashNext
    {
      && table[b] == At(chain, 0) && HashLinked(chain) && Distinct(chain)
      && forall i :: 0 <= i < |chain| ==> chain[i].hashIndex == b
    }

    ghost predicate BucketsOk(chain: seq<HashElement<Key, Element>>)
      reads this`buckets, table, chain`hashPrev, chain`hashNext
    {
      && |buckets| == table.Length
      && (forall b, i :: 0 <= b < table.Length && 0 <= i < |buckets[b]| ==> buckets[b][i] in chain)
      && (forall b :: 0 <= b < table.Length ==> BucketOk(b, buckets[b]))
    }

    ghost predicate ListOk()
      reads this`elems, this`firstHashElem, this`lastHashElem, elems`listPrev, elems`listNext
    {
      && firstHashElem == At(elems, 0) && lastHashElem == At(elems, |elems| - 1)
      && ListLinked(elems) && Distinct(elems)
    }

    ghost predicate KeysOk()
      reads this`elems, this`buckets
    {
      KeysFit(getIndex, table.Length, elems, buckets)
    }

    ghost predicate Valid()
      reads this, table, nodes
    {
      && (forall i :: 0 <= i < |elems| ==> elems[i] in nodes)
      && ListOk() && BucketsOk(elems) && KeysOk()
      && (positioned ==> position <= |elems| && curHashElem == At(elems, position))
    }

    /** The table as an ordered map: its entries in insertion order. */
    ghost function Entries(): (r: seq<(Key, Element)>)
      reads this`elems
      ensures |r| == |elems|
      ensures forall i :: 0 <= i < |elems| ==> r[i] == (elems[i].key, elems[i].element)
    {
      EntriesOf(elems)
    }

    lemma Neighbours(i: nat)
      requires ListOk() && i < |elems|
      ensures elems[i].listPrev == At(elems, i - 1) && elems[i].listNext == At(elems, i + 1)
    {
    }

    lemma KeysAreDistinct()
      requires Valid()
      ensures DistinctKeys(Entries())
    {
    }

    lemma IndexInRange(k: Key)
      requires KeysOk() && HasKey(Entries(), k)
      ensures getIndex(k) < table.Length
    {
      var i :| 0 <= i < |elems| && Entries()[i].0 == k;
      assert elems[i] in elems;
    }

    constructor (index: Key -> nat, hashSize: nat)
      ensures Valid() && fresh(table) && table.Length == hashSize && getIndex == index
      ensures Entries() == [] && !positioned
    {
      getIndex := index;
      table := new HashElement?<Key, Element>[hashSize](i => null);
      firstHashElem := null;
      lastHashElem := null;
      elems, nodes, positioned, position := [], {}, false, 0;
      buckets := seq(hashSize, i => []);
    }

    // ---- the cursor ----

    method GotoFirstElement()
      requires Valid()
      modifies this`curHashElem, this`positioned, this`position
      ensures Valid() && positioned && position == 0
    {
      hide BucketsOk, KeysFit, ListLinked, Distinct, Entries;
      curHashElem := firstHashElem;
      positioned, position := true, 0;
    }

    method GotoLastElement()
      requires Valid()
      modifies this`curHashElem, this`positioned, this`position
      ensures Valid() && positioned && position == if elems == [] then 0 else |elems| - 1
    {
      hide BucketsOk, KeysFit, ListLinked, Distinct, Entries;
      curHashElem := lastHashElem;
      positioned, position := true, if elems == [] then 0 else |elems| - 1;
    }

    method HasCurrentElement() returns (has: bool)
      requires Valid() && positioned
      ensures has == (position < |Entries()|)
    {
      hide BucketsOk, KeysFit, ListLinked, Distinct, Entries;
      has := curHashElem != null;
    }

    method GetCurrentElement() returns (element: Element)
      requires Valid() && positioned && position < |Entries()|
      ensures element == Entries()[position].1
    {
      hide BucketsOk, KeysFit, ListLinked, Distinct, Entries;
      element := curHashElem.element;
    }

    method GetCurrentKey() returns (key: Key)
      requires Valid() && positioned && position < |Entries()|
      ensures key == Entries()[position].0
    {
      hide BucketsOk, KeysFit, ListLinked, Distinct, Entries;
      key := curHashElem.key;
    }

    method GotoNextElement()
      requires Valid() && positioned
      modifies this`curHashElem, this`position
      ensures Valid() && position == if old(position) < |Entries()| then old(position) + 1 else old(position)
    {
      hide BucketsOk, KeysFit, ListLinked, Distinct, Entries;
      if curHashElem != null {
        Neighbours(position);
        curHashElem := curHashElem.listNext;
        position := position + 1;
      }
    }

    method GotoPreviousElement()
      requires Valid() && positioned
      modifies this`curHashElem, this`position
      ensures Valid()
      ensures position == if 0 < old(position) < |Entries()| then old(position) - 1 else |Entries()|
    {
      hide BucketsOk, KeysFit, ListLinked, Distinct, Entries;
      if curHashElem != null {
        Neighbours(position);
        curHashElem := curHashElem.listPrev;
        position := if position == 0 then |elems| else position - 1;
      }
    }

    // ---- searching ----

    lemma IsKey(x: HashElement<Key, Element>)
      requires x in elems
      ensures HasKey(Entries(), x.key)
    {
      var i :| 0 <= i < |elems| && elems[i] == x;
      assert Entries()[i].0 == x.key;
    }

    lemma HangsInBucket(x: HashElement<Key, Element>)
      requires KeysOk() && x in elems
      ensures x.hashIndex == getIndex(x.key) < table.Length && |buckets| == table.Length && x in buckets[x.hashIndex]
    {
    }

    lemma KeyInBucket(k: Key)
      requires KeysOk() && getIndex(k) < table.Length
      ensures |buckets| == table.Length
      ensures HasKey(Entries(), k) ==>
                exists j :: 0 <= j < |buckets[getIndex(k)]| && buckets[getIndex(k)][j].key == k
    {
      if HasKey(Entries(), k) {
        var i :| 0 <= i < |elems| && Entries()[i].0 == k;
        HangsInBucket(elems[i]);
      }
    }

    /** The loop along one bucket. */
    method Search(k: Key, index: nat) returns (e: HashElement?<Key, Element>)
      requires Valid() && index == getIndex(k) < table.Length
      ensures e != null ==> e in elems && e.key == k
      ensures e != null <==> HasKey(Entries(), k)
    {
      ghost var chain, j := buckets[index], 0;
      assert BucketOk(index, chain);
      assert forall i :: 0 <= i < |chain| ==> chain[i] in elems;
      KeyInBucket(k);
      hide KeysFit, ListLinked, Distinct, BucketsOk;
      e := table[index];
      var found := false;
      while !found && e != null
        invariant 0 <= j <= |chain| && e == At(chain, j)
        invariant found ==> e != null && e.key == k
        invariant forall i :: 0 <= i < j ==> chain[i].key != k
        decreases |chain| - j, !found
      {
        if e.key == k {
          found := true;
        } else {
          e := e.hashNext;
          j := j + 1;
        }
      }
      if e != null {
        IsKey(e);
      }
    }

    method GotoElement(k: Key) returns (status: Status)
      requires Valid()
      modifies this`curHashElem, this`positioned, this`position
      ensures Valid()
      ensures status.InvalidHashIndex? <==> getIndex(k) >= table.Length
      ensures status.Ok? <==> HasKey(Entries(), k)
      ensures status.Ok? || status.InvalidHashIndex? || status.KeyNotFound?
      ensures status.Ok? ==> positioned && position < |Entries()| && Entries()[position].0 == k
      ensures status.KeyNotFound? ==> positioned && position == |Entries()|
      ensures status.InvalidHashIndex? ==>
                curHashElem == old(curHashElem) && positioned == old(positioned) && position == old(position)
    {
      hide BucketsOk, KeysFit, ListLinked, Distinct, Entries;
      var index := getIndex(k);
      if index >= table.Length {
        assert !HasKey(Entries(), k) by {
          if HasKey(Entries(), k) {
            IndexInRange(k);
          }
        }
        return InvalidHashIndex;
      }
      curHashElem := Search(k, index);
      if curHashElem == null {
        positioned, position := true, |elems|;
        return KeyNotFound;
      }
      ghost var i :| 0 <= i < |elems| && elems[i] == curHashElem;
      positioned, position := true, i;
      assert Entries()[i].0 == k;
      return Ok;
    }

    method HasElement(k: Key) returns (has: bool)
      requires Valid()
      ensures has == HasKey(Entries(), k)
    {
      hide BucketsOk, KeysFit, ListLinked, Distinct, Entries;
      var index := getIndex(k);
      if index >= table.Length {
        assert !HasKey(Entries(), k) by {
          if HasKey(Entries(), k) {
            IndexInRange(k);
          }
        }
        return false;
      }
      var e := Search(k, index);
      return e != null;
    }

    // ---- adding ----

    /** A new node goes to the front of its bucket. */
    method LinkIntoBucket(n: HashElement<Key, Element>)
      requires BucketsOk(elems) && n !in elems && n.hashIndex < table.Length
      requires n.hashPrev == null && n.hashNext == null
      modifies this`buckets, table, n`hashNext, elems`hashPrev
      ensures BucketsOk(elems + [n])
      ensures buckets == old(buckets)[n.hashIndex := [n] + old(buckets[n.hashIndex])]
    {
      ghost var index, chain := n.hashIndex, buckets[n.hashIndex];
      assert BucketOk(index, chain);
      var e := table[n.hashIndex];
      table[n.hashIndex] := n;
      n.hashNext := e;
      if e != null {
        e.hashPrev := n;
      }
      buckets := buckets[n.hashIndex := [n] + buckets[n.hashIndex]];
      forall b | 0 <= b < table.Length && b != index
        ensures BucketOk(b, buckets[b])
      {
        ghost var was := old(buckets)[b];
        assert old(BucketOk(b, was));
        forall i | 0 <= i < |was|
          ensures was[i].hashNext == old(was[i].hashNext) && was[i].hashPrev == old(was[i].hashPrev)
        {
          assert was[i].hashIndex == b;
        }
        assert HashLinked(buckets[b]);
      }
      assert HashLinked(buckets[index]);
    }

    /** A new node goes to the end of the list. */
    method LinkIntoList(n: HashElement<Key, Element>)
      requires ListOk() && n !in elems && n.listPrev == null && n.listNext == null
      modifies this`elems, this`firstHashElem, this`lastHashElem, n`listPrev, elems`listNext
      ensures ListOk() && elems == old(elems) + [n]
    {
      if firstHashElem == null {
        firstHashElem := n;
        lastHashElem := n;
      } else {
        lastHashElem.listNext := n;
        n.listPrev := lastHashElem;
        lastHashElem := n;
      }
      elems := elems + [n];
    }

    /** The node is hung up in its bucket and in the list. */
    method Insert(n: HashElement<Key, Element>)
      requires Valid() && n !in nodes && n.hashIndex == getIndex(n.key) < table.Length
      requires !HasKey(Entries(), n.key)
      requires n.hashPrev == null && n.hashNext == null && n.listPrev == null && n.listNext == null
      modifies this, table, nodes, n
      ensures Valid() && nodes == old(nodes) + {n}
      ensures Entries() == old(Entries()) + [(n.key, n.element)]
      ensures curHashElem == old(curHashElem) && positioned == old(positioned)
      ensures position == if old(position) == |old(Entries())| then |Entries()| else old(position)
    {
      hide BucketsOk, ListOk, KeysFit, EntriesOf, HasKey;
      AddingKeepsKeys(getIndex, table.Length, elems, buckets, n);
      ghost var longer := elems + [n];
      assert forall i :: 0 <= i < |longer| ==> longer[i] in nodes + {n};
      LinkIntoBucket(n);
      ghost var linked := buckets;
      LinkIntoList(n);
      assert elems == longer && buckets == linked && BucketsOk(elems);
      nodes := nodes + {n};
      position := if position == |elems| - 1 then |elems| else position;
    }

    method AddElement(k: Key, element: Element) returns (status: Status)
      requires Valid()
      modifies this, table, nodes
      ensures Valid() && old(nodes) <= nodes && fresh(nodes - old(nodes))
      ensures status.InvalidHashIndex? <==> getIndex(k) >= table.Length
      ensures status.Ok? <==> getIndex(k) < table.Length && !old(HasKey(Entries(), k))
      ensures status.Ok? || status.InvalidHashIndex? || status.KeyAlreadyExists?
      ensures Entries() == if status.Ok? then old(Entries()) + [(k, element)] else old(Entries())
      ensures curHashElem == old(curHashElem) && positioned == old(positioned)
      ensures position == if status.Ok? && old(position) == |old(Entries())| then |Entries()| else old(position)
    {
      hide Valid, Entries, HasKey;
      var index := getIndex(k);
      if index >= table.Length {
        return InvalidHashIndex;
      }
      var e := Search(k, index);
      if e != null {
        return KeyAlreadyExists;
      }
      var n := new HashElement<Key, Element>(k, element, index);
      Insert(n);
      return Ok;
    }

    // ---- deleting ----

    /** Relinks the bucket around its j-th node. */
    method RelinkBucket(n: HashElement<Key, Element>, ghost chain: seq<HashElement<Key, Element>>, ghost j: nat)
      requires n.hashIndex < table.Length && BucketOk(n.hashIndex, chain) && j < |chain| && chain[j] == n
      modifies table, chain`hashPrev, chain`hashNext
      ensures BucketOk(n.hashIndex, Without(chain, j))
      ensures forall b :: 0 <= b < table.Length && b != n.hashIndex ==> table[b] == old(table[b])
    {
      var tmp1 := n.hashPrev;
      var tmp2 := n.hashNext;
      if tmp1 == null {
        table[n.hashIndex] := tmp2;
        if tmp2 != null {
          tmp2.hashPrev := null;
        }
      } else {
        tmp1.hashNext := tmp2;
        if tmp2 != null {
          tmp2.hashPrev := tmp1;
        }
      }
      assert HashLinked(Without(chain, j));
    }

    /** The node leaves its bucket, and no other bucket changes. */
    method UnlinkFromBucket(n: HashElement<Key, Element>, ghost i: nat, ghost j: nat)
      requires BucketsOk(elems) && i < |elems| && elems[i] == n
      requires n.hashIndex < table.Length && j < |buckets[n.hashIndex]| && buckets[n.hashIndex][j] == n
      modifies this`buckets, table, elems`hashPrev, elems`hashNext
      ensures BucketsOk(Without(elems, i))
      ensures buckets == old(buckets)[n.hashIndex := Without(old(buckets[n.hashIndex]), j)]
    {
      ghost var index, chain := n.hashIndex, buckets[n.hashIndex];
      assert BucketOk(index, chain);
      RelinkBucket(n, chain, j);
      buckets := buckets[index := Without(chain, j)];
      forall b | 0 <= b < table.Length && b != index
        ensures BucketOk(b, buckets[b])
      {
        ghost var was := old(buckets)[b];
        assert old(BucketOk(b, was));
        forall k | 0 <= k < |was|
          ensures was[k].hashNext == old(was[k].hashNext) && was[k].hashPrev == old(was[k].hashPrev)
        {
          assert was[k].hashIndex == b;
        }
        assert HashLinked(buckets[b]);
      }
      forall b, k | 0 <= b < table.Length && 0 <= k < |buckets[b]|
        ensures buckets[b][k] in Without(elems, i)
      {
        var e := buckets[b][k];
        assert e in elems && e != n;
        InWithout(elems, i, e);
      }
    }

    /** Relinks the list around its i-th node. */
    method RelinkList(n: HashElement<Key, Element>, ghost chain: seq<HashElement<Key, Element>>, ghost i: nat)
      returns (next: HashElement?<Key, Element>)
      requires ListLinked(chain) && Distinct(chain) && i < |chain| && chain[i] == n
      requires firstHashElem == At(chain, 0) && lastHashElem == At(chain, |chain| - 1)
      modifies this`firstHashElem, this`lastHashElem, chain`listPrev, chain`listNext
      ensures ListLinked(Without(chain, i)) && next == At(Without(chain, i), i)
      ensures firstHashElem == At(Without(chain, i), 0)
      ensures lastHashElem == At(Without(chain, i), |chain| - 2)
    {
      var tmp1 := n.listPrev;
      var tmp2 := n.listNext;
      if tmp1 == null {
        firstHashElem := tmp2;
        if tmp2 != null {
          tmp2.listPrev := null;
        } else {
          lastHashElem := null;
        }
      } else {
        tmp1.listNext := tmp2;
        if tmp2 != null {
          tmp2.listPrev := tmp1;
        } else {
          lastHashElem := tmp1;
        }
      }
      next := tmp2;
      assert ListLinked(Without(chain, i));
    }

    method UnlinkFromList(n: HashElement<Key, Element>, ghost i: nat) returns (next: HashElement?<Key, Element>)
      requires ListOk() && i < |elems| && elems[i] == n
      modifies this`elems, this`firstHashElem, this`lastHashElem, elems`listPrev, elems`listNext
      ensures ListOk() && elems == Without(old(elems), i) && next == At(elems, i)
    {
      StillDistinct(elems, i);
      hide ListLinked, Distinct;
      next := RelinkList(n, elems, i);
      elems := Without(elems, i);
    }

    /** The current element goes, and the next one in the list becomes current. */
    method DeleteCurrentElement() returns (status: Status)
      requires Valid() && positioned
      modifies this, table, nodes
      ensures Valid() && nodes == old(nodes) && positioned && position == old(position)
      ensures status == if old(position) < |old(Entries())| then Ok else NoCurrentElement
      ensures Entries() == if status.Ok? then Without(old(Entries()), old(position)) else old(Entries())
    {
      hide BucketsOk, ListLinked, Distinct, KeysFit, EntriesOf, Without;
      if curHashElem != null {
        HangsInBucket(curHashElem);
        ghost var chain := buckets[curHashElem.hashIndex];
        ghost var j :| 0 <= j < |chain| && chain[j] == curHashElem;
        RemovingKeepsKeys(getIndex, table.Length, elems, buckets, position, j);
        UnlinkFromBucket(curHashElem, position, j);
        ghost var rest, linked := Without(elems, position), buckets;
        assert BucketsOk(rest);
        WithoutIsPart(elems, position);
        curHashElem := UnlinkFromList(curHashElem, position);
        assert elems == rest && buckets == linked && BucketsOk(elems);
      } else {
        return NoCurrentElement;
      }
      return Ok;
    }

    method DeleteElement(k: Key) returns (status: Status)
      requires Valid()
      modifies this, table, nodes
      ensures Valid() && nodes == old(nodes)
      ensures status.Ok? <==> old(HasKey(Entries(), k))
      ensures status.InvalidHashIndex? <==> getIndex(k) >= table.Length
      ensures status.Ok? || status.InvalidHashIndex? || status.KeyNotFound?
      ensures status.Ok? ==>
                && positioned && position < |old(Entries())| && old(Entries())[position].0 == k
                && Entries() == Without(old(Entries()), position)
      ensures !status.Ok? ==> Entries() == old(Entries())
    {
      status := GotoElement(k);
      if !status.Ok? {
        return status;
      }
      status := DeleteCurrentElement();
    }

    /** Every bucket and the list are emptied; the cursor is left where it was. */
    method Clear()
      requires Valid()
      modifies this, table
      ensures Valid() && Entries() == [] && !positioned && curHashElem == old(curHashElem)
    {
      var i := 0;
      while i < table.Length
        invariant 0 <= i <= table.Length
        invariant forall b :: 0 <= b < i ==> table[b] == null
        invariant curHashElem == old(curHashElem)
      {
        table[i] := null;
        i := i + 1;
      }
      firstHashElem := null;
      lastHashElem := null;
      elems, nodes, positioned := [], {}, false;
      buckets := seq(table.Length, b => []);
      assert forall b :: 0 <= b < table.Length ==> BucketOk(b, buckets[b]);
    }
  }

  /** The scan that deletes the elements a condition holds of: it visits every element
      once, in order, and what is left are exactly the others. */
  method DeleteMatching<Key(==), Element>(t: RTPKeyHashTable<Key, Element>, condition: (Key, Element) -> bool)
    returns (visited: seq<(Key, Element)>)
    requires t.Valid()
    modifies t, t.table, t.nodes
    ensures t.Valid()
    ensures visited == old(t.Entries())
    ensures t.Entries() == Remaining(old(t.Entries()), condition)
  {
    hide t.Valid, t.Entries, Without, Remaining, Scanned;
    ghost var all := t.Entries();
    visited := [];
    t.GotoFirstElement();
    ScanBegins(all, condition);
    var has := t.HasCurrentElement();
    while has
      invariant t.Valid() && t.positioned && has == (t.position < |t.Entries()|)
      invariant t.nodes == old(t.nodes)
      invariant Scanned(all, condition, visited, t.Entries(), t.position)
      decreases |all| - |visited|
    {
      ScanEnds(all, condition, visited, t.Entries(), t.position);
      ScanStep(all, condition, visited, t.Entries(), t.position);
      var key := t.GetCurrentKey();
      var element := t.GetCurrentElement();
      visited := visited + [(key, element)];
      if condition(key, element) {
        var status := t.DeleteCurrentElement();
      } else {
        t.GotoNextElement();
      }
      has := t.HasCurrentElement();
    }
    ScanEnds(all, condition, visited, t.Entries(), t.position);
  }
}
