/** The SDES information kept about a source: the normal items, and the private items
    as a list of prefixes and values. */
module SdesInfo {
  import opened Bytes
  import opened Wrappers
  import opened OrderedEntries

  const MAX_ITEM_LENGTH := 255
  const MAX_PRIVATE_ITEMS := 256
  const NORMAL_ITEMS := 7

  datatype Status = Ok | LengthTooBig | MaxPrivateItems | PrefixNotFound

  /** A prefix and its value. */
  type PrivateItem = (seq<byte>, seq<byte>)

  /** What is kept of a string: its first 255 bytes. */
  function Cut(s: seq<byte>): (r: seq<byte>)
    ensures |r| <= MAX_ITEM_LENGTH && r <= s
  {
    if |s| > MAX_ITEM_LENGTH then s[..MAX_ITEM_LENGTH] else s
  }

  /** The first entry with this prefix, or the end of the list. */
  function Find(items: seq<PrivateItem>, prefix: seq<byte>): (i: nat)
    ensures i <= |items|
    ensures i < |items| ==> items[i].0 == prefix
    ensures forall k :: 0 <= k < i ==> items[k].0 != prefix
  {
    if items == [] then 0
    else
      var i := Find(items[..|items| - 1], prefix);
      if i < |items| - 1 || items[i].0 == prefix then i else |items|
  }

  function Set(items: seq<PrivateItem>, prefix: seq<byte>, value: seq<byte>): Option<seq<PrivateItem>> {
    var i := Find(items, prefix);
    if i < |items| then Some(items[i := (items[i].0, Cut(value))])
    else if |items| >= MAX_PRIVATE_ITEMS then None
    else Some([(Cut(prefix), Cut(value))] + items)
  }

  function Delete(items: seq<PrivateItem>, prefix: seq<byte>): Option<seq<PrivateItem>> {
    var i := Find(items, prefix);
    if i < |items| then Some(items[..i] + items[i + 1..]) else None
  }

  class RTCPSDESInfo {
    var normalItems: array<seq<byte>>
    var privItems: seq<PrivateItem>

    /** The iteration over the private items; deleting the item it stands at, or all of
        them, leaves it nowhere. */
    var curItem: nat
    ghost var positioned: bool

    ghost predicate Valid()
      reads this
    {
      normalItems.Length == NORMAL_ITEMS && |privItems| <= MAX_PRIVATE_ITEMS && (positioned ==> curItem <= |privItems|)
    }

    constructor ()
      ensures Valid() && fresh(normalItems) && privItems == [] && !positioned
      ensures forall i :: 0 <= i < NORMAL_ITEMS ==> normalItems[i] == []
    {
      normalItems := new seq<byte>[NORMAL_ITEMS](i => []);
      privItems, positioned := [], false;
    }

    method Clear()
      requires Valid()
      modifies this`privItems, this`positioned
      ensures Valid() && privItems == []
    {
      privItems, positioned := [], false;
    }

    method SetNonPrivateItem(itemNo: nat, s: seq<byte>) returns (status: Status)
      requires Valid() && itemNo < NORMAL_ITEMS
      modifies normalItems
      ensures status == if |s| > MAX_ITEM_LENGTH then LengthTooBig else Ok
      ensures normalItems[..] == if status.Ok? then old(normalItems[..])[itemNo := s] else old(normalItems[..])
    {
      if |s| > MAX_ITEM_LENGTH {
        return LengthTooBig;
      }
      normalItems[itemNo] := Cut(s);
      return Ok;
    }

    /** The search every operation on a prefix starts with. */
    method Search(prefix: seq<byte>) returns (it: nat)
      ensures it == Find(privItems, prefix)
    {
      var found := false;
      it := 0;
      while !found && it < |privItems|
        invariant it <= |privItems| && (found ==> it < |privItems| && privItems[it].0 == prefix)
        invariant forall k :: 0 <= k < it ==> privItems[k].0 != prefix
        decreases !found, |privItems| - it
      {
        var p := privItems[it].0;
        if |p| == |prefix| {
          if |p| <= 0 {
            found := true;
          } else if prefix == p {
            found := true;
          } else {
            it := it + 1;
          }
        } else {
          it := it + 1;
        }
      }
    }

    method SetPrivateValue(prefix: seq<byte>, value: seq<byte>) returns (status: Status)
      requires Valid()
      modifies this`privItems, this`curItem
      ensures Valid()
      ensures status == if Set(old(privItems), prefix, value).Some? then Ok else MaxPrivateItems
      ensures privItems == if status.Ok? then Set(old(privItems), prefix, value).value else old(privItems)
      ensures positioned && old(curItem) < |old(privItems)| ==>
                curItem < |privItems| && privItems[curItem].0 == old(privItems)[old(curItem)].0
    {
      var it := Search(prefix);
      if it >= |privItems| {
        if |privItems| >= MAX_PRIVATE_ITEMS {
          return MaxPrivateItems;
        }
        privItems := [(Cut(prefix), [])] + privItems;
        curItem := curItem + 1;
        it := 0;
      }
      privItems := privItems[it := (privItems[it].0, Cut(value))];
      return Ok;
    }

    method DeletePrivatePrefix(prefix: seq<byte>) returns (status: Status)
      requires Valid()
      modifies this`privItems, this`curItem, this`positioned
      ensures Valid()
      ensures status == if Delete(old(privItems), prefix).Some? then Ok else PrefixNotFound
      ensures privItems == if status.Ok? then Delete(old(privItems), prefix).value else old(privItems)
    {
      var it := Search(prefix);
      if it >= |privItems| {
        return PrefixNotFound;
      }
      positioned := positioned && curItem != it;
      curItem := if curItem > it then curItem - 1 else curItem;
      privItems := privItems[..it] + privItems[it + 1..];
      return Ok;
    }

    method GetPrivateValue(prefix: seq<byte>) returns (found: bool, value: seq<byte>)
      ensures found <==> HasKey(privItems, prefix)
      ensures found ==> Find(privItems, prefix) < |privItems| && value == privItems[Find(privItems, prefix)].1
    {
      var it := Search(prefix);
      found, value := it < |privItems|, [];
      if found {
        value := privItems[it].1;
      }
    }

    method GotoFirstPrivateValue()
      requires Valid()
      modifies this`curItem, this`positioned
      ensures Valid() && positioned && curItem == 0
    {
      curItem, positioned := 0, true;
    }

    method GetNextPrivateValue() returns (item: Option<PrivateItem>)
      requires Valid() && positioned
      modifies this`curItem
      ensures Valid()
      ensures item == if old(curItem) == |privItems| then None else Some(privItems[old(curItem)])
      ensures curItem == if item.None? then old(curItem) else old(curItem) + 1
    {
      if curItem == |privItems| {
        return None;
      }
      item := Some(privItems[curItem]);
      curItem := curItem + 1;
    }
  }

  // ---- the store as a map ----

  ghost predicate Store(items: seq<PrivateItem>) {
    && |items| <= MAX_PRIVATE_ITEMS && DistinctKeys(items)
    && forall i :: 0 <= i < |items| ==> |items[i].0| <= MAX_ITEM_LENGTH
  }

  lemma FindIsLookup(items: seq<PrivateItem>, prefix: seq<byte>)
    ensures Find(items, prefix) < |items| <==> prefix in AsMap(items)
    ensures Store(items) && Find(items, prefix) < |items| ==> items[Find(items, prefix)].1 == AsMap(items)[prefix]
  {
    MapHasKeys(items, prefix);
    var i := Find(items, prefix);
    if Store(items) && i < |items| {
      MapHasEntries(items, i);
    }
  }

  /** For prefixes of at most 255 bytes, setting is the update of a map whose values are
      cut at 255 bytes; it fails exactly on a full store without the prefix. */
  lemma SetUpdatesMap(items: seq<PrivateItem>, prefix: seq<byte>, value: seq<byte>)
    requires Store(items) && |prefix| <= MAX_ITEM_LENGTH
    ensures Set(items, prefix, value).None? <==> |AsMap(items)| == MAX_PRIVATE_ITEMS && prefix !in AsMap(items)
    ensures var after := Set(items, prefix, value);
            after.Some? ==> Store(after.value) && AsMap(after.value) == AsMap(items)[prefix := Cut(value)]
  {
    FindIsLookup(items, prefix);
    MapSize(items);
    var i := Find(items, prefix);
    if i < |items| {
      UpdateChangesKey(items, i, Cut(value));
    } else {
      FrontAddsKey(items, prefix, Cut(value));
    }
  }

  lemma DeletionKeepsStore(items: seq<PrivateItem>, i: nat)
    requires Store(items) && i < |items|
    ensures Store(Without(items, i))
  {
    var after := Without(items, i);
    forall a | 0 <= a < |after|
      ensures after[a] == items[if a < i then a else a + 1]
    {
    }
  }

  lemma DeleteRemovesKey(items: seq<PrivateItem>, prefix: seq<byte>)
    requires Store(items)
    ensures Delete(items, prefix).Some? <==> prefix in AsMap(items)
    ensures var after := Delete(items, prefix);
            after.Some? ==> Store(after.value) && AsMap(after.value) == AsMap(items) - {prefix}
  {
    FindIsLookup(items, prefix);
    var i := Find(items, prefix);
    if i < |items| {
      DeletionRemovesKey(items, i);
      DeletionKeepsStore(items, i);
      hide AsMap, Store, Without;
    }
  }

  /** What was set can be looked up under the same prefix iff the prefix is no longer than
      255 bytes. */
  lemma SetThenGet(items: seq<PrivateItem>, prefix: seq<byte>, value: seq<byte>)
    requires Store(items) && Set(items, prefix, value).Some?
    ensures var after := Set(items, prefix, value).value;
            var i := Find(after, prefix);
            (i < |after| && after[i].1 == Cut(value)) <==> |prefix| <= MAX_ITEM_LENGTH
  {
    var after := Set(items, prefix, value).value;
    if |prefix| <= MAX_ITEM_LENGTH {
      SetUpdatesMap(items, prefix, value);
      FindIsLookup(after, prefix);
    } else {
      assert Find(items, prefix) == |items|;
    }
  }

  /** Prefixes stay distinct iff the prefix is that short, or its cut is not stored yet. */
  lemma SetKeepsDistinct(items: seq<PrivateItem>, prefix: seq<byte>, value: seq<byte>)
    requires Store(items) && Set(items, prefix, value).Some?
    ensures DistinctKeys(Set(items, prefix, value).value) <==>
            |prefix| <= MAX_ITEM_LENGTH || !HasKey(items, Cut(prefix))
  {
    var after := Set(items, prefix, value).value;
    if |prefix| <= MAX_ITEM_LENGTH {
      SetUpdatesMap(items, prefix, value);
    } else {
      assert Find(items, prefix) == |items|;
      if HasKey(items, Cut(prefix)) {
        var i :| 0 <= i < |items| && items[i].0 == Cut(prefix);
        assert after[0].0 == after[i + 1].0;
      } else {
        FrontAddsKey(items, Cut(prefix), Cut(value));
      }
    }
  }

  // ---- runs ----

  datatype Operation = SetValue(prefix: seq<byte>, value: seq<byte>) | DeletePrefix(prefix: seq<byte>) | ClearAll

  function Apply(items: seq<PrivateItem>, op: Operation): seq<PrivateItem> {
    match op
    case SetValue(prefix, value) => (match Set(items, prefix, value) case Some(after) => after case None => items)
    case DeletePrefix(prefix) => (match Delete(items, prefix) case Some(after) => after case None => items)
    case ClearAll => []
  }

  function ApplyToMap(m: map<seq<byte>, seq<byte>>, op: Operation): map<seq<byte>, seq<byte>> {
    match op
    case SetValue(prefix, value) => if |m| == MAX_PRIVATE_ITEMS && prefix !in m then m else m[prefix := Cut(value)]
    case DeletePrefix(prefix) => m - {prefix}
    case ClearAll => map[]
  }

  function Run(ops: seq<Operation>): seq<PrivateItem> {
    if ops == [] then [] else Apply(Run(ops[..|ops| - 1]), ops[|ops| - 1])
  }

  function RunMap(ops: seq<Operation>): map<seq<byte>, seq<byte>> {
    if ops == [] then map[] else ApplyToMap(RunMap(ops[..|ops| - 1]), ops[|ops| - 1])
  }

  /** After any operations with prefixes of at most 255 bytes the list is a store, and it
      stands for the map the same operations make. */
  lemma {:induction false} StoreIsMap(ops: seq<Operation>)
    requires forall i :: 0 <= i < |ops| && ops[i].SetValue? ==> |ops[i].prefix| <= MAX_ITEM_LENGTH
    ensures Store(Run(ops)) && AsMap(Run(ops)) == RunMap(ops)
  {
    if ops == [] {
    } else {
      var front, op := ops[..|ops| - 1], ops[|ops| - 1];
      StoreIsMap(front);
      hide Set, Delete, Store;
      match op
      case SetValue(prefix, value) => SetUpdatesMap(Run(front), prefix, value);
      case DeletePrefix(prefix) => DeleteRemovesKey(Run(front), prefix);
      case ClearAll => assert Store([]);
    }
  }
}
