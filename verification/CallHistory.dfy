/** What a compound packet holds after a run of calls, told by the calls that were let in;
    and which runs are let in entirely. */
module CallHistory {
  import opened Bytes
  import opened CompoundFormat
  import opened CompoundCalls

  /** The calls of the run that were let in. */
  function Admitted(maximum: nat, calls: seq<Call>): seq<Call> {
    if calls == [] then []
    else
      var front, last := calls[..|calls| - 1], calls[|calls| - 1];
      Admitted(maximum, front) + if Allowed(maximum, Run(maximum, front), last) then [last] else []
  }

  // ---- what was added, by kind and in order ----

  function HeadersIn(calls: seq<Call>): seq<ReportHeader> {
    if calls == [] then []
    else
      var last := calls[|calls| - 1];
      HeadersIn(calls[..|calls| - 1]) + if last.StartReport? then [last.header] else []
  }

  function BlocksIn(calls: seq<Call>): seq<ReportBlock> {
    if calls == [] then []
    else
      var last := calls[|calls| - 1];
      BlocksIn(calls[..|calls| - 1]) + if last.AddBlock? then [last.block] else []
  }

  function AppsIn(calls: seq<Call>): seq<App> {
    if calls == [] then []
    else
      var last := calls[|calls| - 1];
      AppsIn(calls[..|calls| - 1]) + if last.AddApp? then [last.app] else []
  }

  function ByesIn(calls: seq<Call>): seq<Bye> {
    if calls == [] then []
    else
      var last := calls[|calls| - 1];
      ByesIn(calls[..|calls| - 1]) + if last.AddBye? then [last.bye] else []
  }

  /** The calls that add sources and items. */
  function SdesIn(calls: seq<Call>): seq<Call> {
    if calls == [] then []
    else
      var last := calls[|calls| - 1];
      SdesIn(calls[..|calls| - 1]) + if last.AddSource? || last.AddItem? then [last] else []
  }

  function ItemCalls(values: seq<Value>): (r: seq<Call>)
    ensures |r| == |values| && forall i :: 0 <= i < |r| ==> r[i] == AddItem(values[i])
  {
    seq(|values|, i requires 0 <= i < |values| => AddItem(values[i]))
  }

  /** The calls that make up these sources: each source, then its items. */
  function SdesCalls(sources: seq<Source>): seq<Call> {
    if sources == [] then []
    else
      var last := sources[|sources| - 1];
      SdesCalls(sources[..|sources| - 1]) + [AddSource(last.ssrc)] + ItemCalls(last.values)
  }

  lemma SourceAdded(sources: seq<Source>, ssrc: u32)
    ensures SdesCalls(sources + [Source(ssrc, [])]) == SdesCalls(sources) + [AddSource(ssrc)]
  {
    var more := sources + [Source(ssrc, [])];
    assert more[..|more| - 1] == sources;
    assert ItemCalls([]) == [];
    assert SdesCalls(sources) + [AddSource(ssrc)] + [] == SdesCalls(sources) + [AddSource(ssrc)];
  }

  lemma ItemAdded(sources: seq<Source>, v: Value)
    requires sources != []
    ensures SdesCalls(WithItem(sources, v)) == SdesCalls(sources) + [AddItem(v)]
  {
    var more, front := WithItem(sources, v), sources[..|sources| - 1];
    var last := sources[|sources| - 1];
    assert more[..|more| - 1] == front && more[|more| - 1] == last.(values := last.values + [v]);
    assert ItemCalls(last.values + [v]) == ItemCalls(last.values) + [AddItem(v)];
    assert SdesCalls(front) + [AddSource(last.ssrc)] + (ItemCalls(last.values) + [AddItem(v)])
        == SdesCalls(front) + [AddSource(last.ssrc)] + ItemCalls(last.values) + [AddItem(v)];
  }

  /** The packet holds this and nothing else. */
  ghost predicate Holds(c: Compound, admitted: seq<Call>) {
    && HeadersIn(admitted) == (if c.header.NoReport? then [] else [c.header])
    && c.blocks == BlocksIn(admitted) && c.apps == AppsIn(admitted) && c.byes == ByesIn(admitted)
    && SdesCalls(c.sources) == SdesIn(admitted)
  }

  lemma KindsNext(calls: seq<Call>, call: Call)
    ensures var more := calls + [call];
            && HeadersIn(more) == HeadersIn(calls) + (if call.StartReport? then [call.header] else [])
            && BlocksIn(more) == BlocksIn(calls) + (if call.AddBlock? then [call.block] else [])
            && AppsIn(more) == AppsIn(calls) + (if call.AddApp? then [call.app] else [])
            && ByesIn(more) == ByesIn(calls) + (if call.AddBye? then [call.bye] else [])
            && SdesIn(more) == SdesIn(calls) + (if call.AddSource? || call.AddItem? then [call] else [])
  {
    var more := calls + [call];
    assert more[..|more| - 1] == calls && more[|more| - 1] == call;
  }

  lemma HoldsNext(maximum: nat, c: Compound, admitted: seq<Call>, call: Call)
    requires Holds(c, admitted) && Allowed(maximum, c, call)
    ensures Holds(Apply(c, call), admitted + [call])
  {
    hide Size, HeadersIn, BlocksIn, AppsIn, ByesIn, SdesIn, SdesCalls;
    KindsNext(admitted, call);
    NothingMore(HeadersIn(admitted));
    NothingMore(BlocksIn(admitted));
    NothingMore(AppsIn(admitted));
    NothingMore(ByesIn(admitted));
    NothingMore(SdesIn(admitted));
    match call
    case StartReport(h) => assert [] + [h] == [h];
    case AddSource(ssrc) => SourceAdded(c.sources, ssrc);
    case AddItem(v) => ItemAdded(c.sources, v);
    case AddBlock(_) =>
    case AddApp(_) =>
    case AddBye(_) =>
  }

  lemma NothingMore<T>(s: seq<T>)
    ensures s + [] == s
  {
  }

  /** After any run the packet holds exactly what the calls that were let in have added:
      one report header, and blocks, sources with their items, APP and BYE packets, each
      unchanged and in the order of the calls. */
  lemma {:induction false} RunHolds(maximum: nat, calls: seq<Call>)
    ensures Holds(Run(maximum, calls), Admitted(maximum, calls))
    decreases |calls|
  {
    if calls != [] {
      hide Holds, Allowed, Apply;
      var front, last := calls[..|calls| - 1], calls[|calls| - 1];
      RunHolds(maximum, front);
      if Allowed(maximum, Run(maximum, front), last) {
        HoldsNext(maximum, Run(maximum, front), Admitted(maximum, front), last);
      } else {
        NothingMore(Admitted(maximum, front));
      }
    }
  }

  // ---- runs that are let in entirely ----

  /** The packet when every call is let in. */
  function AppliedAll(calls: seq<Call>): Compound {
    if calls == [] then Nothing else Apply(AppliedAll(calls[..|calls| - 1]), calls[|calls| - 1])
  }

  /** One report at most, blocks only after it, items only after a source. */
  predicate AllSensible(calls: seq<Call>) {
    calls == [] ||
    (AllSensible(calls[..|calls| - 1]) && Sensible(AppliedAll(calls[..|calls| - 1]), calls[|calls| - 1]))
  }

  /** A call that makes sense is refused only when the packet would not fit with it. */
  lemma RefusedDoesNotFit(maximum: nat, c: Compound, call: Call)
    requires Consistent(c) && Sensible(c, call) && !Allowed(maximum, c, call)
    ensures Size(Apply(c, call)) > maximum
  {
    ApplySize(c, call);
    hide Size, Apply;
  }

  lemma {:induction false} SensibleIsConsistent(calls: seq<Call>)
    requires AllSensible(calls)
    ensures Consistent(AppliedAll(calls))
    decreases |calls|
  {
    hide Apply;
    if calls != [] {
      SensibleIsConsistent(calls[..|calls| - 1]);
      KeepsConsistent(AppliedAll(calls[..|calls| - 1]), calls[|calls| - 1]);
    }
  }

  lemma LastCall(maximum: nat, calls: seq<Call>)
    requires calls != []
    ensures var front, last := calls[..|calls| - 1], calls[|calls| - 1];
            && front + [last] == calls && AppliedAll(calls) == Apply(AppliedAll(front), last)
            && (AllSensible(calls) ==> AllSensible(front) && Sensible(AppliedAll(front), last))
            && (Allowed(maximum, Run(maximum, front), last) ==>
                  && Run(maximum, calls) == Apply(Run(maximum, front), last)
                  && Admitted(maximum, calls) == Admitted(maximum, front) + [last])
  {
    hide Apply, Allowed, Sensible;
  }

  /** A run whose whole packet fits is let in entirely, whatever the order of its calls. */
  lemma {:induction false} WhatFitsIsLetIn(maximum: nat, calls: seq<Call>)
    requires AllSensible(calls) && Size(AppliedAll(calls)) <= maximum
    ensures Run(maximum, calls) == AppliedAll(calls) && Admitted(maximum, calls) == calls
    decreases |calls|
  {
    if calls != [] {
      var front, last := calls[..|calls| - 1], calls[|calls| - 1];
      LastCall(maximum, calls);
      hide Size, Apply, Allowed, Sensible, AppliedAll, AllSensible, Run, Admitted, Consistent;
      SensibleIsConsistent(front);
      ApplySize(AppliedAll(front), last);
      WhatFitsIsLetIn(maximum, front);
      if !Allowed(maximum, AppliedAll(front), last) {
        RefusedDoesNotFit(maximum, AppliedAll(front), last);
      }
    }
  }
}
