/**
 The inventory reconciliation loop as a transition system: the operator's cache and
 countdown, the remote console-data inventory, and every outcome its services may have.
 One event is one pass of the endless loop, or one debug request.
 */
module Reconcile {
  import opened Inventory
  import opened Sublists

  datatype State = State(cache: Index, store: Index, forceUpdateCnt: int, inShutdown: bool)

  /**
   What happens next, with the environment's choices: what HSM reports, whether the PUT
   was answered with success, and what console-data holds after each request.
   */
  datatype Event =
    | Tick(hsm: seq<NodeInfo>, ok: bool, afterPut: Index, afterDelete: Index)
    | ClearData(afterDelete: Index)
    | Suspend
    | Resume

  // ---------- What the remote service may do ----------

  /** A successful PUT upserts every record by its name. */
  ghost predicate PutApplied(before: Index, nodes: seq<NodeInfo>, after: Index) {
    && after.Keys == before.Keys + Names(nodes)
    && (forall k :: k in after ==>
          if k in Names(nodes) then after[k] in nodes && after[k].nodeName == k else after[k] == before[k])
  }

  /** A failed PUT may have applied any part of the request before the error. */
  ghost predicate PutPartial(before: Index, nodes: seq<NodeInfo>, after: Index) {
    && before.Keys <= after.Keys <= before.Keys + Names(nodes)
    && (forall k :: k in after ==>
          (k in before && after[k] == before[k]) || (after[k] in nodes && after[k].nodeName == k))
  }

  /** How adding a list of nodes may turn out; nothing is sent for an empty list. */
  ghost predicate PutOutcome(before: Index, nodes: seq<NodeInfo>, ok: bool, after: Index) {
    if nodes == [] then after == before
    else if ok then PutApplied(before, nodes, after)
    else PutPartial(before, nodes, after)
  }

  /** A DELETE reports nothing back: any part of it may have been lost. */
  ghost predicate DeletePartial(before: Index, names: set<string>, after: Index) {
    && before.Keys - names <= after.Keys <= before.Keys
    && (forall k :: k in after ==> after[k] == before[k])
  }

  // ---------- One round ----------

  /** The reported nodes that are not cached yet, in report order. */
  function NewNodes(cache: Index, hsm: seq<NodeInfo>): seq<NodeInfo> {
    if hsm == [] then []
    else
      var last := hsm[|hsm| - 1];
      NewNodes(cache, hsm[..|hsm| - 1]) + if last.nodeName in cache then [] else [last]
  }

  lemma {:induction false} NewNodesAre(cache: Index, hsm: seq<NodeInfo>)
    ensures forall n :: n in NewNodes(cache, hsm) <==> n in hsm && n.nodeName !in cache
  {
    if hsm != [] {
      NewNodesAre(cache, hsm[..|hsm| - 1]);
      assert hsm == hsm[..|hsm| - 1] + [hsm[|hsm| - 1]];
    }
  }

  /** Each uncached record is listed as often as it is reported. */
  lemma {:induction false} NewNodesOccur(cache: Index, hsm: seq<NodeInfo>, n: NodeInfo)
    ensures multiset(NewNodes(cache, hsm))[n] == if n.nodeName in cache then 0 else multiset(hsm)[n]
  {
    if hsm != [] {
      NewNodesOccur(cache, hsm[..|hsm| - 1], n);
      assert hsm == hsm[..|hsm| - 1] + [hsm[|hsm| - 1]];
    }
  }

  ghost predicate NewAt(cache: Index, hsm: seq<NodeInfo>, j: nat) {
    j < |hsm| && hsm[j].nodeName !in cache
  }

  lemma NewAtOneMore(cache: Index, hsm: seq<NodeInfo>)
    requires hsm != []
    ensures var last := |hsm| - 1;
            forall j: nat :: NewAt(cache, hsm, j) <==> NewAt(cache, hsm[..last], j) || (j == last && NewAt(cache, hsm, last))
  {
  }

  /** The new nodes are the report at exactly the positions of uncached names, in order. */
  lemma {:induction false} NewNodesInOrder(cache: Index, hsm: seq<NodeInfo>) returns (ps: seq<nat>)
    ensures Picks(hsm, ps, NewNodes(cache, hsm))
    ensures forall j: nat :: j in ps <==> NewAt(cache, hsm, j)
  {
    if hsm == [] {
      ps := [];
    } else {
      var init, last := hsm[..|hsm| - 1], |hsm| - 1;
      var before := NewNodesInOrder(cache, init);
      ps := PickOrSkip(hsm, before, NewNodes(cache, init), NewAt(cache, hsm, last));
      NewAtOneMore(cache, hsm);
    }
  }

  /** The names of cached records that HSM no longer reports. */
  function GoneNames(cache: Index, hsm: seq<NodeInfo>): set<string> {
    set k | k in cache && cache[k].nodeName !in ByName(hsm) :: cache[k].nodeName
  }

  function ToSend(s: State, hsm: seq<NodeInfo>): seq<NodeInfo> {
    if s.forceUpdateCnt == 0 then hsm else NewNodes(s.cache, hsm)
  }

  predicate RoundOk(s: State, e: Event)
    requires e.Tick?
  {
    ToSend(s, e.hsm) == [] || e.ok
  }

  function NextCount(cnt: int, ok: bool): int {
    if !ok then 0 else if cnt - 1 < 0 then 10 else cnt - 1
  }

  ghost predicate Allowed(s: State, e: Event) {
    match e
    case Tick(hsm, ok, afterPut, afterDelete) =>
      s.inShutdown ||
      (&& PutOutcome(s.store, ToSend(s, hsm), ok, afterPut)
       && DeletePartial(afterPut, GoneNames(s.cache, hsm), afterDelete))
    case ClearData(afterDelete) => DeletePartial(s.store, RecordNames(s.cache), afterDelete)
    case Suspend => true
    case Resume => true
  }

  function Step(s: State, e: Event): State {
    match e
    case Tick(hsm, ok, afterPut, afterDelete) =>
      if s.inShutdown then s
      else State(if RoundOk(s, e) then ByName(hsm) else s.cache,
                 afterDelete, NextCount(s.forceUpdateCnt, RoundOk(s, e)), false)
    case ClearData(afterDelete) => s.(cache := map[], store := afterDelete)
    case Suspend => s.(inShutdown := true)
    case Resume => s.(inShutdown := false)
  }

  // ---------- Runs ----------

  function Exec(s: State, es: seq<Event>): State {
    if es == [] then s else Step(Exec(s, es[..|es| - 1]), es[|es| - 1])
  }

  ghost predicate Legal(s: State, es: seq<Event>) {
    es == [] || (Legal(s, es[..|es| - 1]) && Allowed(Exec(s, es[..|es| - 1]), es[|es| - 1]))
  }

  /** The operator has just started; console-data may hold anything. */
  ghost predicate Init(s: State) {
    s.cache == map[] && s.forceUpdateCnt == 0
  }

  predicate Active(s: State, e: Event) {
    e.Tick? && !s.inShutdown
  }

  predicate Forced(s: State, e: Event) {
    Active(s, e) && s.forceUpdateCnt == 0
  }

  // ---------- The cache can be trusted unless a forced update is pending ----------

  ghost predicate Inv(s: State) {
    && Keyed(s.cache)
    && 0 <= s.forceUpdateCnt <= 10
    && (s.forceUpdateCnt == 0 || s.cache.Keys <= s.store.Keys)
  }

  /** After a successful round every reported name is present in console-data. */
  lemma SuccessfulRoundCovers(s: State, e: Event)
    requires Active(s, e) && Allowed(s, e) && RoundOk(s, e)
    requires s.forceUpdateCnt == 0 || s.cache.Keys <= s.store.Keys
    ensures Names(e.hsm) <= e.afterDelete.Keys
  {
    NewNodesAre(s.cache, e.hsm);
    ByNameIndexes(e.hsm);
    forall k | k in Names(e.hsm) ensures k in e.afterDelete {
      var n :| n in e.hsm && n.nodeName == k;
      assert n in ToSend(s, e.hsm) || k in s.cache;
      assert k in e.afterPut;
      assert k !in GoneNames(s.cache, e.hsm);
    }
  }

  lemma InvStep(s: State, e: Event)
    requires Inv(s) && Allowed(s, e)
    ensures Inv(Step(s, e))
  {
    if Active(s, e) {
      ByNameIndexes(e.hsm);
      if RoundOk(s, e) { SuccessfulRoundCovers(s, e); }
    }
  }

  /**
   Main run invariant: whatever PUTs fail, even half-applied, and whatever DELETEs are
   lost, either a forced update is pending or every cached name is in console-data.
   */
  lemma {:induction false} CachedNamesArePresent(s: State, es: seq<Event>)
    requires Init(s) && Legal(s, es)
    ensures Keyed(Exec(s, es).cache) && 0 <= Exec(s, es).forceUpdateCnt <= 10
    ensures Exec(s, es).forceUpdateCnt == 0 || Exec(s, es).cache.Keys <= Exec(s, es).store.Keys
  {
    if es != [] {
      CachedNamesArePresent(s, es[..|es| - 1]);
      InvStep(Exec(s, es[..|es| - 1]), es[|es| - 1]);
    }
  }
}
