/**
 The operator's loop as it runs: globals updated in place, maps and lists built in loops
 over maps of unspecified iteration order, and requests whose outcome the remote service
 decides. Each method is tied to the transition system of module Reconcile.
 */
module OperatorLoop {
  import opened Inventory
  import opened Reconcile
  import opened ReconcileRuns
  import opened FloatCeiling
  import Publish
  import Publisher

  // ---------- Class counts ----------

  function MountainAmong(cache: Index, ks: set<string>): set<string> {
    set k | k in ks && k in cache && cache[k].CountsAsMountain()
  }

  function RiverAmong(cache: Index, ks: set<string>): set<string> {
    set k | k in ks && k in cache && cache[k].IsRiver()
  }

  lemma CountOneMore(cache: Index, ks: set<string>, k: string)
    requires k in cache && k !in ks
    ensures |MountainAmong(cache, ks + {k})| == |MountainAmong(cache, ks)| + if cache[k].CountsAsMountain() then 1 else 0
    ensures |RiverAmong(cache, ks + {k})| == |RiverAmong(cache, ks)| + if cache[k].IsRiver() then 1 else 0
  {
    var m, r := MountainAmong(cache, ks), RiverAmong(cache, ks);
    assert MountainAmong(cache, ks + {k}) == if cache[k].CountsAsMountain() then m + {k} else m;
    assert RiverAmong(cache, ks + {k}) == if cache[k].IsRiver() then r + {k} else r;
  }

  /** Count the cached nodes by class, in whatever order the map yields them. */
  method CountClasses(cache: Index) returns (numMtn: nat, numRvr: nat)
    ensures numMtn == CountMountain(cache) && numRvr == CountRiver(cache)
    ensures numMtn == |set k | k in cache && cache[k].hwClass in {"Mountain", "Hill", "Paradise"}|
    ensures numRvr == |set k | k in cache && cache[k].hwClass == "River"|
  {
    numMtn, numRvr := 0, 0;
    var done := {};
    while cache.Keys - done != {}
      invariant done <= cache.Keys
      invariant numMtn == |MountainAmong(cache, done)| && numRvr == |RiverAmong(cache, done)|
      decreases cache.Keys - done
    {
      var k :| k in cache.Keys - done;
      CountOneMore(cache, done, k);
      if cache[k].IsRiver() {
        numRvr := numRvr + 1;
      } else if cache[k].IsMountain() || cache[k].IsParadise() {
        numMtn := numMtn + 1;
      }
      done := done + {k};
    }
    assert done == cache.Keys;
    CountsByClass(cache);
    assert MountainAmong(cache, cache.Keys) == set k | k in cache && cache[k].CountsAsMountain();
    assert RiverAmong(cache, cache.Keys) == set k | k in cache && cache[k].IsRiver();
  }

  // ---------- console-data ----------

  /** How a PUT ended for the caller, and what console-data holds afterwards. */
  datatype PutReply = PutReply(err: bool, rc: int, after: Index) {
    predicate Success() { !err && rc < 400 }
  }

  ghost predicate PutFits(before: Index, nodes: seq<NodeInfo>, reply: PutReply) {
    if reply.Success() then PutApplied(before, nodes, reply.after) else PutPartial(before, nodes, reply.after)
  }

  class ConsoleData {
    var inventory: Index

    method DataAddNodes(nodes: seq<NodeInfo>, reply: PutReply) returns (ok: bool)
      requires PutFits(inventory, nodes, reply)
      modifies this
      ensures inventory == reply.after && (ok <==> !reply.err && reply.rc < 400)
      ensures if ok then PutApplied(old(inventory), nodes, inventory) else PutPartial(old(inventory), nodes, inventory)
    {
      ok := false;
      inventory := reply.after;
      if reply.err { return; }
      ok := reply.rc < 400;
    }

    method DataRemoveNodes(nodes: seq<NodeInfo>, after: Index)
      requires DeletePartial(inventory, Names(nodes), after)
      modifies this
      ensures inventory == after && DeletePartial(old(inventory), Names(nodes), inventory)
    {
      inventory := after;
    }
  }

  // ---------- The operator ----------

  function Selected(updateAll: bool, cache: Index, hsm: seq<NodeInfo>): seq<NodeInfo> {
    if updateAll then hsm else NewNodes(cache, hsm)
  }

  function AfterPut(cache: Index, inventory: Index, hsm: seq<NodeInfo>, updateAll: bool, put: PutReply): Index {
    if Selected(updateAll, cache, hsm) == [] then inventory else put.after
  }

  /** The outcomes of the requests a round really sends are ones the service may produce. */
  ghost predicate RequestsFit(cache: Index, inventory: Index, hsm: seq<NodeInfo>, updateAll: bool,
                              put: PutReply, afterDelete: Index)
  {
    && (Selected(updateAll, cache, hsm) != [] ==> PutFits(inventory, Selected(updateAll, cache, hsm), put))
    && (GoneNames(cache, hsm) != {} ==>
          DeletePartial(AfterPut(cache, inventory, hsm, updateAll, put), GoneNames(cache, hsm), afterDelete))
  }

  /** The event a pass performs; requests that are not sent leave console-data alone. */
  ghost function PassEvent(s: State, hsm: seq<NodeInfo>, put: PutReply, afterDelete: Index): Event {
    var afterPut := AfterPut(s.cache, s.store, hsm, s.forceUpdateCnt == 0, put);
    Tick(hsm, put.Success(), afterPut, if GoneNames(s.cache, hsm) == {} then afterPut else afterDelete)
  }

  /** An active Tick, written out in terms of the requests of a pass. */
  lemma PassIsATick(s: State, hsm: seq<NodeInfo>, put: PutReply, afterDelete: Index)
    requires !s.inShutdown && Allowed(s, PassEvent(s, hsm, put, afterDelete))
    ensures RequestsFit(s.cache, s.store, hsm, s.forceUpdateCnt == 0, put, afterDelete)
    ensures var updateAll, e := s.forceUpdateCnt == 0, PassEvent(s, hsm, put, afterDelete);
            var ok := Selected(updateAll, s.cache, hsm) == [] || (!put.err && put.rc < 400);
            var cache := if ok then ByName(hsm) else s.cache;
            && Step(s, e) == State(cache,
                                   if GoneNames(s.cache, hsm) != {} then afterDelete
                                   else AfterPut(s.cache, s.store, hsm, updateAll, put),
                                   NextCount(s.forceUpdateCnt, ok), false)
            && RoundSent(s, e) == if CountMountain(cache) > 0 then Mountains(NewNodes(s.cache, hsm)) else []
  {
  }

  class Operator {
    const data: ConsoleData
    const k8s: Publisher.K8Manager
    var nodeCache: Index
    var forceUpdateCnt: int
    var inShutdown: bool
    /** Everything handed to the key-deployment channel, in order; module KeyQueue takes it from there. */
    var sent: seq<NodeInfo>

    constructor (data: ConsoleData, k8s: Publisher.K8Manager)
      ensures this.data == data && this.k8s == k8s && View() == State(map[], data.inventory, 0, false) && sent == []
      ensures Init(View())
    {
      this.data, this.k8s := data, k8s;
      nodeCache, forceUpdateCnt, inShutdown, sent := map[], 0, false, [];
    }

    ghost function View(): State
      reads this, data
    {
      State(nodeCache, data.inventory, forceUpdateCnt, inShutdown)
    }

    method IndexReport(hsm: seq<NodeInfo>) returns (index: Index)
      ensures index == ByName(hsm)
    {
      index := map[];
      for i := 0 to |hsm|
        invariant index == ByName(hsm[..i])
      {
        assert hsm[..i + 1][..i] == hsm[..i];
        index := index[hsm[i].nodeName := hsm[i]];
      }
      assert hsm[..|hsm|] == hsm;
    }

    method FindNew(hsm: seq<NodeInfo>) returns (newNodes: seq<NodeInfo>)
      ensures newNodes == NewNodes(nodeCache, hsm)
    {
      newNodes := [];
      for i := 0 to |hsm|
        invariant newNodes == NewNodes(nodeCache, hsm[..i])
      {
        assert hsm[..i + 1][..i] == hsm[..i];
        if hsm[i].nodeName !in nodeCache {
          newNodes := newNodes + [hsm[i]];
        }
      }
      assert hsm[..|hsm|] == hsm;
    }

    /** The cached records HSM no longer reports, each exactly by its own name. */
    method FindRemoved(hsm: seq<NodeInfo>, curr: Index) returns (removed: seq<NodeInfo>)
      requires curr == ByName(hsm)
      ensures Names(removed) == GoneNames(nodeCache, hsm)
      ensures forall n :: n in removed <==> n in nodeCache.Values && n.nodeName !in curr
    {
      removed := [];
      var todo := nodeCache.Keys;
      while todo != {}
        invariant todo <= nodeCache.Keys
        invariant forall n :: n in removed <==>
                    exists k :: k in nodeCache && k !in todo && nodeCache[k] == n && n.nodeName !in curr
        decreases |todo|
      {
        var k :| k in todo;
        if nodeCache[k].nodeName !in curr {
          removed := removed + [nodeCache[k]];
        }
        todo := todo - {k};
      }
    }

    method UpdateCachedNodeData(hsm: seq<NodeInfo>, updateAll: bool, put: PutReply, afterDelete: Index)
      returns (updateSuccessful: bool, newNodes: seq<NodeInfo>)
      requires RequestsFit(nodeCache, data.inventory, hsm, updateAll, put, afterDelete)
      modifies this`nodeCache, data
      ensures newNodes == NewNodes(old(nodeCache), hsm)
      ensures updateSuccessful == (Selected(updateAll, old(nodeCache), hsm) == [] || (!put.err && put.rc < 400))
      ensures nodeCache == if updateSuccessful then ByName(hsm) else old(nodeCache)
      ensures data.inventory == if GoneNames(old(nodeCache), hsm) != {} then afterDelete
                                else AfterPut(old(nodeCache), old(data.inventory), hsm, updateAll, put)
    {
      updateSuccessful := true;
      var currNodesMap := IndexReport(hsm);
      newNodes := FindNew(hsm);
      var removedNodes := FindRemoved(hsm, currNodesMap);
      var nodesToUpdate := newNodes;
      if updateAll {
        nodesToUpdate := hsm;
      }
      if |nodesToUpdate| > 0 {
        updateSuccessful := data.DataAddNodes(nodesToUpdate, put);
      }
      if |removedNodes| > 0 {
        assert removedNodes[0].nodeName in Names(removedNodes);
        data.DataRemoveNodes(removedNodes, afterDelete);
      } else {
        assert Names(removedNodes) == {};
      }
      if updateSuccessful {
        nodeCache := currNodesMap;
      }
    }

    method SendMountains(newNodes: seq<NodeInfo>)
      modifies this`sent
      ensures sent == old(sent) + Mountains(newNodes)
    {
      for i := 0 to |newNodes|
        invariant sent == old(sent) + Mountains(newNodes[..i])
      {
        assert newNodes[..i + 1][..i] == newNodes[..i];
        if newNodes[i].IsMountain() {
          sent := sent + [newNodes[i]];
        }
      }
      assert newNodes[..|newNodes|] == newNodes;
    }

    /**
     One hardware update. The counts taken from the cache are published; when that ends in
     the panic, nothing more happens.
     */
    method DoHardwareUpdate(hsm: seq<NodeInfo>, updateAll: bool, put: PutReply, afterDelete: Index,
                            rnd: real -> real, env: Publish.Env)
      returns (updateSuccessful: bool)
      requires RequestsFit(nodeCache, data.inventory, hsm, updateAll, put, afterDelete)
      requires !k8s.panicked && Rounding(rnd)
      modifies this`nodeCache, this`sent, data, k8s
      ensures updateSuccessful == (Selected(updateAll, old(nodeCache), hsm) == [] || (!put.err && put.rc < 400))
      ensures nodeCache == if updateSuccessful then ByName(hsm) else old(nodeCache)
      ensures data.inventory == if GoneNames(old(nodeCache), hsm) != {} then afterDelete
                                else AfterPut(old(nodeCache), old(data.inventory), hsm, updateAll, put)
      ensures k8s.View() ==
              Publisher.FloatUpdate(old(k8s.View()), CountMountain(nodeCache), CountRiver(nodeCache), rnd, env)
      ensures sent == old(sent) + if CountMountain(nodeCache) > 0 && !k8s.panicked
                                      then Mountains(NewNodes(old(nodeCache), hsm)) else []
    {
      var newNodes;
      updateSuccessful, newNodes := UpdateCachedNodeData(hsm, updateAll, put, afterDelete);
      var numMtn, numRvr := CountClasses(nodeCache);
      k8s.UpdateNodeCounts(numMtn, numRvr, rnd, env);
      if k8s.panicked { return; }
      if numMtn > 0 {
        SendMountains(newNodes);
      }
    }

    /**
     One pass of the endless loop is one Tick of the transition system, whose counts it
     publishes. A pass in which publishing panics still has made its requests.
     */
    method WatchHardwarePass(hsm: seq<NodeInfo>, put: PutReply, afterDelete: Index, rnd: real -> real, env: Publish.Env)
      requires Allowed(View(), PassEvent(View(), hsm, put, afterDelete))
      requires !k8s.panicked && Rounding(rnd)
      modifies this`nodeCache, this`sent, this`forceUpdateCnt, data, k8s
      ensures var next := Step(old(View()), PassEvent(old(View()), hsm, put, afterDelete));
              data.inventory == next.store && nodeCache == next.cache && (!k8s.panicked ==> View() == next)
      ensures !k8s.panicked ==>
              sent == old(sent) + RoundSent(old(View()), PassEvent(old(View()), hsm, put, afterDelete))
      ensures k8s.View() ==
              if old(inShutdown) then old(k8s.View())
              else Publisher.FloatUpdate(old(k8s.View()), CountMountain(nodeCache), CountRiver(nodeCache), rnd, env)
      ensures !old(inShutdown) && Selected(old(forceUpdateCnt) == 0, old(nodeCache), hsm) != []
              && (put.err || put.rc >= 400)
              ==> nodeCache == old(nodeCache) && (!k8s.panicked ==> forceUpdateCnt == 0)
      ensures !old(inShutdown) && !put.err && put.rc < 400 ==> nodeCache == ByName(hsm)
    {
      if !inShutdown {
        PassIsATick(View(), hsm, put, afterDelete);
        var updateSuccessful := DoHardwareUpdate(hsm, forceUpdateCnt == 0, put, afterDelete, rnd, env);
        if k8s.panicked { return; }
        CountDown(updateSuccessful);
      }
    }

    /** Set up for the next update: the normal countdown, overridden after a failure. */
    method CountDown(updateSuccessful: bool)
      modifies this`forceUpdateCnt
      ensures forceUpdateCnt == NextCount(old(forceUpdateCnt), updateSuccessful)
    {
      forceUpdateCnt := forceUpdateCnt - 1;
      if forceUpdateCnt < 0 {
        forceUpdateCnt := 10;
      }
      if !updateSuccessful {
        forceUpdateCnt := 0;
      }
    }

    method DoClearData(afterDelete: Index)
      requires Allowed(View(), ClearData(afterDelete))
      modifies this`nodeCache, data
      ensures View() == Step(old(View()), ClearData(afterDelete))
    {
      var rn: seq<NodeInfo> := [];
      var todo := nodeCache.Keys;
      while todo != {}
        invariant todo <= nodeCache.Keys
        invariant Names(rn) == set k | k in nodeCache && k !in todo :: nodeCache[k].nodeName
        decreases |todo|
      {
        var k :| k in todo;
        ghost var before := rn;
        rn := rn + [nodeCache[k]];
        todo := todo - {k};
        assert Names(rn) == Names(before) + {nodeCache[k].nodeName};
      }
      assert Names(rn) == RecordNames(nodeCache);
      nodeCache := map[];
      data.DataRemoveNodes(rn, afterDelete);
    }

    method DoSuspend()
      modifies this`inShutdown
      ensures inShutdown && View() == Step(old(View()), Suspend)
    {
      inShutdown := true;
    }

    method DoResume()
      modifies this`inShutdown
      ensures !inShutdown && View() == Step(old(View()), Resume)
    {
      inShutdown := false;
    }
  }
}
