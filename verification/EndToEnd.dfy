/**
 The hardware loop and the key-deployment consumer together: what a round sends is what the
 consumer gets, so a node that entered the cache can be followed to its BMC's key.
 */
module EndToEnd {
  import opened Inventory
  import opened Reconcile
  import opened ReconcileRuns
  import KeyQueue
  import KeyDeploy
  import HsmJoin
  import Interleaving
  import Publish
  import Scaling

  /** A step of either goroutine, in the order in which they interleave. */
  datatype Joint = Hardware(e: Event) | Keys(k: KeyQueue.Event)

  function HardwareEvents(js: seq<Joint>): seq<Event> {
    if js == [] then []
    else HardwareEvents(js[..|js| - 1]) + match js[|js| - 1] case Hardware(e) => [e] case Keys(_) => []
  }

  /** The queue's view of a joint run: an active round produces exactly what it sends. */
  function QueueEvents(s: State, js: seq<Joint>): seq<KeyQueue.Event> {
    if js == [] then []
    else
      var init := js[..|js| - 1];
      QueueEvents(s, init) +
      match js[|js| - 1]
      case Hardware(e) =>
        var p := Exec(s, HardwareEvents(init));
        if Active(p, e) then [KeyQueue.Produce(RoundSent(p, e))] else []
      case Keys(k) => [k]
  }

  ghost predicate JointRun(s: State, js: seq<Joint>) {
    && Init(s)
    && Legal(s, HardwareEvents(js))
    && KeyQueue.Legal(QueueEvents(s, js))
    && (forall i :: 0 <= i < |js| && js[i].Keys? ==> !js[i].k.Produce?)
  }

  ghost function Queue(s: State, js: seq<Joint>): KeyQueue.State
    requires JointRun(s, js)
  {
    KeyQueue.Exec(QueueEvents(s, js))
  }

  lemma ProducedGrows(es: seq<KeyQueue.Event>, e: KeyQueue.Event)
    ensures KeyQueue.Produced(es + [e]) == KeyQueue.Produced(es) + match e case Produce(nodes) => nodes case _ => []
  {
    assert (es + [e])[..|es|] == es;
  }

  /** Everything a round of a joint run sends is produced into the queue. */
  lemma {:induction false} SentIsProduced(s: State, js: seq<Joint>, i: nat, n: NodeInfo)
    requires i < |HardwareEvents(js)|
    requires n in RoundSent(Exec(s, HardwareEvents(js)[..i]), HardwareEvents(js)[i])
    ensures n in KeyQueue.Produced(QueueEvents(s, js))
  {
    var init, j := js[..|js| - 1], js[|js| - 1];
    var hs, qs := HardwareEvents(init), QueueEvents(s, init);
    if i < |hs| {
      assert HardwareEvents(js)[..i] == hs[..i];
      SentIsProduced(s, init, i, n);
    } else {
      assert HardwareEvents(js)[..i] == hs;
    }
    match j
    case Hardware(e) =>
      var p := Exec(s, hs);
      if Active(p, e) {
        ProducedGrows(qs, KeyQueue.Produce(RoundSent(p, e)));
      } else {
        assert QueueEvents(s, js) == qs;
      }
    case Keys(k) => ProducedGrows(qs, k);
  }

  /** Only Mountain and Hill nodes are ever produced. */
  lemma {:induction false} ProducedAreMountain(s: State, js: seq<Joint>, n: NodeInfo)
    requires forall i :: 0 <= i < |js| && js[i].Keys? ==> !js[i].k.Produce?
    requires n in KeyQueue.Produced(QueueEvents(s, js))
    ensures n.IsMountain()
  {
    var init, j := js[..|js| - 1], js[|js| - 1];
    assert forall i :: 0 <= i < |init| ==> init[i] == js[i];
    var qs := QueueEvents(s, init);
    match j
    case Hardware(e) =>
      var p := Exec(s, HardwareEvents(init));
      if Active(p, e) {
        ProducedGrows(qs, KeyQueue.Produce(RoundSent(p, e)));
        MountainsAre(NewNodes(p.cache, e.hsm));
        if n in KeyQueue.Produced(qs) { ProducedAreMountain(s, init, n); }
      } else {
        assert QueueEvents(s, js) == qs;
        ProducedAreMountain(s, init, n);
      }
    case Keys(k) =>
      assert !js[|js| - 1].k.Produce?;
      ProducedGrows(qs, k);
      ProducedAreMountain(s, init, n);
  }

  /**
   In every state of every joint run all pending nodes are Mountain or Hill, so the next
   request names the BMC address of each of them.
   */
  lemma EveryPendingBmcIsRequested(s: State, js: seq<Joint>, k: string)
    requires JointRun(s, js) && k in Queue(s, js).pending
    ensures Queue(s, js).pending[k].IsMountain()
    ensures Queue(s, js).pending[k].bmcFqdn in KeyDeploy.BmcAddresses(Queue(s, js).pending.Values)
  {
    KeyQueue.PendingWasProduced(QueueEvents(s, js), k);
    ProducedAreMountain(s, js, Queue(s, js).pending[k]);
  }

  /** Where a sent node can be: under way, pending by name, or with its BMC's key acknowledged. */
  ghost predicate AccountedFor(s: State, js: seq<Joint>, n: NodeInfo)
    requires JointRun(s, js)
  {
    var q := Queue(s, js);
    n in q.outbox || n in q.channel || n.nodeName in q.pending || KeyQueue.Deployed(QueueEvents(s, js), n.nodeName)
  }

  ghost predicate EnteredAndAccountedFor(s: State, js: seq<Joint>, k: string, i: nat)
    requires JointRun(s, js) && i < |HardwareEvents(js)|
  {
    var hs := HardwareEvents(js);
    var p := Exec(s, hs[..i]);
    && k !in p.cache && k in Step(p, hs[i]).cache && CachedSince(s, hs, k, i)
    && (Step(p, hs[i]).cache[k].IsMountain() ==> AccountedFor(s, js, Step(p, hs[i]).cache[k]))
  }

  /**
   From cache to key: in every run of both goroutines, every cached name entered in some
   round and stayed since, and if its record was Mountain or Hill then, that node is waiting
   to be sent, in the channel, pending, or its BMC's key has been acknowledged.
   */
  lemma CachedMountainIsAccountedFor(s: State, js: seq<Joint>, k: string)
    requires JointRun(s, js) && k in Exec(s, HardwareEvents(js)).cache
    ensures exists i: nat :: i < |HardwareEvents(js)| && EnteredAndAccountedFor(s, js, k, i)
  {
    var hs, qs := HardwareEvents(js), QueueEvents(s, js);
    CachedMountainWasQueued(s, hs, k);
    var i: nat :| i < |hs| && EntersAt(s, hs, k, i) && CachedSince(s, hs, k, i);
    var n := Step(Exec(s, hs[..i]), hs[i]).cache[k];
    if n.IsMountain() {
      SentIsProduced(s, js, i, n);
      var m: nat :| m < |KeyQueue.Produced(qs)| && KeyQueue.Produced(qs)[m] == n;
      KeyQueue.NoDeploymentIsLost(qs, m);
    }
    assert EnteredAndAccountedFor(s, js, k, i);
  }

  // ---------- From cache to key, with clearData handlers interleaving ----------

  /** A step of the loop, of a handler, or of the consumer. */
  datatype FineJoint = Loop(e: Interleaving.Event) | Consume(k: KeyQueue.Event)

  /** One joint step; `qs` are the queue's events so far, and the end of a round produces what it sends. */
  ghost predicate FineStep(s: Interleaving.State, qs: seq<KeyQueue.Event>, j: FineJoint,
                           t: Interleaving.State, rs: seq<KeyQueue.Event>)
  {
    match j
    case Loop(e) =>
      && Interleaving.Follows(s, e, t)
      && rs == if e.Finish? then qs + [KeyQueue.Produce(Interleaving.ToQueue(s.cache, s.pc.found))] else qs
    case Consume(k) => !k.Produce? && t == s && rs == qs + [k]
  }

  ghost predicate FineRun(ss: seq<Interleaving.State>, qss: seq<seq<KeyQueue.Event>>, js: seq<FineJoint>) {
    && |ss| == |qss| == |js| + 1
    && Interleaving.Startup(ss[0]) && qss[0] == []
    && (forall i :: 0 <= i < |js| ==> FineStep(ss[i], qss[i], js[i], ss[i + 1], qss[i + 1]))
  }

  ghost predicate FineAlwaysMountain(js: seq<FineJoint>, k: string) {
    forall i :: 0 <= i < |js| && js[i].Loop? && js[i].e.Fetch? ==> Interleaving.MountainIn(js[i].e.hsm, k)
  }

  /** The queue gets exactly what the loop sends, and what is cached has been sent. */
  lemma {:induction false} FineInvariant(ss: seq<Interleaving.State>, qss: seq<seq<KeyQueue.Event>>,
                                         js: seq<FineJoint>, k: string)
    requires FineRun(ss, qss, js) && FineAlwaysMountain(js, k)
    ensures KeyQueue.Produced(qss[|js|]) == ss[|js|].sent && Interleaving.SentInv(ss[|js|], k)
  {
    var n := |js|;
    if n > 0 {
      FineInvariant(ss[..n], qss[..n], js[..n - 1], k);
      assert FineStep(ss[n - 1], qss[n - 1], js[n - 1], ss[n], qss[n]);
      match js[n - 1]
      case Loop(e) =>
        Interleaving.SentStep(ss[n - 1], e, k);
        if e.Finish? {
          ProducedGrows(qss[n - 1], KeyQueue.Produce(Interleaving.ToQueue(ss[n - 1].cache, ss[n - 1].pc.found)));
        }
      case Consume(q) => ProducedGrows(qss[n - 1], q);
    }
  }

  /** A record of this name is under way, pending by name, or has its BMC's key acknowledged. */
  ghost predicate NameAccountedFor(qs: seq<KeyQueue.Event>, k: string)
    requires KeyQueue.Legal(qs)
  {
    var q := KeyQueue.Exec(qs);
    k in Names(q.outbox) || k in Names(q.channel) || k in q.pending || KeyQueue.Deployed(qs, k)
  }

  /**
   From cache to key under every interleaving: whatever clearData handlers do between the
   steps of the rounds, and whatever requests fail, a name that HSM only ever reports as
   Mountain or Hill and that is cached while the loop rests is waiting to be sent, in the
   channel, pending, or has its BMC's key acknowledged.
   */
  lemma InterleavedMountainIsAccountedFor(ss: seq<Interleaving.State>, qss: seq<seq<KeyQueue.Event>>,
                                          js: seq<FineJoint>, k: string)
    requires FineRun(ss, qss, js) && KeyQueue.Legal(qss[|js|]) && FineAlwaysMountain(js, k)
    requires ss[|js|].pc.Sleeping? && k in ss[|js|].cache
    ensures NameAccountedFor(qss[|js|], k)
  {
    var qs := qss[|js|];
    FineInvariant(ss, qss, js, k);
    var m: nat :| m < |KeyQueue.Produced(qs)| && KeyQueue.Produced(qs)[m].nodeName == k;
    KeyQueue.NoDeploymentIsLost(qs, m);
    var q, n := KeyQueue.Exec(qs), KeyQueue.Produced(qs)[m];
    if m >= |KeyQueue.Received(qs)| {
      assert n in q.channel + q.outbox;
    }
  }

  // ---------- Paradise nodes ----------

  /** The mountain-class names of a cache, by class. */
  function MountainClass(cache: Index): set<string> {
    set k | k in cache && cache[k].hwClass in {"Mountain", "Hill", "Paradise"}
  }

  /** Every joined record of a name on the Paradise list has the class Paradise. */
  lemma ParadiseJoined(rfs: seq<HsmJoin.RedfishEndpoint>, paradise: set<string>, comps: seq<HsmJoin.StateComponent>,
                       n: NodeInfo)
    requires HsmJoin.NoBroken(comps) && n in HsmJoin.Join(rfs, paradise, comps) && n.nodeName in paradise
    ensures n.hwClass == "Paradise"
  {
    HsmJoin.JoinedRecord(rfs, paradise, comps, n);
  }

  /**
   From HSM to the counts: a Node component on the Paradise list whose BMC is an endpoint is
   cached by the round that commits the report, whatever class HSM gave it, is among the
   nodes of the mountain count, and is not sent for key deployment.
   */
  lemma ParadiseIsCountedNotSent(rfs: seq<HsmJoin.RedfishEndpoint>, paradise: set<string>,
                                 comps: seq<HsmJoin.StateComponent>, i: nat, r: nat, s: State, e: Event)
    requires HsmJoin.NoBroken(comps) && i < |comps| && comps[i].kind == "Node" && comps[i].id in paradise
    requires r < |rfs| && rfs[r].id == HsmJoin.BmcOf(comps[i].id)
    requires Active(s, e) && RoundOk(s, e) && e.hsm == HsmJoin.Join(rfs, paradise, comps)
    ensures comps[i].id in MountainClass(Step(s, e).cache)
    ensures CountMountain(Step(s, e).cache) == |MountainClass(Step(s, e).cache)|
    ensures comps[i].id !in Names(RoundSent(s, e))
  {
    var k := comps[i].id;
    HsmJoin.NodeWithEndpointIsJoined(rfs, paradise, comps, i, r);
    forall n | n in e.hsm && n.nodeName == k ensures n.hwClass == "Paradise" {
      ParadiseJoined(rfs, paradise, comps, n);
    }
    CountsByClass(Step(s, e).cache);
    AllParadise(s, e, k);
  }

  /** A reported name that has only the class Paradise in its report. */
  lemma AllParadise(s: State, e: Event, k: string)
    requires Active(s, e) && RoundOk(s, e) && k in Names(e.hsm)
    requires forall n :: n in e.hsm && n.nodeName == k ==> n.hwClass == "Paradise"
    ensures k in MountainClass(Step(s, e).cache) && k !in Names(RoundSent(s, e))
  {
    ByNameIndexes(e.hsm);
    NewNodesAre(s.cache, e.hsm);
    MountainsAre(NewNodes(s.cache, e.hsm));
  }

  // ---------- From cache to capacity ----------

  /** The cached nodes that share the mountain, or the river, target. */
  function ClassNodes(cache: Index, mountain: bool): set<string> {
    set k | k in cache && if mountain then cache[k].CountsAsMountain() else cache[k].IsRiver()
  }

  /** What updateNodeCounts publishes for the cache a round leaves behind. */
  function Published(k8s: Publish.State, cache: Index, env: Publish.Env): Publish.State {
    Publish.UpdateCounts(k8s, CountMountain(cache), CountRiver(cache), env)
  }

  /** The claims fit the replicas and the target published for the class. */
  ghost predicate Within(claims: map<string, nat>, t: Publish.State, mountain: bool) {
    var target := if mountain then t.numMtnNodesPerPod else t.numRvrNodesPerPod;
    t.replicas >= 0 && target >= 0 && Scaling.Respects(claims, t.replicas, target)
  }

  /**
   After a round and a fully successful publication, from any earlier replica count and
   targets: however the console-node pods have claimed the cached nodes of a class within
   the published target, all of that class can still be claimed within it.
   */
  lemma EveryCachedNodeCanBeClaimed(k8s: Publish.State, cache: Index, env: Publish.Env, mountain: bool,
                                    claims: map<string, nat>) returns (full: map<string, nat>)
    requires env.AllOk() && |cache| <= 0x7FFF_FFFE && CountMountain(cache) + CountRiver(cache) > 0
    requires claims.Keys <= ClassNodes(cache, mountain) && Within(claims, Published(k8s, cache, env), mountain)
    ensures full.Keys == ClassNodes(cache, mountain) && Within(full, Published(k8s, cache, env), mountain)
    ensures forall n :: n in claims ==> full[n] == claims[n]
  {
    ClassCountsPartition(cache);
    var m, r := CountMountain(cache), CountRiver(cache);
    Publish.UpdateCorrectsDrift(k8s, m, r, env, env);
    var nodes, t := ClassNodes(cache, mountain), Published(k8s, cache, env);
    assert |nodes| == if mountain then m else r by {
      assert nodes == if mountain then set k | k in cache && cache[k].CountsAsMountain()
                      else set k | k in cache && cache[k].IsRiver();
    }
    full := Scaling.ClaimingCanAlwaysFinish(nodes, claims, t.replicas, false);
  }
}
