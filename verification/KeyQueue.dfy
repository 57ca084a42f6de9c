/**
 The Mountain key-deployment queue: rounds of the hardware loop produce nodes, a bounded
 channel carries them, and a consumer collects them by name, deploys keys in batches and
 retries whatever was not acknowledged.
 */
module KeyQueue {
  import opened FiniteSets
  import opened Inventory

  /** One target of an scsd reply. */
  datatype ScsdNode = ScsdNode(xname: string, statusCode: int)

  /**
   How one deployment call ends: nothing is sent in debug mode or without a readable public
   key; otherwise scsd answers with an HTTP code (-1 for a transport error) and whatever
   targets could be decoded from its reply.
   */
  datatype Outcome =
    | DebugOnly
    | KeyUnreadable
    | Posted(rc: int, targets: seq<ScsdNode>)
  {
    predicate Success() {
      match this
      case DebugOnly => true
      case KeyUnreadable => false
      case Posted(rc, _) => rc < 300
    }

    function Targets(): seq<ScsdNode> {
      if Posted? then targets else []
    }

    /** The BMCs this call acknowledges. */
    function Acked(): set<string> {
      if Success() then AckedBy(Targets()) else {}
    }
  }

  /** The BMCs that a list of reply targets reports as done. */
  function AckedBy(targets: seq<ScsdNode>): set<string> {
    set t | t in targets && t.statusCode == 204 :: t.xname
  }

  /** The pending nodes that stay: those whose BMC was not acknowledged. */
  function Remaining(pending: Index, acked: set<string>): Index {
    map k | k in pending && pending[k].bmcName !in acked :: pending[k]
  }

  const CAPACITY: nat := 100

  /** `outbox` is what the producing round has still to send; it blocks until that is done. */
  datatype State = State(outbox: seq<NodeInfo>, channel: seq<NodeInfo>, pending: Index)

  datatype Event =
    | Produce(nodes: seq<NodeInfo>)
    | Send
    | Receive(node: NodeInfo)
    | Batch(outcome: Outcome)

  predicate Allowed(s: State, e: Event) {
    match e
    case Produce(_) => s.outbox == []
    case Send => s.outbox != [] && |s.channel| < CAPACITY
    case Receive(node) => s.channel != [] && s.channel[0] == node
    case Batch(_) => s.pending != map[]
  }

  function Step(s: State, e: Event): State
    requires Allowed(s, e)
  {
    match e
    case Produce(nodes) => s.(outbox := nodes)
    case Send => s.(outbox := s.outbox[1..], channel := s.channel + [s.outbox[0]])
    case Receive(node) => s.(channel := s.channel[1..], pending := s.pending[node.nodeName := node])
    case Batch(outcome) => s.(pending := Remaining(s.pending, outcome.Acked()))
  }

  const EMPTY: State := State([], [], map[])

  predicate Legal(es: seq<Event>)
    decreases |es|, 0
  {
    es == [] || (Legal(es[..|es| - 1]) && Allowed(Exec(es[..|es| - 1]), es[|es| - 1]))
  }

  /** The state after a run that starts with nothing queued. */
  function Exec(es: seq<Event>): State
    requires Legal(es)
    decreases |es|, 1
  {
    if es == [] then EMPTY else Step(Exec(es[..|es| - 1]), es[|es| - 1])
  }

  // ---------- Nothing is lost or reordered on the way to the consumer ----------

  function Produced(es: seq<Event>): seq<NodeInfo> {
    if es == [] then []
    else Produced(es[..|es| - 1]) + match es[|es| - 1] case Produce(nodes) => nodes case _ => []
  }

  function Received(es: seq<Event>): seq<NodeInfo> {
    if es == [] then []
    else Received(es[..|es| - 1]) + match es[|es| - 1] case Receive(node) => [node] case _ => []
  }

  lemma ConservesStep(r: seq<NodeInfo>, s: State, e: Event)
    requires Allowed(s, e)
    ensures var t := Step(s, e);
            match e
            case Produce(nodes) => r + s.channel + s.outbox + nodes == r + t.channel + t.outbox
            case Receive(node) => r + s.channel + s.outbox == r + [node] + t.channel + t.outbox
            case _ => r + s.channel + s.outbox == r + t.channel + t.outbox
  {
  }

  /** First in, first out, exactly once, and never more than the channel's capacity under way. */
  lemma {:induction false} ChannelConserves(es: seq<Event>)
    requires Legal(es)
    ensures Produced(es) == Received(es) + Exec(es).channel + Exec(es).outbox
    ensures |Exec(es).channel| <= 100
  {
    if es != [] {
      var init, e := es[..|es| - 1], es[|es| - 1];
      ChannelConserves(init);
      ConservesStep(Received(init), Exec(init), e);
    }
  }

  // ---------- What is pending, exactly ----------

  /** Event `j` is the latest dequeue of a node named `k`. */
  ghost predicate LatestReceive(es: seq<Event>, k: string, j: nat) {
    && j < |es| && es[j].Receive? && es[j].node.nodeName == k
    && (forall l :: j < l < |es| && es[l].Receive? ==> es[l].node.nodeName != k)
  }

  /** Some batch after event `j` was acknowledged with status 204 for the BMC. */
  ghost predicate AckedAfter(es: seq<Event>, j: nat, bmc: string) {
    exists l :: j < l < |es| && es[l].Batch? && bmc in es[l].outcome.Acked()
  }

  lemma OlderEvents(es: seq<Event>, k: string, j: nat, bmc: string)
    requires es != [] && j < |es| - 1
    ensures LatestReceive(es, k, j) <==>
              LatestReceive(es[..|es| - 1], k, j) &&
              !(es[|es| - 1].Receive? && es[|es| - 1].node.nodeName == k)
    ensures AckedAfter(es, j, bmc) <==>
              AckedAfter(es[..|es| - 1], j, bmc) ||
              (es[|es| - 1].Batch? && bmc in es[|es| - 1].outcome.Acked())
  {
  }

  /** A node whose latest dequeue has not been acknowledged since is pending, as it was dequeued. */
  lemma {:induction false} UnackedIsPending(es: seq<Event>, k: string, j: nat)
    requires Legal(es) && LatestReceive(es, k, j) && !AckedAfter(es, j, es[j].node.bmcName)
    ensures k in Exec(es).pending && Exec(es).pending[k] == es[j].node
  {
    if j < |es| - 1 {
      OlderEvents(es, k, j, es[j].node.bmcName);
      UnackedIsPending(es[..|es| - 1], k, j);
    }
  }

  /** Whatever is pending was dequeued, in that form, and has not been acknowledged since. */
  lemma {:induction false} PendingIsUnacked(es: seq<Event>, k: string) returns (j: nat)
    requires Legal(es) && k in Exec(es).pending
    ensures LatestReceive(es, k, j) && Exec(es).pending[k] == es[j].node
    ensures !AckedAfter(es, j, es[j].node.bmcName)
  {
    var init, e := es[..|es| - 1], es[|es| - 1];
    if e.Receive? && e.node.nodeName == k {
      j := |es| - 1;
    } else {
      j := PendingIsUnacked(init, k);
      OlderEvents(es, k, j, es[j].node.bmcName);
    }
  }

  lemma {:induction false} ReceivedHasLatest(es: seq<Event>, n: NodeInfo) returns (j: nat)
    requires n in Received(es)
    ensures LatestReceive(es, n.nodeName, j)
  {
    var init, e := es[..|es| - 1], es[|es| - 1];
    if e.Receive? && e.node.nodeName == n.nodeName {
      j := |es| - 1;
    } else {
      j := ReceivedHasLatest(init, n);
      OlderEvents(es, n.nodeName, j, "");
    }
  }

  /** Since its latest dequeue, the BMC recorded for the name has been acknowledged. */
  ghost predicate Deployed(es: seq<Event>, k: string) {
    exists j: nat :: LatestReceive(es, k, j) && AckedAfter(es, j, es[j].node.bmcName)
  }

  /**
   No deployment is lost: in every run, the m-th node that the rounds produced is either
   still under way, at its place in the channel or outbox, or it was the m-th dequeued, and
   then its name is pending or its BMC was acknowledged after the name's latest dequeue.
   */
  lemma NoDeploymentIsLost(es: seq<Event>, m: nat)
    requires Legal(es) && m < |Produced(es)|
    ensures var n, s, taken := Produced(es)[m], Exec(es), |Received(es)|;
            if m < taken then Received(es)[m] == n && (n.nodeName in s.pending || Deployed(es, n.nodeName))
            else m - taken < |s.channel + s.outbox| && (s.channel + s.outbox)[m - taken] == n
  {
    ChannelConserves(es);
    if m < |Received(es)| {
      var j := ReceivedHasLatest(es, Received(es)[m]);
      if !AckedAfter(es, j, es[j].node.bmcName) {
        UnackedIsPending(es, Received(es)[m].nodeName, j);
      }
    }
  }

  /**
   What one batch keeps, said without the filter: a pending node leaves exactly when scsd
   answered with a code below 300 (a transport error counts as -1) and status 204 for its
   BMC. Nodes behind one BMC stay or leave together; unknown and repeated targets, failed
   calls and replies without targets change nothing.
   */
  lemma BatchKeepsExactly(s: State, outcome: Outcome, k: string)
    requires s.pending != map[] && k in s.pending
    ensures var t := Step(s, Batch(outcome));
            && (k !in t.pending <==>
                  outcome.Posted? && outcome.rc < 300 &&
                  exists i :: 0 <= i < |outcome.targets| && outcome.targets[i].statusCode == 204 &&
                              outcome.targets[i].xname == s.pending[k].bmcName)
            && t.pending.Keys <= s.pending.Keys
            && (k in t.pending ==> t.pending[k] == s.pending[k])
            && t.channel == s.channel && t.outbox == s.outbox
  {
    var b := s.pending[k].bmcName;
    assert b in outcome.Acked() <==>
           outcome.Success() && exists t :: t in outcome.Targets() && t.statusCode == 204 && t.xname == b;
  }

  lemma {:induction false} ReceivedAt(es: seq<Event>, j: nat)
    requires j < |es| && es[j].Receive?
    ensures es[j].node in Received(es)
  {
    if j < |es| - 1 {
      ReceivedAt(es[..|es| - 1], j);
    }
  }

  /** Only nodes that a round produced are ever pending. */
  lemma PendingWasProduced(es: seq<Event>, k: string)
    requires Legal(es) && k in Exec(es).pending
    ensures Exec(es).pending[k] in Produced(es) && Exec(es).pending[k].nodeName == k
  {
    var j := PendingIsUnacked(es, k);
    ReceivedAt(es, j);
    ChannelConserves(es);
  }

  // ---------- The queue drains ----------

  function Bmcs(pending: Index): set<string> {
    set k | k in pending :: pending[k].bmcName
  }

  lemma BatchShrinks(pending: Index, acked: set<string>)
    ensures Bmcs(Remaining(pending, acked)) == Bmcs(pending) - acked
  {
    var rest := Remaining(pending, acked);
    forall b | b in Bmcs(pending) - acked ensures b in Bmcs(rest) {
      var k :| k in pending && pending[k].bmcName == b;
      assert k in rest;
    }
  }

  function Batches(es: seq<Event>): nat {
    if es == [] then 0 else Batches(es[..|es| - 1]) + if es[|es| - 1].Batch? then 1 else 0
  }

  /** No node is dequeued, and every batch acknowledges at least one BMC pending at that point. */
  ghost predicate Draining(es: seq<Event>, more: seq<Event>)
    requires Legal(es + more)
  {
    more == [] ||
    (var init, e := more[..|more| - 1], more[|more| - 1];
     assert (es + more)[..|es + more| - 1] == es + init;
     && Draining(es, init)
     && !e.Receive?
     && (e.Batch? ==> exists b :: b in Bmcs(Exec(es + init).pending) && b in e.outcome.Acked()))
  }

  lemma {:induction false} EachBatchShrinks(es: seq<Event>, more: seq<Event>)
    requires Legal(es + more) && Draining(es, more)
    ensures Legal(es)
    ensures |Bmcs(Exec(es + more).pending)| + Batches(more) <= |Bmcs(Exec(es).pending)|
  {
    if more == [] {
      assert es + more == es;
    } else {
      var init, e := more[..|more| - 1], more[|more| - 1];
      assert (es + more)[..|es + more| - 1] == es + init && (es + more)[|es + more| - 1] == e;
      EachBatchShrinks(es, init);
      if e.Batch? {
        var p := Exec(es + init).pending;
        BatchShrinks(p, e.outcome.Acked());
        ProperSubsetIsSmaller(Bmcs(Exec(es + more).pending), Bmcs(p));
      }
    }
  }

  /**
   From any point of any run, while nothing is dequeued and each batch acknowledges at least
   one pending BMC: there are at most as many batches as distinct pending BMCs, however many
   nodes they carry and whatever is produced and sent meanwhile, and after that many nothing
   is pending.
   */
  lemma DrainsWithinDistinctBmcs(es: seq<Event>, more: seq<Event>)
    requires Legal(es + more) && Draining(es, more)
    ensures Legal(es) && Batches(more) <= |Bmcs(Exec(es).pending)|
    ensures Batches(more) == |Bmcs(Exec(es).pending)| ==> Exec(es + more).pending == map[]
  {
    EachBatchShrinks(es, more);
    var p := Exec(es + more).pending;
    assert forall k :: k in p ==> p[k].bmcName in Bmcs(p);
  }
}
