/**
 The consumer of the key-deployment queue as it runs: index maps and lists built in loops
 over maps of unspecified order, and entries deleted in place as targets are acknowledged.
 */
module KeyDeploy {
  import opened Inventory
  import opened KeyQueue

  /** The zero value the list is padded with when it is created with a length. */
  const ZERO: NodeInfo := NodeInfo("", "", "", "", 0, "")

  /** The addresses of the BMCs behind the Mountain and Hill nodes of a collection. */
  function BmcAddresses(nodes: set<NodeInfo>): set<string> {
    set n | n in nodes && n.IsMountain() :: n.bmcFqdn
  }

  function Elements<T>(s: seq<T>): set<T> {
    set x | x in s
  }

  lemma OneMoreAddress(nodes: seq<NodeInfo>, i: nat)
    requires i < |nodes|
    ensures BmcAddresses(Elements(nodes[..i + 1]))
         == BmcAddresses(Elements(nodes[..i])) + if nodes[i].IsMountain() then {nodes[i].bmcFqdn} else {}
  {
    assert nodes[..i + 1] == nodes[..i] + [nodes[i]];
  }

  /** The addresses to send to, indexed so that each occurs once. */
  method CollectBmcs(nodes: seq<NodeInfo>) returns (mtnBmcList: map<string, string>)
    ensures mtnBmcList.Keys == BmcAddresses(Elements(nodes))
  {
    mtnBmcList := map[];
    for i := 0 to |nodes|
      invariant mtnBmcList.Keys == BmcAddresses(Elements(nodes[..i]))
    {
      OneMoreAddress(nodes, i);
      if nodes[i].IsMountain() {
        mtnBmcList := mtnBmcList[nodes[i].bmcFqdn := nodes[i].bmcName];
      }
    }
    assert nodes[..|nodes|] == nodes;
  }

  /** The request's targets: every Mountain BMC address of the list, each once, in any order. */
  method CollectTargets(nodes: seq<NodeInfo>) returns (targets: seq<string>)
    ensures Elements(targets) == BmcAddresses(Elements(nodes))
    ensures forall i, j :: 0 <= i < j < |targets| ==> targets[i] != targets[j]
  {
    var mtnBmcList := CollectBmcs(nodes);
    targets := [];
    var todo := mtnBmcList.Keys;
    while todo != {}
      invariant todo <= mtnBmcList.Keys
      invariant forall b :: b in targets <==> b in mtnBmcList && b !in todo
      invariant forall i, j :: 0 <= i < j < |targets| ==> targets[i] != targets[j]
      decreases |todo|
    {
      var b :| b in todo;
      targets := targets + [b];
      todo := todo - {b};
    }
    assert forall b :: b in Elements(targets) <==> b in mtnBmcList.Keys;
  }

  /** Ghost meaning of the inverse index: which pending nodes sit behind each BMC. */
  ghost predicate Indexes(bmcMap: map<string, seq<string>>, pending: Index, done: set<string>) {
    && (forall b, x :: b in bmcMap && x in bmcMap[b] ==> x in done && x in pending && pending[x].bmcName == b)
    && (forall x :: x in done && x in pending ==> pending[x].bmcName in bmcMap && x in bmcMap[pending[x].bmcName])
  }

  lemma IndexOneMore(bmcMap: map<string, seq<string>>, pending: Index, done: set<string>, k: string)
    requires Indexes(bmcMap, pending, done) && k in pending
    ensures var b := pending[k].bmcName;
            Indexes(bmcMap[b := (if b in bmcMap then bmcMap[b] else []) + [k]], pending, done + {k})
  {
  }

  /** The list holds the pending nodes taken so far, and beyond them only padding. */
  ghost predicate Lists(nodeList: seq<NodeInfo>, pending: Index, done: set<string>) {
    && (forall n :: n in nodeList ==> n == ZERO || exists k :: k in done && k in pending && pending[k] == n)
    && (forall k :: k in done && k in pending ==> pending[k] in nodeList)
  }

  /** The list begins with as many zero values as there are pending nodes. */
  ghost predicate Padded(nodeList: seq<NodeInfo>, zeros: nat, taken: nat) {
    |nodeList| == zeros + taken && forall i :: 0 <= i < zeros ==> nodeList[i] == ZERO
  }

  lemma ListOneMore(nodeList: seq<NodeInfo>, pending: Index, done: set<string>, k: string)
    requires Lists(nodeList, pending, done) && k in pending && k !in done && Padded(nodeList, |pending|, |done|)
    ensures Lists(nodeList + [pending[k]], pending, done + {k})
    ensures Padded(nodeList + [pending[k]], |pending|, |done + {k}|)
  {
    var more := nodeList + [pending[k]];
    forall n | n in more ensures n == ZERO || exists x :: x in done + {k} && x in pending && pending[x] == n {
      assert n in nodeList || n == pending[k];
    }
    assert forall i :: 0 <= i < |nodeList| ==> more[i] == nodeList[i];
  }

  /** The padded node list and the inverse index, from any iteration order. */
  method BuildIndex(pending: Index) returns (nodeList: seq<NodeInfo>, bmcMap: map<string, seq<string>>)
    ensures Indexes(bmcMap, pending, pending.Keys)
    ensures Lists(nodeList, pending, pending.Keys)
    ensures Padded(nodeList, |pending|, |pending|)
  {
    nodeList := seq(|pending|, _ => ZERO);
    bmcMap := map[];
    var done: set<string> := {};
    while pending.Keys - done != {}
      invariant done <= pending.Keys
      invariant Indexes(bmcMap, pending, done) && Lists(nodeList, pending, done)
      invariant Padded(nodeList, |pending|, |done|)
      decreases pending.Keys - done
    {
      var k :| k in pending.Keys - done;
      var b := pending[k].bmcName;
      IndexOneMore(bmcMap, pending, done, k);
      ListOneMore(nodeList, pending, done, k);
      nodeList := nodeList + [pending[k]];
      bmcMap := bmcMap[b := (if b in bmcMap then bmcMap[b] else []) + [k]];
      done := done + {k};
    }
    assert done == pending.Keys && |pending.Keys| == |pending|;
  }

  /** The padding adds no target: the addresses are those of the pending nodes. */
  lemma PaddingAddsNoTarget(nodeList: seq<NodeInfo>, pending: Index)
    requires Lists(nodeList, pending, pending.Keys)
    ensures BmcAddresses(Elements(nodeList)) == BmcAddresses(pending.Values)
  {
  }

  /** Remove every node behind one BMC. */
  method DropBmc(remaining: Index, xnames: seq<string>) returns (rest: Index)
    ensures rest == remaining - Elements(xnames)
  {
    rest := remaining;
    for i := 0 to |xnames|
      invariant rest == remaining - Elements(xnames[..i])
    {
      assert Elements(xnames[..i + 1]) == Elements(xnames[..i]) + {xnames[i]};
      rest := rest - {xnames[i]};
    }
    assert xnames[..|xnames|] == xnames;
  }

  lemma AckedByOneMore(targets: seq<ScsdNode>, i: nat)
    requires i < |targets|
    ensures AckedBy(targets[..i + 1])
         == AckedBy(targets[..i]) + if targets[i].statusCode == 204 then {targets[i].xname} else {}
  {
    assert targets[..i + 1] == targets[..i] + [targets[i]];
  }

  /** Dropping the nodes listed behind one BMC is filtering by that BMC. */
  lemma DropIsFilter(pending: Index, bmcMap: map<string, seq<string>>, acked: set<string>, bmc: string)
    requires Indexes(bmcMap, pending, pending.Keys)
    ensures Remaining(pending, acked) - Elements(if bmc in bmcMap then bmcMap[bmc] else [])
         == Remaining(pending, acked + {bmc})
  {
    var xnames := if bmc in bmcMap then bmcMap[bmc] else [];
    assert forall k :: k in pending ==> (k in Elements(xnames) <==> pending[k].bmcName == bmc);
  }

  /** Going through the reply target by target removes exactly the acknowledged nodes. */
  method DropAcked(pending: Index, bmcMap: map<string, seq<string>>, targets: seq<ScsdNode>)
    returns (remaining: Index)
    requires Indexes(bmcMap, pending, pending.Keys)
    ensures remaining == Remaining(pending, AckedBy(targets))
  {
    remaining := pending;
    assert AckedBy(targets[..0]) == {};
    for i := 0 to |targets|
      invariant remaining == Remaining(pending, AckedBy(targets[..i]))
    {
      var t := targets[i];
      AckedByOneMore(targets, i);
      if t.statusCode == 204 {
        DropIsFilter(pending, bmcMap, AckedBy(targets[..i]), t.xname);
        remaining := DropBmc(remaining, if t.xname in bmcMap then bmcMap[t.xname] else []);
      }
    }
    assert targets[..|targets|] == targets;
  }

  /** Some pending node of class Mountain or Hill has its BMC at this address. */
  ghost predicate AddressOfMountain(pending: Index, a: string) {
    exists k :: k in pending && pending[k].bmcFqdn == a && (pending[k].hwClass == "Mountain" || pending[k].hwClass == "Hill")
  }

  lemma AddressesByClass(pending: Index, request: seq<string>)
    requires Elements(request) == BmcAddresses(pending.Values)
    ensures forall a :: a in request <==> AddressOfMountain(pending, a)
  {
    forall a ensures a in request <==> AddressOfMountain(pending, a) {
      assert a in request <==> a in BmcAddresses(pending.Values);
    }
  }

  /**
   One batch. It refines a plain filter: exactly the pending nodes whose BMC was not
   acknowledged remain, for any map order and any duplicate or unknown reply targets, and
   the request, when one is sent, names every pending Mountain BMC and nothing else.
   */
  method DoMountainCredsUpdate(nodesToUpdate: Index, outcome: Outcome)
    returns (remaining: Index, posted: bool, request: seq<string>)
    ensures remaining == Remaining(nodesToUpdate, outcome.Acked())
    ensures posted == outcome.Posted?
    ensures posted ==> Elements(request) == BmcAddresses(nodesToUpdate.Values)
    ensures posted ==> forall a :: a in request <==> AddressOfMountain(nodesToUpdate, a)
  {
    var nodeList, bmcMap := BuildIndex(nodesToUpdate);
    posted, request := false, [];
    if outcome.Posted? {
      posted := true;
      request := CollectTargets(nodeList);
      PaddingAddsNoTarget(nodeList, nodesToUpdate);
      AddressesByClass(nodesToUpdate, request);
    }
    if !outcome.Success() {
      assert outcome.Acked() == {};
      assert Remaining(nodesToUpdate, {}) == nodesToUpdate;
      remaining := nodesToUpdate;
      return;
    }
    assert outcome.Acked() == AckedBy(outcome.Targets());
    remaining := DropAcked(nodesToUpdate, bmcMap, outcome.Targets());
  }

  /** The consumer goroutine's variables and the channel it shares with the hardware loop. */
  class Consumer {
    var channel: seq<NodeInfo>
    var nodesToUpdate: Index
    var outbox: seq<NodeInfo>

    constructor ()
      ensures View() == EMPTY
    {
      channel, nodesToUpdate, outbox := [], map[], [];
    }

    ghost function View(): State
      reads this
    {
      State(outbox, channel, nodesToUpdate)
    }

    /** A round of the hardware loop has nodes to send; the one before has sent all of its own. */
    method StartSending(nodes: seq<NodeInfo>)
      requires outbox == []
      modifies this`outbox
      ensures Allowed(old(View()), Produce(nodes)) && View() == Step(old(View()), Produce(nodes))
    {
      outbox := nodes;
    }

    /** The producing round sends one node; it blocks while the channel is full. */
    method SendOne()
      requires outbox != [] && |channel| < 100
      modifies this`channel, this`outbox
      ensures Allowed(old(View()), Send) && View() == Step(old(View()), Send)
      ensures |channel| <= 100 && channel + outbox == old(channel + outbox)
    {
      channel := channel + [outbox[0]];
      outbox := outbox[1..];
    }

    /** Take one node from the channel. */
    method TakeOne()
      requires channel != []
      modifies this`channel, this`nodesToUpdate
      ensures Allowed(old(View()), Receive(old(channel[0])))
      ensures View() == Step(old(View()), Receive(old(channel[0])))
    {
      var node := channel[0];
      channel := channel[1..];
      nodesToUpdate := nodesToUpdate[node.nodeName := node];
    }

    /** A second without arrivals: send the current batch, if there is one. */
    method OnTimeout(outcome: Outcome)
      modifies this`nodesToUpdate
      ensures old(nodesToUpdate) == map[] ==> View() == old(View())
      ensures old(nodesToUpdate) != map[] ==>
                Allowed(old(View()), Batch(outcome)) && View() == Step(old(View()), Batch(outcome))
    {
      if |nodesToUpdate| > 0 {
        assert nodesToUpdate != map[];
        var remaining, _, _ := DoMountainCredsUpdate(nodesToUpdate, outcome);
        nodesToUpdate := remaining;
      }
    }
  }
}
