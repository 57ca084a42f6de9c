/**
 How the current nodes are obtained: HSM's state components joined with its redfish
 endpoints through the BMC name embedded in each node's name.
 */
module HsmJoin {
  import opened Inventory
  import opened Sublists

  datatype Option<T> = None | Some(value: T)

  datatype RedfishEndpoint = RedfishEndpoint(id: string, fqdn: string)

  datatype StateComponent = StateComponent(id: string, kind: string, hwClass: string, nid: int, role: string)

  /** The loop either finishes with a list or stops the program with a slice out of range. */
  datatype Result = Nodes(nodes: seq<NodeInfo>) | Panic

  /** strings.LastIndex(s, "n"): the position of the last 'n', or -1. */
  function LastN(s: string): (i: int)
    ensures -1 <= i < |s|
    ensures i >= 0 ==> s[i] == 'n'
    ensures forall j :: i < j < |s| ==> s[j] != 'n'
  {
    if s == [] then -1
    else if s[|s| - 1] == 'n' then |s| - 1
    else LastN(s[..|s| - 1])
  }

  // ---------- The naive join ----------

  /** The last endpoint in the list with the given ID. */
  function LastEndpoint(rfs: seq<RedfishEndpoint>, id: string): Option<RedfishEndpoint> {
    if rfs == [] then None
    else if rfs[|rfs| - 1].id == id then Some(rfs[|rfs| - 1])
    else LastEndpoint(rfs[..|rfs| - 1], id)
  }

  predicate Broken(sc: StateComponent) {
    sc.kind == "Node" && 'n' !in sc.id
  }

  function BmcOf(id: string): string {
    if LastN(id) < 0 then "" else id[..LastN(id)]
  }

  /** The record of one component, if it is a node whose BMC is a known endpoint. */
  function JoinOne(rfs: seq<RedfishEndpoint>, paradise: set<string>, sc: StateComponent): Option<NodeInfo> {
    if sc.kind != "Node" then None
    else
      match LastEndpoint(rfs, BmcOf(sc.id))
      case None => None
      case Some(rf) =>
        Some(NodeInfo(sc.id, BmcOf(sc.id), rf.fqdn, if sc.id in paradise then "Paradise" else sc.hwClass,
                      sc.nid, sc.role))
  }

  /** Component by component, against the plain list of endpoints. */
  function Join(rfs: seq<RedfishEndpoint>, paradise: set<string>, comps: seq<StateComponent>): seq<NodeInfo> {
    if comps == [] then []
    else
      Join(rfs, paradise, comps[..|comps| - 1]) +
      match JoinOne(rfs, paradise, comps[|comps| - 1])
      case None => []
      case Some(n) => [n]
  }

  // ---------- The indexed join, as it runs ----------

  /** The endpoint index holds the last endpoint of every ID. */
  method IndexEndpoints(rfs: seq<RedfishEndpoint>) returns (rfMap: map<string, RedfishEndpoint>)
    ensures forall id :: LastEndpoint(rfs, id) == if id in rfMap then Some(rfMap[id]) else None
  {
    rfMap := map[];
    for i := 0 to |rfs|
      invariant forall id :: LastEndpoint(rfs[..i], id) == if id in rfMap then Some(rfMap[id]) else None
    {
      assert rfs[..i + 1][..i] == rfs[..i];
      rfMap := rfMap[rfs[i].id := rfs[i]];
    }
    assert rfs[..|rfs|] == rfs;
  }

  /**
   The current nodes. An endpoint or component query that failed gives the empty list; a
   failed Paradise query only means that no node is reclassified. Otherwise the result is
   the naive join, in order, unless some Node component has no 'n' in its ID: exactly then
   the program is stopped.
   */
  method GetCurrentNodesFromHSM(rfEndpoints: Option<seq<RedfishEndpoint>>, stComps: Option<seq<StateComponent>>,
                                paradiseNodes: Option<set<string>>) returns (r: Result)
    ensures rfEndpoints.None? || stComps.None? ==> r == Nodes([])
    ensures rfEndpoints.Some? && stComps.Some? ==>
              (r.Panic? <==> exists sc :: sc in stComps.value && sc.kind == "Node" && 'n' !in sc.id)
    ensures rfEndpoints.Some? && stComps.Some? && r.Nodes? ==>
              r.nodes == Join(rfEndpoints.value, if paradiseNodes.Some? then paradiseNodes.value else {}, stComps.value)
  {
    if rfEndpoints.None? { return Nodes([]); }
    if stComps.None? { return Nodes([]); }
    var paradise := if paradiseNodes.Some? then paradiseNodes.value else {};
    var rfs, comps := rfEndpoints.value, stComps.value;
    var rfMap := IndexEndpoints(rfs);
    var nodes: seq<NodeInfo> := [];
    for i := 0 to |comps|
      invariant nodes == Join(rfs, paradise, comps[..i])
      invariant forall j :: 0 <= j < i ==> !Broken(comps[j])
    {
      assert comps[..i + 1][..i] == comps[..i];
      var sc := comps[i];
      ghost var joined := JoinOne(rfs, paradise, sc);
      if sc.kind == "Node" {
        var newNode := NodeInfo(sc.id, "", "", sc.hwClass, sc.nid, sc.role);
        if sc.id in paradise {
          newNode := newNode.(hwClass := "Paradise");
        }
        var last := LastN(sc.id);
        if last < 0 {
          assert Broken(sc);
          return Panic;
        }
        var bmcName := sc.id[0..last];
        assert bmcName == BmcOf(sc.id);
        if bmcName in rfMap {
          newNode := newNode.(bmcName := bmcName, bmcFqdn := rfMap[bmcName].fqdn);
          assert joined == Some(newNode);
          nodes := nodes + [newNode];
        } else {
          assert joined == None;
        }
      } else {
        assert joined == None;
      }
    }
    assert comps[..|comps|] == comps;
    r := Nodes(nodes);
  }

  // ---------- What the join guarantees to the rest of the operator ----------

  lemma {:induction false} LastEndpointIs(rfs: seq<RedfishEndpoint>, id: string)
    ensures match LastEndpoint(rfs, id)
            case None => forall i :: 0 <= i < |rfs| ==> rfs[i].id != id
            case Some(rf) =>
              exists i :: 0 <= i < |rfs| && rfs[i] == rf && rf.id == id &&
                          forall j :: i < j < |rfs| ==> rfs[j].id != id
  {
    if rfs != [] && rfs[|rfs| - 1].id != id {
      var init := rfs[..|rfs| - 1];
      LastEndpointIs(init, id);
      if LastEndpoint(init, id).Some? {
        var i :| 0 <= i < |init| && init[i] == LastEndpoint(init, id).value && init[i].id == id &&
                 forall j :: i < j < |init| ==> init[j].id != id;
        assert rfs[i] == init[i] && forall j :: i < j < |rfs| ==> rfs[j].id != id;
      }
    }
  }

  /** `nodes` are the records of the components at the positions `ps`: in order, and no position twice. */
  ghost predicate JoinsAt(rfs: seq<RedfishEndpoint>, paradise: set<string>, comps: seq<StateComponent>,
                          ps: seq<nat>, nodes: seq<NodeInfo>)
  {
    && |ps| == |nodes| && Increasing(ps)
    && (forall i :: 0 <= i < |ps| ==> ps[i] < |comps| && JoinOne(rfs, paradise, comps[ps[i]]) == Some(nodes[i]))
  }

  lemma JoinsOneMore(rfs: seq<RedfishEndpoint>, paradise: set<string>, comps: seq<StateComponent>,
                     ps: seq<nat>, nodes: seq<NodeInfo>) returns (qs: seq<nat>)
    requires comps != [] && JoinsAt(rfs, paradise, comps[..|comps| - 1], ps, nodes)
    ensures var joined := JoinOne(rfs, paradise, comps[|comps| - 1]);
            && JoinsAt(rfs, paradise, comps, qs, nodes + match joined case None => [] case Some(n) => [n])
            && forall j :: j in qs <==> j in ps || (joined.Some? && j == |comps| - 1)
  {
    var init := comps[..|comps| - 1];
    assert forall i :: 0 <= i < |ps| ==> comps[ps[i]] == init[ps[i]];
    qs := ps + if JoinOne(rfs, paradise, comps[|comps| - 1]).Some? then [|comps| - 1] else [];
  }

  ghost predicate HasRecord(rfs: seq<RedfishEndpoint>, paradise: set<string>, comps: seq<StateComponent>, j: nat) {
    j < |comps| && JoinOne(rfs, paradise, comps[j]).Some?
  }

  lemma HasRecordOneMore(rfs: seq<RedfishEndpoint>, paradise: set<string>, comps: seq<StateComponent>)
    requires comps != []
    ensures var last := |comps| - 1;
            forall j: nat :: HasRecord(rfs, paradise, comps, j) <==>
              HasRecord(rfs, paradise, comps[..last], j) || (j == last && HasRecord(rfs, paradise, comps, last))
  {
  }

  /** The joined records are those of exactly the components that have one, in component order. */
  lemma {:induction false} JoinKeepsOrder(rfs: seq<RedfishEndpoint>, paradise: set<string>, comps: seq<StateComponent>)
    returns (ps: seq<nat>)
    ensures JoinsAt(rfs, paradise, comps, ps, Join(rfs, paradise, comps))
    ensures forall j: nat :: j in ps <==> HasRecord(rfs, paradise, comps, j)
  {
    if comps == [] {
      ps := [];
    } else {
      var init := comps[..|comps| - 1];
      var before := JoinKeepsOrder(rfs, paradise, init);
      ps := JoinsOneMore(rfs, paradise, comps, before, Join(rfs, paradise, init));
      HasRecordOneMore(rfs, paradise, comps);
    }
  }

  ghost predicate NoBroken(comps: seq<StateComponent>) {
    forall i :: 0 <= i < |comps| ==> !Broken(comps[i])
  }

  /** What a record takes from its component and from the list of Paradise nodes. */
  ghost predicate ComesFrom(n: NodeInfo, sc: StateComponent, paradise: set<string>) {
    && sc.kind == "Node" && n.nodeName == sc.id && n.nid == sc.nid && n.role == sc.role
    && n.hwClass == if sc.id in paradise then "Paradise" else sc.hwClass
  }

  /** The node name is the BMC name, an 'n', and a suffix without one. */
  ghost predicate NamedAfterBmc(n: NodeInfo) {
    exists suffix :: n.nodeName == n.bmcName + "n" + suffix && 'n' !in suffix
  }

  lemma PrefixOfName(id: string)
    requires 'n' in id
    ensures exists suffix :: id == BmcOf(id) + "n" + suffix && 'n' !in suffix
  {
    var j :| 0 <= j < |id| && id[j] == 'n';
    var k := LastN(id);
    var suffix := id[k + 1..];
    assert j <= k && id == BmcOf(id) + "n" + suffix && 'n' !in suffix;
  }

  /**
   A joined record comes from a Node component, is named after its BMC, and carries the
   address of the last endpoint listed for that BMC.
   */
  lemma {:induction false} JoinedRecord(rfs: seq<RedfishEndpoint>, paradise: set<string>, comps: seq<StateComponent>,
                                        n: NodeInfo)
    requires NoBroken(comps) && n in Join(rfs, paradise, comps)
    ensures NamedAfterBmc(n)
    ensures LastEndpoint(rfs, n.bmcName).Some? && n.bmcFqdn == LastEndpoint(rfs, n.bmcName).value.fqdn
    ensures exists i :: 0 <= i < |comps| && ComesFrom(n, comps[i], paradise)
  {
    var init, sc := comps[..|comps| - 1], comps[|comps| - 1];
    assert forall i :: 0 <= i < |init| ==> init[i] == comps[i];
    if JoinOne(rfs, paradise, sc) == Some(n) {
      assert !Broken(sc) && ComesFrom(n, sc, paradise);
      PrefixOfName(sc.id);
    } else {
      JoinedRecord(rfs, paradise, init, n);
      var i :| 0 <= i < |init| && ComesFrom(n, init[i], paradise);
      assert ComesFrom(n, comps[i], paradise);
    }
  }

  /** Every Node component whose BMC is a listed endpoint is joined. */
  lemma {:induction false} NodeWithEndpointIsJoined(
    rfs: seq<RedfishEndpoint>, paradise: set<string>, comps: seq<StateComponent>, i: nat, r: nat)
    requires i < |comps| && comps[i].kind == "Node" && r < |rfs| && rfs[r].id == BmcOf(comps[i].id)
    ensures exists n :: n in Join(rfs, paradise, comps) && ComesFrom(n, comps[i], paradise)
  {
    if i == |comps| - 1 {
      LastEndpointIs(rfs, BmcOf(comps[i].id));
      var n := JoinOne(rfs, paradise, comps[i]).value;
      assert ComesFrom(n, comps[i], paradise) && n in Join(rfs, paradise, comps);
    } else {
      NodeWithEndpointIsJoined(rfs, paradise, comps[..|comps| - 1], i, r);
      var n :| n in Join(rfs, paradise, comps[..|comps| - 1]) && ComesFrom(n, comps[i], paradise);
      assert n in Join(rfs, paradise, comps);
    }
  }

  /** Nodes behind the same BMC carry the same address, so one target reaches all of them. */
  lemma SameBmcSameAddress(rfs: seq<RedfishEndpoint>, paradise: set<string>, comps: seq<StateComponent>,
                           a: NodeInfo, b: NodeInfo)
    requires NoBroken(comps) && a in Join(rfs, paradise, comps) && b in Join(rfs, paradise, comps)
    requires a.bmcName == b.bmcName
    ensures a.bmcFqdn == b.bmcFqdn
  {
    JoinedRecord(rfs, paradise, comps, a);
    JoinedRecord(rfs, paradise, comps, b);
  }

  ghost predicate UniqueIds(comps: seq<StateComponent>) {
    forall i, j :: 0 <= i < j < |comps| ==> comps[i].id != comps[j].id
  }

  /** If HSM's component IDs are unique, so are the node names handed to the reconciliation. */
  lemma {:induction false} UniqueIdsGiveUniqueNames(
    rfs: seq<RedfishEndpoint>, paradise: set<string>, comps: seq<StateComponent>)
    requires NoBroken(comps) && UniqueIds(comps)
    ensures UniqueNames(Join(rfs, paradise, comps))
  {
    if comps != [] {
      var init, sc := comps[..|comps| - 1], comps[|comps| - 1];
      UniqueIdsGiveUniqueNames(rfs, paradise, init);
      forall n | n in Join(rfs, paradise, init) ensures n.nodeName != sc.id {
        JoinedRecord(rfs, paradise, init, n);
        var i :| 0 <= i < |init| && ComesFrom(n, init[i], paradise);
        assert comps[i].id != sc.id;
      }
    }
  }
}
