/**
 Node records as the operator keeps them, the hardware-class predicates, and the
 name index that both the reconciliation loop and its proofs rely on.
 */
module Inventory {
  import opened FiniteSets

  /** nodeConsoleInfo: everything needed to form a console connection to one node. */
  datatype NodeInfo = NodeInfo(
    nodeName: string,
    bmcName: string,
    bmcFqdn: string,
    hwClass: string,
    nid: int,
    role: string)
  {
    predicate IsMountain() { hwClass == "Mountain" || hwClass == "Hill" }

    predicate IsRiver() { hwClass == "River" }

    predicate IsParadise() { hwClass == "Paradise" }

    /** Counted against the mountain maximum. */
    predicate CountsAsMountain() { IsMountain() || IsParadise() }
  }

  type Index = map<string, NodeInfo>

  /** The names carried by a list of records. */
  function Names(nodes: seq<NodeInfo>): set<string> {
    set n | n in nodes :: n.nodeName
  }

  /** The names carried by the records of an index (not its keys). */
  function RecordNames(index: Index): set<string> {
    set k | k in index :: index[k].nodeName
  }

  /** Index a report by node name; the last record of a name wins. */
  function ByName(nodes: seq<NodeInfo>): Index {
    if nodes == [] then map[]
    else var last := nodes[|nodes| - 1]; ByName(nodes[..|nodes| - 1])[last.nodeName := last]
  }

  ghost predicate Keyed(index: Index) {
    forall k :: k in index ==> index[k].nodeName == k
  }

  ghost predicate UniqueNames(nodes: seq<NodeInfo>) {
    forall i, j :: 0 <= i < j < |nodes| ==> nodes[i].nodeName != nodes[j].nodeName
  }

  /** The index holds exactly the reported names, each with a reported record of that name. */
  lemma {:induction false} ByNameIndexes(nodes: seq<NodeInfo>)
    ensures ByName(nodes).Keys == Names(nodes)
    ensures Keyed(ByName(nodes))
    ensures forall k :: k in ByName(nodes) ==> ByName(nodes)[k] in nodes
  {
    if nodes != [] {
      var init, last := nodes[..|nodes| - 1], nodes[|nodes| - 1];
      ByNameIndexes(init);
      assert nodes == init + [last];
    }
  }

  /** Of several records of one name the last is indexed. */
  lemma {:induction false} LastRecordWins(nodes: seq<NodeInfo>, k: string)
    requires k in ByName(nodes)
    ensures exists i :: 0 <= i < |nodes| && nodes[i] == ByName(nodes)[k] && nodes[i].nodeName == k &&
                        forall j :: i < j < |nodes| ==> nodes[j].nodeName != k
  {
    var init, last := nodes[..|nodes| - 1], nodes[|nodes| - 1];
    if last.nodeName != k {
      LastRecordWins(init, k);
      var i :| 0 <= i < |init| && init[i] == ByName(init)[k] && init[i].nodeName == k &&
               forall j :: i < j < |init| ==> init[j].nodeName != k;
      assert nodes[i] == init[i] && forall j :: i < j < |nodes| ==> nodes[j].nodeName != k;
    }
  }

  /** A report without duplicate names lists every record once. */
  lemma {:induction false} UniqueOnce(nodes: seq<NodeInfo>, n: NodeInfo)
    requires UniqueNames(nodes)
    ensures multiset(nodes)[n] == if n in nodes then 1 else 0
  {
    if nodes != [] {
      var init, last := nodes[..|nodes| - 1], nodes[|nodes| - 1];
      assert nodes == init + [last];
      UniqueOnce(init, n);
      assert forall i :: 0 <= i < |init| ==> init[i] == nodes[i] && init[i].nodeName != last.nodeName;
    }
  }

  /** In a report without duplicate names a record is determined by its name. */
  lemma UniqueRecord(nodes: seq<NodeInfo>, a: NodeInfo, b: NodeInfo)
    requires UniqueNames(nodes) && a in nodes && b in nodes && a.nodeName == b.nodeName
    ensures a == b
  {
  }

  // ---------- Class counts ----------

  function CountMountain(cache: Index): nat {
    |set k | k in cache && cache[k].CountsAsMountain()|
  }

  function CountRiver(cache: Index): nat {
    |set k | k in cache && cache[k].IsRiver()|
  }

  function CountUnknown(cache: Index): nat {
    |set k | k in cache && !cache[k].IsRiver() && !cache[k].CountsAsMountain()|
  }

  /** What the counts count, by the class HSM or the Paradise query gave a node. */
  lemma CountsByClass(cache: Index)
    ensures CountMountain(cache) == |set k | k in cache && cache[k].hwClass in {"Mountain", "Hill", "Paradise"}|
    ensures CountRiver(cache) == |set k | k in cache && cache[k].hwClass == "River"|
  {
    assert (set k | k in cache && cache[k].CountsAsMountain())
        == set k | k in cache && cache[k].hwClass in {"Mountain", "Hill", "Paradise"};
    assert (set k | k in cache && cache[k].IsRiver()) == set k | k in cache && cache[k].hwClass == "River";
  }

  /** The three counts partition the cache: no node is counted twice and none is missed. */
  lemma ClassCountsPartition(cache: Index)
    ensures CountMountain(cache) + CountRiver(cache) + CountUnknown(cache) == |cache|
  {
    var m := set k | k in cache && cache[k].CountsAsMountain();
    var r := set k | k in cache && cache[k].IsRiver();
    var u := set k | k in cache && !cache[k].IsRiver() && !cache[k].CountsAsMountain();
    PartitionSizes(m, r, u);
    assert m + r + u == cache.Keys;
  }
}
