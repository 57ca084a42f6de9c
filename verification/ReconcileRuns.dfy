/**
 What holds over whole runs of the reconciliation loop, beyond the main invariant:
 how often it pushes everything, how stale console-data can get, when its names agree
 exactly with the cache, what a lost delete leaves behind, and which nodes are queued
 for key deployment.
 */
module ReconcileRuns {
  import opened Inventory
  import opened Reconcile
  import opened Sublists

  // ---------- The countdown ----------

  function ActiveCount(s: State, es: seq<Event>): nat {
    if es == [] then 0
    else ActiveCount(s, es[..|es| - 1]) + if Active(Exec(s, es[..|es| - 1]), es[|es| - 1]) then 1 else 0
  }

  ghost predicate ForcedAt(s: State, es: seq<Event>, i: nat)
    requires i < |es|
  {
    Forced(Exec(s, es[..i]), es[i])
  }

  lemma {:induction false} CountdownWithoutForce(s: State, es: seq<Event>)
    requires 0 <= s.forceUpdateCnt
    requires forall i :: 0 <= i < |es| ==> !ForcedAt(s, es, i)
    ensures 0 <= Exec(s, es).forceUpdateCnt
    ensures Exec(s, es).forceUpdateCnt + ActiveCount(s, es) <= s.forceUpdateCnt
  {
    if es != [] {
      var init := es[..|es| - 1];
      forall i | 0 <= i < |init| ensures !ForcedAt(s, init, i) {
        assert init[..i] == es[..i] && !ForcedAt(s, es, i);
      }
      CountdownWithoutForce(s, init);
      assert !ForcedAt(s, es, |es| - 1);
    }
  }

  /** Any stretch of a run with eleven active rounds pushes the whole inventory at least once. */
  lemma ForcedWithinEleven(s: State, es: seq<Event>)
    requires 0 <= s.forceUpdateCnt <= 10 && ActiveCount(s, es) >= 11
    ensures exists i :: 0 <= i < |es| && ForcedAt(s, es, i)
  {
    if forall i :: 0 <= i < |es| ==> !ForcedAt(s, es, i) {
      CountdownWithoutForce(s, es);
    }
  }

  ghost predicate OkAt(s: State, es: seq<Event>, i: nat)
    requires i < |es|
  {
    Active(Exec(s, es[..i]), es[i]) ==> RoundOk(Exec(s, es[..i]), es[i])
  }

  /**
   After a successful forced round the next forced one is exactly the eleventh: through ten
   successful active rounds the countdown falls by one each, from ten to zero.
   */
  lemma {:induction false} CountdownExactly(s: State, es: seq<Event>)
    requires s.forceUpdateCnt == 10 && ActiveCount(s, es) <= 10
    requires forall i :: 0 <= i < |es| ==> OkAt(s, es, i)
    ensures Exec(s, es).forceUpdateCnt == 10 - ActiveCount(s, es)
  {
    if es != [] {
      var init := es[..|es| - 1];
      forall i | 0 <= i < |init| ensures OkAt(s, init, i) {
        assert init[..i] == es[..i] && OkAt(s, es, i);
      }
      CountdownExactly(s, init);
      assert OkAt(s, es, |es| - 1);
    }
  }

  // ---------- Suspension ----------

  /** Everything the rounds of a run send, in order. */
  function AllSent(s: State, es: seq<Event>): seq<NodeInfo> {
    if es == [] then []
    else AllSent(s, es[..|es| - 1]) + RoundSent(Exec(s, es[..|es| - 1]), es[|es| - 1])
  }

  /**
   After a suspend request, until a resume: no round is active, nothing is sent, the
   countdown stands still, and only clearData can change cache and console-data.
   */
  lemma {:induction false} SuspendStopsRounds(s: State, es: seq<Event>)
    requires forall i :: 0 <= i < |es| ==> !es[i].Resume?
    ensures ActiveCount(Step(s, Suspend), es) == 0 && AllSent(Step(s, Suspend), es) == []
    ensures Exec(Step(s, Suspend), es).inShutdown && Exec(Step(s, Suspend), es).forceUpdateCnt == s.forceUpdateCnt
    ensures (forall i :: 0 <= i < |es| ==> !es[i].ClearData?) ==>
              Exec(Step(s, Suspend), es).cache == s.cache && Exec(Step(s, Suspend), es).store == s.store
  {
    if es != [] {
      var init := es[..|es| - 1];
      assert forall i :: 0 <= i < |init| ==> init[i] == es[i];
      SuspendStopsRounds(s, init);
    }
  }

  /** After a resume request, until the next suspend, every pass is an active round. */
  lemma {:induction false} ResumeRestartsRounds(s: State, es: seq<Event>, e: Event)
    requires e.Tick? && forall i :: 0 <= i < |es| ==> !es[i].Suspend?
    ensures Active(Exec(Step(s, Resume), es), e)
  {
    if es != [] {
      var init := es[..|es| - 1];
      assert forall i :: 0 <= i < |init| ==> init[i] == es[i];
      ResumeRestartsRounds(s, init, e);
    }
  }

  // ---------- Bounded staleness ----------

  /** The reports of the active rounds, oldest first; suspended passes fetch nothing. */
  function Reports(s: State, es: seq<Event>): seq<seq<NodeInfo>> {
    if es == [] then []
    else
      var init, e := es[..|es| - 1], es[|es| - 1];
      Reports(s, init) + if Active(Exec(s, init), e) then [e.hsm] else []
  }

  /** There was an active round, and the latest one succeeded. */
  predicate LastOk(s: State, es: seq<Event>) {
    es != [] &&
    var init, e := es[..|es| - 1], es[|es| - 1];
    if Active(Exec(s, init), e) then RoundOk(Exec(s, init), e) else LastOk(s, init)
  }

  ghost predicate ReportedWithin(reports: seq<seq<NodeInfo>>, window: int, n: NodeInfo) {
    exists j :: |reports| - window <= j < |reports| && 0 <= j && n in reports[j]
  }

  ghost predicate FreshWithin(s: State, reports: seq<seq<NodeInfo>>, window: int) {
    && window <= |reports|
    && (forall k :: k in s.cache ==>
          && k in s.store && s.store[k].nodeName == k
          && ReportedWithin(reports, window, s.store[k]))
  }

  lemma ForcedRoundIsFresh(s: State, e: Event, reports: seq<seq<NodeInfo>>)
    requires Forced(s, e) && Allowed(s, e) && RoundOk(s, e)
    ensures FreshWithin(Step(s, e), reports + [e.hsm], 1)
  {
    var t, rs := Step(s, e), reports + [e.hsm];
    ByNameIndexes(e.hsm);
    forall k | k in t.cache
      ensures k in t.store && t.store[k].nodeName == k && ReportedWithin(rs, 1, t.store[k])
    {
      assert k in e.afterPut && k !in GoneNames(s.cache, e.hsm);
      assert t.store[k] in rs[|rs| - 1];
    }
  }

  lemma PlainRoundStaysFresh(s: State, e: Event, reports: seq<seq<NodeInfo>>, window: int)
    requires Active(s, e) && s.forceUpdateCnt != 0 && Allowed(s, e) && RoundOk(s, e)
    requires FreshWithin(s, reports, window) && 0 <= window
    ensures FreshWithin(Step(s, e), reports + [e.hsm], window + 1)
  {
    var t, rs := Step(s, e), reports + [e.hsm];
    ByNameIndexes(e.hsm);
    NewNodesAre(s.cache, e.hsm);
    forall k | k in t.cache
      ensures k in t.store && t.store[k].nodeName == k && ReportedWithin(rs, window + 1, t.store[k])
    {
      assert k !in GoneNames(s.cache, e.hsm);
      var n :| n in e.hsm && n.nodeName == k;
      if k in s.cache {
        assert k !in Names(NewNodes(s.cache, e.hsm));
        assert t.store[k] == s.store[k];
        var j :| |reports| - window <= j < |reports| && 0 <= j && s.store[k] in reports[j];
        assert t.store[k] in rs[j];
      } else {
        assert n in NewNodes(s.cache, e.hsm);
        assert t.store[k] in rs[|rs| - 1];
      }
    }
  }

  lemma {:induction false} StalenessInvariant(s: State, es: seq<Event>)
    requires Init(s) && Legal(s, es)
    ensures 0 <= Exec(s, es).forceUpdateCnt <= 10
    ensures Exec(s, es).forceUpdateCnt > 0 ==> LastOk(s, es)
    ensures LastOk(s, es) ==>
              FreshWithin(Exec(s, es), Reports(s, es), 11 - Exec(s, es).forceUpdateCnt)
  {
    if es != [] {
      var init, e := es[..|es| - 1], es[|es| - 1];
      var p := Exec(s, init);
      StalenessInvariant(s, init);
      if Active(p, e) && RoundOk(p, e) {
        if p.forceUpdateCnt == 0 {
          ForcedRoundIsFresh(p, e, Reports(s, init));
        } else {
          PlainRoundStaysFresh(p, e, Reports(s, init), 11 - p.forceUpdateCnt);
        }
      } else if !Active(p, e) {
        assert Reports(s, es) == Reports(s, init);
      }
    }
  }

  /**
   Whenever the latest active round succeeded, the console-data record of every cached
   node is one that HSM reported for it in the last `11 - forceUpdateCnt` active rounds:
   at most eleven, and exactly the current report right after a forced round.
   */
  lemma BoundedStaleness(s: State, es: seq<Event>, k: string)
    requires Init(s) && Legal(s, es) && LastOk(s, es) && k in Exec(s, es).cache
    ensures 1 <= 11 - Exec(s, es).forceUpdateCnt <= 11
    ensures k in Exec(s, es).store && Exec(s, es).store[k].nodeName == k
    ensures ReportedWithin(Reports(s, es), 11 - Exec(s, es).forceUpdateCnt, Exec(s, es).store[k])
  {
    StalenessInvariant(s, es);
  }

  /**
   Why records grow stale: while no forced round happens, the console-data record of a
   cached node that stays reported never changes, however its reported record does.
   */
  lemma {:induction false} RecordIsFrozenUntilForced(s: State, es: seq<Event>, k: string)
    requires Legal(s, es) && Keyed(s.cache) && k in s.cache && k in s.store
    requires forall i :: 0 <= i < |es| ==> !ForcedAt(s, es, i) && !es[i].ClearData?
    requires forall i :: 0 <= i < |es| && es[i].Tick? ==> k in Names(es[i].hsm)
    ensures Keyed(Exec(s, es).cache) && k in Exec(s, es).cache && k in Exec(s, es).store
    ensures Exec(s, es).store[k] == s.store[k]
  {
    if es != [] {
      var init, e := es[..|es| - 1], es[|es| - 1];
      var p := Exec(s, init);
      forall i | 0 <= i < |init| ensures !ForcedAt(s, init, i) {
        assert init[..i] == es[..i] && !ForcedAt(s, es, i);
      }
      RecordIsFrozenUntilForced(s, init, k);
      assert !ForcedAt(s, es, |es| - 1);
      if Active(p, e) {
        ByNameIndexes(e.hsm);
        NewNodesAre(p.cache, e.hsm);
        assert k !in Names(NewNodes(p.cache, e.hsm)) && k !in GoneNames(p.cache, e.hsm);
        assert k in e.afterPut && e.afterPut[k] == p.store[k];
      }
    }
  }

  /** A forced round that reports `a`, then `m` rounds that report `b`; console-data keeps `a`. */
  function ChangedRecord(a: NodeInfo, b: NodeInfo, m: nat): seq<Event> {
    var held := map[a.nodeName := a];
    if m == 0 then [Tick([a], true, held, held)]
    else ChangedRecord(a, b, m - 1) + [Tick([b], true, held, held)]
  }

  function ChangedReports(a: NodeInfo, b: NodeInfo, m: nat): seq<seq<NodeInfo>> {
    if m == 0 then [[a]] else ChangedReports(a, b, m - 1) + [[b]]
  }

  lemma OneMoreRound(s: State, es: seq<Event>, e: Event)
    requires Legal(s, es) && Active(Exec(s, es), e) && Allowed(Exec(s, es), e) && RoundOk(Exec(s, es), e)
    ensures Legal(s, es + [e]) && LastOk(s, es + [e])
    ensures Exec(s, es + [e]) == Step(Exec(s, es), e) && Reports(s, es + [e]) == Reports(s, es) + [e.hsm]
  {
    assert (es + [e])[..|es|] == es;
  }

  lemma FirstRound(a: NodeInfo, held: Index)
    requires held == map[a.nodeName := a]
    ensures var s, e := State(map[], map[], 0, false), Tick([a], true, held, held);
            Allowed(s, e) && RoundOk(s, e) && Step(s, e) == State(held, held, 10, false)
  {
    assert ByName([a]) == held;
    assert Names([a]) == {a.nodeName} by { assert [a][0].nodeName in Names([a]); }
  }

  lemma QuietRound(s: State, b: NodeInfo, held: Index)
    requires !s.inShutdown && s.forceUpdateCnt > 0 && Keyed(s.cache)
    requires s.cache.Keys == {b.nodeName} && s.store == held
    ensures Allowed(s, Tick([b], true, held, held))
    ensures Step(s, Tick([b], true, held, held)) == State(map[b.nodeName := b], held, s.forceUpdateCnt - 1, false)
  {
    assert ByName([b]) == map[b.nodeName := b];
    assert NewNodes(s.cache, [b]) == [];
    assert GoneNames(s.cache, [b]) == {};
  }

  lemma {:induction false} ChangedRecordRun(a: NodeInfo, b: NodeInfo, m: nat)
    requires a.nodeName == b.nodeName && m <= 10
    ensures var s, es, held := State(map[], map[], 0, false), ChangedRecord(a, b, m), map[a.nodeName := a];
            && Legal(s, es) && LastOk(s, es)
            && Exec(s, es) == State(map[a.nodeName := if m == 0 then a else b], held, 10 - m, false)
            && Reports(s, es) == ChangedReports(a, b, m)
  {
    var s, held := State(map[], map[], 0, false), map[a.nodeName := a];
    if m == 0 {
      FirstRound(a, held);
      OneMoreRound(s, [], Tick([a], true, held, held));
      assert ChangedRecord(a, b, 0) == [] + [Tick([a], true, held, held)];
    } else {
      ChangedRecordRun(a, b, m - 1);
      QuietRound(Exec(s, ChangedRecord(a, b, m - 1)), b, held);
      OneMoreRound(s, ChangedRecord(a, b, m - 1), Tick([b], true, held, held));
    }
  }

  lemma {:induction false} ChangedReportsAre(a: NodeInfo, b: NodeInfo, m: nat)
    ensures |ChangedReports(a, b, m)| == m + 1 && ChangedReports(a, b, m)[0] == [a]
    ensures forall j :: 0 < j <= m ==> ChangedReports(a, b, m)[j] == [b]
  {
    if m > 0 { ChangedReportsAre(a, b, m - 1); }
  }

  /**
   The staleness bound is reached: in a run from startup with every request successful, a
   record can change in HSM and console-data still hold, after ten more active rounds, the
   one that was last reported eleven active rounds ago and in none of the ten since.
   */
  lemma StalenessBoundIsReached(a: NodeInfo, b: NodeInfo) returns (s: State, es: seq<Event>)
    requires a.nodeName == b.nodeName && a != b
    ensures Init(s) && Legal(s, es) && LastOk(s, es) && |Reports(s, es)| == 11
    ensures a.nodeName in Exec(s, es).cache && Exec(s, es).cache[a.nodeName] == b
    ensures Exec(s, es).store == map[a.nodeName := a]
    ensures ReportedWithin(Reports(s, es), 11, a) && !ReportedWithin(Reports(s, es), 10, a)
  {
    s, es := State(map[], map[], 0, false), ChangedRecord(a, b, 10);
    ChangedRecordRun(a, b, 10);
    ChangedReportsAre(a, b, 10);
    assert a in Reports(s, es)[0];
  }

  // ---------- Exact agreement ----------

  /** Deletes arrive, and a failed PUT has applied nothing. */
  ghost predicate Reliable(s: State, e: Event) {
    match e
    case Tick(hsm, ok, afterPut, afterDelete) =>
      s.inShutdown ||
      ((!RoundOk(s, e) ==> afterPut == s.store) && afterDelete == afterPut - GoneNames(s.cache, hsm))
    case ClearData(afterDelete) => afterDelete == s.store - RecordNames(s.cache)
    case _ => true
  }

  ghost predicate AlwaysReliable(s: State, es: seq<Event>) {
    forall i :: 0 <= i < |es| ==> ReliableAt(s, es, i)
  }

  ghost predicate ReliableAt(s: State, es: seq<Event>, i: nat)
    requires i < |es|
  {
    Reliable(Exec(s, es[..i]), es[i])
  }

  lemma NoStrayStep(s: State, e: Event, leftover: set<string>)
    requires Keyed(s.cache) && Allowed(s, e) && Reliable(s, e)
    requires s.store.Keys <= s.cache.Keys + leftover
    ensures Step(s, e).store.Keys <= Step(s, e).cache.Keys + leftover
  {
    if Active(s, e) {
      ByNameIndexes(e.hsm);
      NewNodesAre(s.cache, e.hsm);
      forall k | k in e.afterDelete && k !in leftover ensures k in Step(s, e).cache {
        if k in s.cache {
          assert k !in GoneNames(s.cache, e.hsm) ==> k in ByName(e.hsm);
        } else {
          assert k in Names(ToSend(s, e.hsm));
        }
      }
    }
  }

  /**
   With reliable requests console-data never holds a name that is neither cached nor left
   over from before the start, and holds exactly the cached names, plus leftovers, whenever
   no forced update is pending.
   */
  lemma {:induction false} NamesAgree(s: State, es: seq<Event>)
    requires Init(s) && Legal(s, es) && AlwaysReliable(s, es)
    ensures Exec(s, es).store.Keys <= Exec(s, es).cache.Keys + s.store.Keys
    ensures s.store == map[] && Exec(s, es).forceUpdateCnt != 0 ==>
              Exec(s, es).store.Keys == Exec(s, es).cache.Keys
  {
    CachedNamesArePresent(s, es);
    if es != [] {
      var init := es[..|es| - 1];
      forall i | 0 <= i < |init| ensures ReliableAt(s, init, i) {
        assert init[..i] == es[..i] && ReliableAt(s, es, i);
      }
      NamesAgree(s, init);
      CachedNamesArePresent(s, init);
      assert ReliableAt(s, es, |es| - 1);
      NoStrayStep(Exec(s, init), es[|es| - 1], s.store.Keys);
    }
  }

  /** A record whose name is neither cached nor reported again is out of the loop's reach. */
  lemma {:induction false} OrphanStays(s: State, es: seq<Event>, k: string)
    requires Keyed(s.cache) && k in s.store && k !in s.cache && Legal(s, es)
    requires forall i :: 0 <= i < |es| && es[i].Tick? ==> k !in Names(es[i].hsm)
    ensures Keyed(Exec(s, es).cache) && k !in Exec(s, es).cache
    ensures k in Exec(s, es).store && Exec(s, es).store[k] == s.store[k]
  {
    if es != [] {
      var init, e := es[..|es| - 1], es[|es| - 1];
      var p := Exec(s, init);
      OrphanStays(s, init, k);
      if Active(p, e) {
        ByNameIndexes(e.hsm);
        NewNodesAre(p.cache, e.hsm);
        assert k !in Names(ToSend(p, e.hsm)) && k !in GoneNames(p.cache, e.hsm);
        assert k in e.afterPut && e.afterPut[k] == p.store[k];
      }
    }
  }

  /**
   A delete lost in a successful round is never retried: as long as HSM does not report
   the node again, its record stays in console-data through every later round, clearData,
   suspension and forced update.
   */
  lemma LostDeleteIsNeverRetried(s: State, e: Event, es: seq<Event>, k: string)
    requires Keyed(s.cache) && Active(s, e) && RoundOk(s, e)
    requires k in s.cache && k !in Names(e.hsm) && k in e.afterDelete
    requires Legal(Step(s, e), es)
    requires forall i :: 0 <= i < |es| && es[i].Tick? ==> k !in Names(es[i].hsm)
    ensures k in Exec(Step(s, e), es).store && Exec(Step(s, e), es).store[k] == e.afterDelete[k]
  {
    ByNameIndexes(e.hsm);
    OrphanStays(Step(s, e), es, k);
  }

  /**
   A failed round is repeated: through whatever suspensions, suspended passes and clearData
   follow it, the next active round is a forced one that pushes its whole report, and unless
   the data was cleared it finds the same nodes new and sends the same deletes.
   */
  lemma FailedRoundIsRepeated(s: State, e: Event, es: seq<Event>, next: Event)
    requires Active(s, e) && !RoundOk(s, e) && ActiveCount(Step(s, e), es) == 0
    requires Active(Exec(Step(s, e), es), next)
    ensures Forced(Exec(Step(s, e), es), next) && ToSend(Exec(Step(s, e), es), next.hsm) == next.hsm
    ensures (forall i :: 0 <= i < |es| ==> !es[i].ClearData?) ==>
              && NewNodes(Exec(Step(s, e), es).cache, next.hsm) == NewNodes(s.cache, next.hsm)
              && GoneNames(Exec(Step(s, e), es).cache, next.hsm) == GoneNames(s.cache, next.hsm)
  {
    NothingActive(Step(s, e), es);
  }

  lemma {:induction false} NothingActive(s: State, es: seq<Event>)
    requires ActiveCount(s, es) == 0
    ensures Exec(s, es).forceUpdateCnt == s.forceUpdateCnt
    ensures (forall i :: 0 <= i < |es| ==> !es[i].ClearData?) ==> Exec(s, es).cache == s.cache
  {
    if es != [] {
      var init := es[..|es| - 1];
      NothingActive(s, init);
      assert forall i :: 0 <= i < |init| ==> init[i] == es[i];
    }
  }

  /**
   The pending forced update in the main invariant cannot be dropped: one failed round
   leaves a cached name without a record, because the delete goes out although the cache
   is not committed.
   */
  lemma FailedRoundCanHideANode(a: NodeInfo, b: NodeInfo) returns (s: State, es: seq<Event>)
    requires a.nodeName != b.nodeName
    ensures Init(s) && Legal(s, es)
    ensures Exec(s, es).forceUpdateCnt == 0 && a.nodeName in Exec(s, es).cache
    ensures Exec(s, es).store == map[]
  {
    s := State(map[], map[], 0, false);
    var held := map[a.nodeName := a];
    var e1, e2 := Tick([a], true, held, held), Tick([b], false, held, map[]);
    es := [e1, e2];
    assert ByName([a]) == map[a.nodeName := a];
    var s1 := Step(s, e1);
    assert Allowed(s, e1) && s1 == State(held, held, 10, false);
    assert ByName([b]) == map[b.nodeName := b];
    assert NewNodes(held, [b]) == [b];
    assert held[a.nodeName].nodeName !in ByName([b]) && a.nodeName in held;
    assert a.nodeName in GoneNames(held, [b]);
    assert Allowed(s1, e2);
    assert es[..|es| - 1] == [e1] && es[|es| - 1] == e2 && [e1][..0] == [];
    assert Exec(s, [e1]) == s1;
    assert Exec(s, es) == Step(Exec(s, [e1]), e2);
  }

  // ---------- Which nodes are queued for key deployment ----------

  /** The Mountain and Hill records of a list, in order. */
  function Mountains(nodes: seq<NodeInfo>): seq<NodeInfo> {
    if nodes == [] then []
    else
      var last := nodes[|nodes| - 1];
      Mountains(nodes[..|nodes| - 1]) + if last.IsMountain() then [last] else []
  }

  lemma {:induction false} MountainsAre(nodes: seq<NodeInfo>)
    ensures forall n :: n in Mountains(nodes) <==> n in nodes && (n.hwClass == "Mountain" || n.hwClass == "Hill")
  {
    if nodes != [] {
      MountainsAre(nodes[..|nodes| - 1]);
      assert nodes == nodes[..|nodes| - 1] + [nodes[|nodes| - 1]];
    }
  }

  lemma {:induction false} MountainsOccur(nodes: seq<NodeInfo>, n: NodeInfo)
    ensures multiset(Mountains(nodes))[n] == if n.IsMountain() then multiset(nodes)[n] else 0
  {
    if nodes != [] {
      MountainsOccur(nodes[..|nodes| - 1], n);
      assert nodes == nodes[..|nodes| - 1] + [nodes[|nodes| - 1]];
    }
  }

  ghost predicate MountainAt(nodes: seq<NodeInfo>, j: nat) {
    j < |nodes| && nodes[j].IsMountain()
  }

  lemma MountainAtOneMore(nodes: seq<NodeInfo>)
    requires nodes != []
    ensures var last := |nodes| - 1;
            forall j: nat :: MountainAt(nodes, j) <==> MountainAt(nodes[..last], j) || (j == last && MountainAt(nodes, last))
  {
  }

  lemma {:induction false} MountainsInOrder(nodes: seq<NodeInfo>) returns (ps: seq<nat>)
    ensures Picks(nodes, ps, Mountains(nodes))
    ensures forall j: nat :: j in ps <==> MountainAt(nodes, j)
  {
    if nodes == [] {
      ps := [];
    } else {
      var init, last := nodes[..|nodes| - 1], |nodes| - 1;
      var before := MountainsInOrder(init);
      ps := PickOrSkip(nodes, before, Mountains(init), MountainAt(nodes, last));
      MountainAtOneMore(nodes);
    }
  }

  /** What a round sends to the key-deployment channel, in order. */
  function RoundSent(s: State, e: Event): seq<NodeInfo> {
    if Active(s, e) && CountMountain(Step(s, e).cache) > 0
    then Mountains(NewNodes(s.cache, e.hsm)) else []
  }

  /** A node that enters the cache as Mountain or Hill is queued in that same round. */
  lemma EnteringMountainIsQueued(s: State, e: Event, k: string)
    requires k !in s.cache && k in Step(s, e).cache && Step(s, e).cache[k].IsMountain()
    ensures Step(s, e).cache[k] in RoundSent(s, e)
  {
    var cache := Step(s, e).cache;
    assert Active(s, e) && RoundOk(s, e);
    ByNameIndexes(e.hsm);
    NewNodesAre(s.cache, e.hsm);
    MountainsAre(NewNodes(s.cache, e.hsm));
    var counted := set x | x in cache && cache[x].CountsAsMountain();
    assert k in counted && CountMountain(cache) == |counted|;
  }

  /**
   Exactly what a round that commits its report queues, for reports without duplicate
   names: the Mountain and Hill nodes that were not cached. The gate on the mountain
   count never holds one back, and a node reclassified while cached is not queued.
   */
  lemma QueuedExactly(s: State, e: Event, n: NodeInfo)
    requires Active(s, e) && RoundOk(s, e) && UniqueNames(e.hsm)
    ensures n in RoundSent(s, e) <==>
              n in e.hsm && n.nodeName !in s.cache && (n.hwClass == "Mountain" || n.hwClass == "Hill")
  {
    ByNameIndexes(e.hsm);
    NewNodesAre(s.cache, e.hsm);
    MountainsAre(NewNodes(s.cache, e.hsm));
    if n in e.hsm && n.nodeName !in s.cache && n.IsMountain() {
      UniqueRecord(e.hsm, n, ByName(e.hsm)[n.nodeName]);
      EnteringMountainIsQueued(s, e, n.nodeName);
    }
  }

  /**
   Whatever a round sends, it sends in report order and from different positions of the
   report: those of uncached Mountain and Hill nodes.
   */
  lemma SentInReportOrder(s: State, e: Event) returns (ps: seq<nat>)
    requires Active(s, e)
    ensures Picks(e.hsm, ps, RoundSent(s, e))
    ensures forall j :: j in ps ==> NewAt(s.cache, e.hsm, j) && MountainAt(e.hsm, j)
  {
    ps := [];
    if CountMountain(Step(s, e).cache) > 0 {
      var news := NewNodes(s.cache, e.hsm);
      var ns := NewNodesInOrder(s.cache, e.hsm);
      var ms := MountainsInOrder(news);
      ps := PicksThrough(e.hsm, ns, news, ms, Mountains(news));
      forall j | j in ps ensures NewAt(s.cache, e.hsm, j) && MountainAt(e.hsm, j) {
        var q :| q in ms && ns[q] == j;
        assert ns[q] in ns && MountainAt(news, q) && news[q] == e.hsm[j];
      }
    }
  }

  /** With unique names, a round that commits its report sends each entering Mountain or Hill node exactly once. */
  lemma SentExactlyOnce(s: State, e: Event, n: NodeInfo)
    requires Active(s, e) && RoundOk(s, e) && UniqueNames(e.hsm)
    ensures multiset(RoundSent(s, e))[n] ==
            if n in e.hsm && n.nodeName !in s.cache && (n.hwClass == "Mountain" || n.hwClass == "Hill") then 1 else 0
  {
    QueuedExactly(s, e, n);
    NewNodesOccur(s.cache, e.hsm, n);
    MountainsOccur(NewNodes(s.cache, e.hsm), n);
    UniqueOnce(e.hsm, n);
  }

  /**
   Exactly what a failed round queues, although nothing was committed: the same nodes, but
   only if the old cache already holds a node of the mountain class.
   */
  lemma QueuedByFailureExactly(s: State, e: Event, n: NodeInfo)
    requires Active(s, e) && !RoundOk(s, e)
    ensures n in RoundSent(s, e) <==>
              && n in e.hsm && n.nodeName !in s.cache && (n.hwClass == "Mountain" || n.hwClass == "Hill")
              && exists k :: k in s.cache && s.cache[k].hwClass in {"Mountain", "Hill", "Paradise"}
  {
    NewNodesAre(s.cache, e.hsm);
    MountainsAre(NewNodes(s.cache, e.hsm));
    var counted := set k | k in s.cache && s.cache[k].CountsAsMountain();
    assert CountMountain(s.cache) == |counted|;
    if k :| k in s.cache && s.cache[k].hwClass in {"Mountain", "Hill", "Paradise"} {
      assert k in counted;
    } else {
      assert counted == {};
    }
  }

  /**
   Failure repeats the sending: until a round succeeds or the data is cleared, each failed
   round that reports the same sends the same nodes again.
   */
  lemma FailedRoundsResend(s: State, e: Event, es: seq<Event>, next: Event)
    requires Active(s, e) && !RoundOk(s, e)
    requires ActiveCount(Step(s, e), es) == 0 && (forall i :: 0 <= i < |es| ==> !es[i].ClearData?)
    requires Active(Exec(Step(s, e), es), next) && !RoundOk(Exec(Step(s, e), es), next) && next.hsm == e.hsm
    ensures RoundSent(Exec(Step(s, e), es), next) == RoundSent(s, e)
  {
    NothingActive(Step(s, e), es);
  }

  ghost predicate EntersAt(s: State, es: seq<Event>, k: string, i: nat)
    requires i < |es|
  {
    var p := Exec(s, es[..i]);
    && k !in p.cache && k in Step(p, es[i]).cache
    && (Step(p, es[i]).cache[k].IsMountain() ==> Step(p, es[i]).cache[k] in RoundSent(p, es[i]))
  }

  ghost predicate CachedSince(s: State, es: seq<Event>, k: string, i: nat) {
    forall j :: i < j <= |es| ==> k in Exec(s, es[..j]).cache
  }

  /**
   Over a whole run: every cached name entered the cache in some round, has stayed there
   since, and was queued in that round if its record was Mountain or Hill then.
   */
  lemma {:induction false} CachedMountainWasQueued(s: State, es: seq<Event>, k: string)
    requires Init(s) && k in Exec(s, es).cache
    ensures exists i: nat :: i < |es| && EntersAt(s, es, k, i) && CachedSince(s, es, k, i)
  {
    var init, e := es[..|es| - 1], es[|es| - 1];
    var p := Exec(s, init);
    if k in p.cache {
      CachedMountainWasQueued(s, init, k);
      var i: nat :| i < |init| && EntersAt(s, init, k, i) && CachedSince(s, init, k, i);
      assert init[..i] == es[..i] && EntersAt(s, es, k, i);
      forall j | i < j <= |es| ensures k in Exec(s, es[..j]).cache {
        assert if j == |es| then es[..j] == es else init[..j] == es[..j];
      }
      assert CachedSince(s, es, k, i);
    } else {
      if Step(p, e).cache[k].IsMountain() { EnteringMountainIsQueued(p, e, k); }
      assert EntersAt(s, es, k, |es| - 1);
      assert es[..|es|] == es;
      assert CachedSince(s, es, k, |es| - 1);
    }
  }
}
