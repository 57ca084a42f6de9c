/**
 The same loop at the granularity at which it really interleaves with clearData handlers:
 nothing locks nodeCache, so a handler may run between any two steps of a round, and
 several handlers may be in progress at once.
 */
module Interleaving {
  import opened Inventory
  import opened Reconcile
  import opened ReconcileRuns

  /** Where the loop is in its round; the countdown is local to the loop and fixed meanwhile. */
  datatype LoopPc =
    | Sleeping
    | Scanning(hsm: seq<NodeInfo>, i: nat, found: seq<NodeInfo>)
    | Scanned(hsm: seq<NodeInfo>, found: seq<NodeInfo>, gone: set<string>)
    | PutDone(hsm: seq<NodeInfo>, found: seq<NodeInfo>, gone: set<string>, ok: bool)
    | DeleteDone(hsm: seq<NodeInfo>, found: seq<NodeInfo>, ok: bool)
    | Committed(found: seq<NodeInfo>, ok: bool)

  /** Where a clearData handler is: its list is copied, then the cache is replaced, then the delete goes out. */
  datatype ClearPc = Copied(names: set<string>) | Wiped(names: set<string>)

  /** `sent` is everything sent to the key-deployment channel so far. */
  datatype State = State(
    cache: Index,
    store: Index,
    forceUpdateCnt: int,
    inShutdown: bool,
    pc: LoopPc,
    clears: seq<ClearPc>,
    sent: seq<NodeInfo>)

  datatype Event =
    | Fetch(hsm: seq<NodeInfo>)
    | ScanOne
    | ScanGone
    | DoPut(ok: bool, after: Index)
    | DoDelete(after: Index)
    | Commit
    | Finish
    | ClearCopy
    | ClearWipe(h: nat)
    | ClearDelete(h: nat, after: Index)
    | Suspend
    | Resume

  function ToPut(s: State): seq<NodeInfo>
    requires s.pc.Scanned?
  {
    if s.forceUpdateCnt == 0 then s.pc.hsm else s.pc.found
  }

  ghost predicate Allowed(s: State, e: Event) {
    match e
    case Fetch(hsm) => s.pc.Sleeping? && !s.inShutdown
    case ScanOne => s.pc.Scanning? && s.pc.i < |s.pc.hsm|
    case ScanGone => s.pc.Scanning? && s.pc.i == |s.pc.hsm|
    case DoPut(ok, after) =>
      s.pc.Scanned? && (ToPut(s) == [] ==> ok) && PutOutcome(s.store, ToPut(s), ok, after)
    case DoDelete(after) => s.pc.PutDone? && DeletePartial(s.store, s.pc.gone, after)
    case Commit => s.pc.DeleteDone?
    case Finish => s.pc.Committed?
    case ClearCopy => true
    case ClearWipe(h) => h < |s.clears| && s.clears[h].Copied?
    case ClearDelete(h, after) =>
      h < |s.clears| && s.clears[h].Wiped? && DeletePartial(s.store, s.clears[h].names, after)
    case Suspend => true
    case Resume => true
  }

  /** What is sent once the classes in the cache are counted. */
  function ToQueue(cache: Index, found: seq<NodeInfo>): seq<NodeInfo> {
    if CountMountain(cache) > 0 then Mountains(found) else []
  }

  function Step(s: State, e: Event): State
    requires Allowed(s, e)
  {
    match e
    case Fetch(hsm) => s.(pc := Scanning(hsm, 0, []))
    case ScanOne =>
      var n := s.pc.hsm[s.pc.i];
      s.(pc := Scanning(s.pc.hsm, s.pc.i + 1, s.pc.found + if n.nodeName in s.cache then [] else [n]))
    case ScanGone => s.(pc := Scanned(s.pc.hsm, s.pc.found, GoneNames(s.cache, s.pc.hsm)))
    case DoPut(ok, after) => s.(store := after, pc := PutDone(s.pc.hsm, s.pc.found, s.pc.gone, ok))
    case DoDelete(after) => s.(store := after, pc := DeleteDone(s.pc.hsm, s.pc.found, s.pc.ok))
    case Commit =>
      s.(cache := if s.pc.ok then ByName(s.pc.hsm) else s.cache, pc := Committed(s.pc.found, s.pc.ok))
    case Finish =>
      s.(sent := s.sent + ToQueue(s.cache, s.pc.found), forceUpdateCnt := NextCount(s.forceUpdateCnt, s.pc.ok),
         pc := Sleeping)
    case ClearCopy => s.(clears := s.clears + [Copied(RecordNames(s.cache))])
    case ClearWipe(h) => s.(cache := map[], clears := s.clears[h := Wiped(s.clears[h].names)])
    case ClearDelete(h, after) => s.(store := after, clears := s.clears[..h] + s.clears[h + 1..])
    case Suspend => s.(inShutdown := true)
    case Resume => s.(inShutdown := false)
  }

  ghost predicate Follows(s: State, e: Event, t: State) {
    Allowed(s, e) && t == Step(s, e)
  }

  /** A run as the states it passes through: `ss[i + 1]` follows `ss[i]` by event `es[i]`. */
  ghost predicate Run(ss: seq<State>, es: seq<Event>) {
    && |ss| == |es| + 1
    && (forall i :: 0 <= i < |es| ==> Follows(ss[i], es[i], ss[i + 1]))
  }

  /** The operator has just started; console-data may hold anything. */
  ghost predicate Startup(s: State) {
    s.cache == map[] && s.forceUpdateCnt == 0 && !s.inShutdown && s.pc.Sleeping? && s.clears == [] && s.sent == []
  }

  // ---------- Uninterrupted, the steps compose to the atomic events ----------

  ghost function Atomic(s: State): Reconcile.State {
    Reconcile.State(s.cache, s.store, s.forceUpdateCnt, s.inShutdown)
  }

  /** Scanning node by node against an unchanging cache finds exactly the new nodes. */
  lemma {:induction false} ScanFindsNewNodes(ss: seq<State>, es: seq<Event>, hsm: seq<NodeInfo>)
    requires Run(ss, es) && |es| <= |hsm| && (forall i :: 0 <= i < |es| ==> es[i] == ScanOne)
    requires ss[0].pc == Scanning(hsm, 0, [])
    ensures ss[|es|] == ss[0].(pc := Scanning(hsm, |es|, NewNodes(ss[0].cache, hsm[..|es|])))
  {
    var n := |es|;
    if n > 0 {
      ScanFindsNewNodes(ss[..n], es[..n - 1], hsm);
      assert hsm[..n][..n - 1] == hsm[..n - 1];
      assert Follows(ss[n - 1], es[n - 1], ss[n]);
    }
  }

  lemma GoneStep(s: State, hsm: seq<NodeInfo>, found: seq<NodeInfo>, t: State)
    requires Follows(s.(pc := Scanning(hsm, |hsm|, found)), ScanGone, t)
    ensures t == s.(pc := Scanned(hsm, found, GoneNames(s.cache, hsm)))
  {
  }

  lemma RequestSteps(s: State, ok: bool, afterPut: Index, s3: State, afterDelete: Index, s4: State)
    requires s.pc.Scanned? && Follows(s, DoPut(ok, afterPut), s3) && Follows(s3, DoDelete(afterDelete), s4)
    ensures (ToPut(s) == [] ==> ok) && PutOutcome(s.store, ToPut(s), ok, afterPut)
    ensures DeletePartial(afterPut, s.pc.gone, afterDelete)
    ensures s4 == s.(store := afterDelete, pc := DeleteDone(s.pc.hsm, s.pc.found, ok))
  {
  }

  lemma ClosingSteps(s: State, s5: State, s6: State)
    requires s.pc.DeleteDone? && Follows(s, Commit, s5) && Follows(s5, Finish, s6)
    ensures var cache := if s.pc.ok then ByName(s.pc.hsm) else s.cache;
            s6 == s.(cache := cache, sent := s.sent + ToQueue(cache, s.pc.found),
                     forceUpdateCnt := NextCount(s.forceUpdateCnt, s.pc.ok), pc := Sleeping)
  {
  }

  lemma PartOfRun(ss: seq<State>, es: seq<Event>, a: nat, b: nat)
    requires Run(ss, es) && a <= b <= |es|
    ensures Run(ss[a..b + 1], es[a..b])
  {
    var states, events := ss[a..b + 1], es[a..b];
    forall i | 0 <= i < |events| ensures Follows(states[i], events[i], states[i + 1]) {
      assert Follows(ss[a + i], es[a + i], ss[a + i + 1]);
    }
  }

  lemma FetchAndScan(ss: seq<State>, es: seq<Event>, hsm: seq<NodeInfo>)
    requires Run(ss, es) && |es| > |hsm| && es[0] == Fetch(hsm)
    requires forall i :: 1 <= i <= |hsm| ==> es[i] == ScanOne
    ensures ss[|hsm| + 1] == ss[0].(pc := Scanning(hsm, |hsm|, NewNodes(ss[0].cache, hsm)))
  {
    var m := |hsm|;
    var scan, states := es[1..m + 1], ss[1..m + 2];
    PartOfRun(ss, es, 1, m + 1);
    assert Follows(ss[0], es[0], ss[1]);
    ScanFindsNewNodes(states, scan, hsm);
    assert hsm[..m] == hsm;
  }

  /** A round nothing interferes with is exactly one active Tick of the atomic system, sends included. */
  lemma UninterruptedRoundIsATick(ss: seq<State>, es: seq<Event>, hsm: seq<NodeInfo>)
    requires Run(ss, es) && |es| == |hsm| + 6 && es[0] == Fetch(hsm)
    requires forall i :: 1 <= i <= |hsm| ==> es[i] == ScanOne
    requires es[|hsm| + 1].ScanGone? && es[|hsm| + 2].DoPut? && es[|hsm| + 3].DoDelete?
    requires es[|hsm| + 4].Commit? && es[|hsm| + 5].Finish?
    ensures var e := Tick(hsm, es[|hsm| + 2].ok, es[|hsm| + 2].after, es[|hsm| + 3].after);
            && Reconcile.Allowed(Atomic(ss[0]), e)
            && Atomic(ss[|es|]) == Reconcile.Step(Atomic(ss[0]), e)
            && ss[|es|].sent == ss[0].sent + RoundSent(Atomic(ss[0]), e)
            && ss[|es|].pc.Sleeping?
  {
    var m := |hsm|;
    FetchAndScan(ss, es, hsm);
    assert Follows(ss[0], es[0], ss[1]);
    assert Follows(ss[m + 1], es[m + 1], ss[m + 2]) && Follows(ss[m + 2], es[m + 2], ss[m + 3]);
    assert Follows(ss[m + 3], es[m + 3], ss[m + 4]) && Follows(ss[m + 4], es[m + 4], ss[m + 5]);
    assert Follows(ss[m + 5], es[m + 5], ss[m + 6]);
    GoneStep(ss[0], hsm, NewNodes(ss[0].cache, hsm), ss[m + 2]);
    RequestSteps(ss[m + 2], es[m + 2].ok, es[m + 2].after, ss[m + 3], es[m + 3].after, ss[m + 4]);
    ClosingSteps(ss[m + 4], ss[m + 5], ss[m + 6]);
    assert ToPut(ss[m + 2]) == ToSend(Atomic(ss[0]), hsm);
  }

  /** A clearData handler nothing interferes with is exactly one atomic ClearData. */
  lemma UninterruptedClearIsAtomic(ss: seq<State>, es: seq<Event>, h: nat, after: Index)
    requires Run(ss, es) && es == [ClearCopy, ClearWipe(h), ClearDelete(h, after)] && h == |ss[0].clears|
    ensures Reconcile.Allowed(Atomic(ss[0]), ClearData(after))
    ensures Atomic(ss[3]) == Reconcile.Step(Atomic(ss[0]), ClearData(after))
    ensures ss[3].pc == ss[0].pc && ss[3].clears == ss[0].clears && ss[3].sent == ss[0].sent
  {
    assert Follows(ss[0], es[0], ss[1]) && Follows(ss[1], es[1], ss[2]) && Follows(ss[2], es[2], ss[3]);
    assert ss[2].clears == ss[0].clears + [Wiped(RecordNames(ss[0].cache))];
    assert ss[3].clears == ss[0].clears;
  }

  // ---------- Suspension ----------

  /** While suspended the round in progress goes on, but no new one starts. */
  lemma {:induction false} NoFetchWhileSuspended(ss: seq<State>, es: seq<Event>)
    requires Run(ss, es) && es != [] && es[0].Suspend? && (forall i :: 0 <= i < |es| ==> !es[i].Resume?)
    ensures ss[|es|].inShutdown && (forall hsm :: !Allowed(ss[|es|], Fetch(hsm)))
    ensures forall i :: 0 <= i < |es| ==> !es[i].Fetch?
  {
    var n := |es|;
    assert Follows(ss[n - 1], es[n - 1], ss[n]);
    if n > 1 {
      var before := es[..n - 1];
      NoFetchWhileSuspended(ss[..n], before);
      assert forall i :: 0 <= i < |before| ==> before[i] == es[i];
    }
  }

  /** After a resume, until the next suspend, the loop at rest can start a round. */
  lemma {:induction false} FetchAfterResume(ss: seq<State>, es: seq<Event>, hsm: seq<NodeInfo>)
    requires Run(ss, es) && es != [] && es[0].Resume? && (forall i :: 0 <= i < |es| ==> !es[i].Suspend?)
    ensures !ss[|es|].inShutdown && (ss[|es|].pc.Sleeping? ==> Allowed(ss[|es|], Fetch(hsm)))
  {
    var n := |es|;
    assert Follows(ss[n - 1], es[n - 1], ss[n]);
    if n > 1 {
      FetchAfterResume(ss[..n], es[..n - 1], hsm);
    }
  }

  // ---------- When interleaving keeps the atomic invariant ----------

  /** The reported names that the scan has yet to come to and will find new. */
  function StillToFind(cache: Index, hsm: seq<NodeInfo>, i: nat): set<string> {
    set j | i <= j < |hsm| && hsm[j].nodeName !in cache :: hsm[j].nodeName
  }

  /** The names that will be cached when the loop next rests and that the round will not push any more. */
  function Needed(s: State): set<string> {
    match s.pc
    case Sleeping => s.cache.Keys
    case Scanning(hsm, i, found) =>
      if s.forceUpdateCnt == 0 then {} else Names(hsm) - Names(found) - StillToFind(s.cache, hsm, i)
    case Scanned(hsm, found, gone) => if s.forceUpdateCnt == 0 then {} else Names(hsm) - Names(found)
    case PutDone(hsm, found, gone, ok) => if ok then Names(hsm) else {}
    case DeleteDone(hsm, found, ok) => if ok then Names(hsm) else {}
    case Committed(found, ok) => if ok then s.cache.Keys else {}
  }

  /** When the loop next rests a forced update is pending in any case. */
  predicate ForceDue(s: State) {
    s.forceUpdateCnt == if s.pc.Sleeping? then 0 else 1
  }

  /** The names that must not disappear from console-data now. */
  function Relied(s: State): set<string> {
    if ForceDue(s) then {} else Needed(s)
  }

  /** The round's delete spares every reported name. */
  ghost predicate SparesReport(s: State) {
    s.pc.Scanned? || s.pc.PutDone? ==> s.pc.gone !! Names(s.pc.hsm)
  }

  /** Holds in every run from startup, whatever the handlers do. */
  ghost predicate WellFormed(s: State) {
    && Keyed(s.cache) && 0 <= s.forceUpdateCnt <= 10 && SparesReport(s)
    && (s.pc.Scanning? ==> s.pc.i <= |s.pc.hsm|)
  }

  ghost predicate LoopInv(s: State) {
    WellFormed(s) && Relied(s) <= s.store.Keys
  }

  lemma WellFormedStep(s: State, e: Event)
    requires WellFormed(s) && Allowed(s, e)
    ensures WellFormed(Step(s, e))
  {
    match e
    case ScanGone => ByNameIndexes(s.pc.hsm);
    case Commit => ByNameIndexes(s.pc.hsm);
    case _ =>
  }

  lemma {:induction false} WellFormedRuns(ss: seq<State>, es: seq<Event>)
    requires Run(ss, es) && Startup(ss[0])
    ensures WellFormed(ss[|es|])
  {
    var n := |es|;
    if n > 0 {
      WellFormedRuns(ss[..n], es[..n - 1]);
      assert Follows(ss[n - 1], es[n - 1], ss[n]);
      WellFormedStep(ss[n - 1], es[n - 1]);
    }
  }

  /** Looking at one more node does not change what the round will have pushed. */
  lemma ScanOneNeeds(s: State)
    requires Allowed(s, ScanOne)
    ensures Needed(Step(s, ScanOne)) == Needed(s)
  {
    var t, n := Step(s, ScanOne), s.pc.hsm[s.pc.i];
    var ahead, ahead' := StillToFind(s.cache, s.pc.hsm, s.pc.i), StillToFind(s.cache, s.pc.hsm, s.pc.i + 1);
    if n.nodeName in s.cache {
      assert t.pc.found == s.pc.found && ahead == ahead';
    } else {
      assert Names(t.pc.found) == Names(s.pc.found) + {n.nodeName};
      assert ahead == ahead' + {n.nodeName};
    }
  }

  /**
   No step but a handler's delete makes a needed name absent, up to the end of a round that
   succeeds; wipes only ever reduce what is needed.
   */
  lemma NeededStep(s: State, e: Event)
    requires SparesReport(s) && Allowed(s, e) && Needed(s) <= s.store.Keys
    requires (e.Finish? ==> s.pc.ok) && (e.ClearDelete? ==> s.clears[e.h].names !! Needed(s))
    ensures Needed(Step(s, e)) <= Step(s, e).store.Keys
  {
    match e
    case ScanOne => ScanOneNeeds(s);
    case Commit => ByNameIndexes(s.pc.hsm);
    case ClearWipe(h) =>
      if s.pc.Scanning? {
        assert StillToFind(s.cache, s.pc.hsm, s.pc.i) <= StillToFind(map[], s.pc.hsm, s.pc.i);
      }
    case Fetch(hsm) =>
      forall k | k in Needed(Step(s, e)) ensures k in s.cache {
        assert k !in StillToFind(s.cache, hsm, 0);
        var j :| 0 <= j < |hsm| && hsm[j].nodeName == k;
      }
    case _ =>
  }

  /** The handler's names are none that the loop relies on; every other event is free. */
  ghost predicate Guarded(s: State, e: Event) {
    e.ClearDelete? && e.h < |s.clears| ==> s.clears[e.h].names !! Relied(s)
  }

  lemma GuardedStep(s: State, e: Event)
    requires LoopInv(s) && Allowed(s, e) && Guarded(s, e)
    ensures LoopInv(Step(s, e))
  {
    WellFormedStep(s, e);
    if !ForceDue(s) && (e.Finish? ==> s.pc.ok) { NeededStep(s, e); }
  }

  /**
   With wipes and copies anywhere, any number of handlers, PUTs failing half-way and deletes
   lost: as long as no handler deletes a name the loop relies on, the invariant of the atomic
   system holds whenever the loop rests.
   */
  lemma {:induction false} GuardedRunsKeepTheInvariant(ss: seq<State>, es: seq<Event>)
    requires Run(ss, es) && LoopInv(ss[0]) && (forall i :: 0 <= i < |es| ==> Guarded(ss[i], es[i]))
    ensures LoopInv(ss[|es|])
    ensures ss[|es|].pc.Sleeping? ==> Inv(Atomic(ss[|es|]))
  {
    var n := |es|;
    if n > 0 {
      GuardedRunsKeepTheInvariant(ss[..n], es[..n - 1]);
      assert Follows(ss[n - 1], es[n - 1], ss[n]) && Guarded(ss[n - 1], es[n - 1]);
      GuardedStep(ss[n - 1], es[n - 1]);
    }
  }

  // ---------- Which deletes do damage, exactly ----------

  ghost predicate NoDeletes(es: seq<Event>) {
    forall i :: 0 <= i < |es| ==> !es[i].ClearDelete?
  }

  /** State `t` can come after `s` without any further delete by a handler. */
  ghost predicate Continues(s: State, t: State) {
    exists ss: seq<State>, es: seq<Event> :: Run(ss, es) && NoDeletes(es) && ss[0] == s && ss[|es|] == t
  }

  /** However the loop goes on, it rests with the atomic invariant until a handler deletes again. */
  ghost predicate Harmless(s: State) {
    forall t :: Continues(s, t) && t.pc.Sleeping? ==> Inv(Atomic(t))
  }

  lemma ContinuesBy(s: State, e: Event, t: State, u: State)
    requires Follows(s, e, t) && !e.ClearDelete? && Continues(t, u)
    ensures Continues(s, u)
  {
    var ts: seq<State>, fs: seq<Event> :| Run(ts, fs) && NoDeletes(fs) && ts[0] == t && ts[|fs|] == u;
    var ss, es := [s] + ts, [e] + fs;
    forall i | 0 <= i < |es| ensures Follows(ss[i], es[i], ss[i + 1]) && !es[i].ClearDelete? {
      if i > 0 { assert Follows(ts[i - 1], fs[i - 1], ts[i]) && !fs[i - 1].ClearDelete?; }
    }
    assert Run(ss, es) && NoDeletes(es);
  }

  /** A needed name is absent. */
  ghost predicate Missing(s: State, k: string) {
    k in Needed(s) && k !in s.store
  }

  /** What console-data holds after a PUT that succeeds. */
  function Upserted(store: Index, nodes: seq<NodeInfo>): Index {
    store + ByName(nodes)
  }

  lemma UpsertIsAPut(store: Index, nodes: seq<NodeInfo>)
    ensures PutOutcome(store, nodes, true, Upserted(store, nodes))
  {
    ByNameIndexes(nodes);
  }

  /** The rest of a round in which nothing interferes and every PUT succeeds. */
  function NextEvent(s: State): Event
    requires !s.pc.Sleeping?
  {
    match s.pc
    case Scanning(hsm, i, found) => if i < |hsm| then ScanOne else ScanGone
    case Scanned(_, _, _) => DoPut(true, Upserted(s.store, ToPut(s)))
    case PutDone(_, _, _, _) => DoDelete(s.store)
    case DeleteDone(_, _, _) => Commit
    case Committed(_, _) => Finish
  }

  function StepsLeft(s: State): nat {
    match s.pc
    case Sleeping => 0
    case Scanning(hsm, i, found) => 5 + if i < |hsm| then |hsm| - i else 0
    case Scanned(_, _, _) => 4
    case PutDone(_, _, _, _) => 3
    case DeleteDone(_, _, _) => 2
    case Committed(_, _) => 1
  }

  /** No step of the loop pushes a needed name that is absent. */
  lemma MissingStep(s: State, e: Event, k: string)
    requires Allowed(s, e) && Missing(s, k)
    requires !e.ClearWipe? && (e.DoPut? ==> e.ok)
    requires e.Fetch? ==> s.forceUpdateCnt != 0 && k in Names(e.hsm)
    ensures Missing(Step(s, e), k)
  {
    match e
    case ScanOne => ScanOneNeeds(s);
    case Commit => ByNameIndexes(s.pc.hsm);
    case _ =>
  }

  /** A needed name that is absent comes to rest cached, absent, and with no forced update pending. */
  lemma {:induction false} DamageSurfaces(s: State, k: string) returns (u: State)
    requires WellFormed(s) && Missing(s, k) && !ForceDue(s)
    ensures Continues(s, u) && u.pc.Sleeping? && !Inv(Atomic(u))
    decreases StepsLeft(s)
  {
    if s.pc.Sleeping? {
      u := s;
      assert Run([s], []) && NoDeletes([]);
    } else {
      var e := NextEvent(s);
      if s.pc.Scanned? { UpsertIsAPut(s.store, ToPut(s)); }
      var t := Step(s, e);
      MissingStep(s, e, k);
      WellFormedStep(s, e);
      u := DamageSurfaces(t, k);
      ContinuesBy(s, e, t, u);
    }
  }

  /**
   The names relied on are exactly the right ones: from a state of any run, at any point of
   a round, all continuations without further deletes come to rest with the atomic invariant
   if and only if every name relied on is in console-data.
   */
  lemma ReliedExactly(s: State)
    requires WellFormed(s)
    ensures Harmless(s) <==> Relied(s) <= s.store.Keys
  {
    if Relied(s) <= s.store.Keys {
      forall t | Continues(s, t) && t.pc.Sleeping? ensures Inv(Atomic(t)) {
        var ss: seq<State>, es: seq<Event> :| Run(ss, es) && NoDeletes(es) && ss[0] == s && ss[|es|] == t;
        assert forall i :: 0 <= i < |es| ==> Guarded(ss[i], es[i]);
        GuardedRunsKeepTheInvariant(ss, es);
      }
    } else {
      var k :| k in Relied(s) && k !in s.store;
      var u := DamageSurfaces(s, k);
    }
  }

  /**
   Exactly which deletes do damage, wherever they fall: every outcome of a handler's delete
   is harmless, now and at every later rest point, if and only if the handler copied no name
   that the loop relies on.
   */
  lemma DeleteIsHarmlessExactly(s: State, h: nat)
    requires LoopInv(s) && h < |s.clears| && s.clears[h].Wiped?
    ensures (forall after :: Allowed(s, ClearDelete(h, after)) ==> Harmless(Step(s, ClearDelete(h, after))))
            <==> s.clears[h].names !! Relied(s)
  {
    var names := s.clears[h].names;
    if names !! Relied(s) {
      forall after | Allowed(s, ClearDelete(h, after)) ensures Harmless(Step(s, ClearDelete(h, after))) {
        GuardedStep(s, ClearDelete(h, after));
        ReliedExactly(Step(s, ClearDelete(h, after)));
      }
    } else {
      var k :| k in names && k in Relied(s);
      var e := ClearDelete(h, s.store - names);
      assert Allowed(s, e) && k in Relied(Step(s, e)) && k !in Step(s, e).store;
      ReliedExactly(Step(s, e));
    }
  }

  // ---------- Runs in which no handler overlaps a round ----------

  ghost predicate NoneWiped(s: State) {
    forall h :: 0 <= h < |s.clears| ==> s.clears[h].Copied?
  }

  /**
   No round starts between a handler's wipe and its delete, and neither of the two falls
   into a round. Copies may be taken at any time, by any number of handlers.
   */
  ghost predicate OrderlyEvent(s: State, e: Event) {
    && (e.Fetch? ==> NoneWiped(s))
    && (e.ClearWipe? || e.ClearDelete? ==> s.pc.Sleeping?)
  }

  /** Between a wipe and its delete the loop rests over an empty cache: nothing is relied on. */
  lemma {:induction false} OrderlyRunsAreGuarded(ss: seq<State>, es: seq<Event>)
    requires Run(ss, es) && (forall i :: 0 <= i < |es| ==> OrderlyEvent(ss[i], es[i]))
    requires ss[0].pc.Sleeping? && NoneWiped(ss[0])
    ensures forall i :: 0 <= i < |es| ==> Guarded(ss[i], es[i])
    ensures NoneWiped(ss[|es|]) || (ss[|es|].pc.Sleeping? && ss[|es|].cache == map[])
  {
    var n := |es|;
    if n > 0 {
      OrderlyRunsAreGuarded(ss[..n], es[..n - 1]);
      var p, e := ss[n - 1], es[n - 1];
      assert Follows(p, e, ss[n]) && OrderlyEvent(p, e);
      assert Guarded(p, e);
      forall i | 0 <= i < n ensures Guarded(ss[i], es[i]) {
        if i < n - 1 { assert Guarded(ss[..n][i], es[..n - 1][i]); }
      }
    }
  }

  // ---------- Self-stabilisation ----------

  /** No clearData is in progress; everything else, including a half-done round, is arbitrary. */
  ghost predicate Quiet(s: State) {
    && s.clears == []
    && 0 <= s.forceUpdateCnt <= 10
    && (s.pc.Scanning? ==> s.pc.i <= |s.pc.hsm|)
  }

  ghost predicate CalmEvent(e: Event) {
    !e.ClearCopy? && (e.DoPut? ==> e.ok)
  }

  /** No further clearData request arrives and every PUT succeeds. */
  ghost predicate Calm(es: seq<Event>) {
    forall i :: 0 <= i < |es| ==> CalmEvent(es[i])
  }

  /** How many active rounds start in a run. */
  function Fetches(es: seq<Event>): nat {
    if es == [] then 0
    else Fetches(es[..|es| - 1]) + if es[|es| - 1].Fetch? then 1 else 0
  }

  /** What the round needs is present, and no PUT of it has failed. */
  ghost predicate Good(s: State) {
    && Needed(s) <= s.store.Keys
    && SparesReport(s)
    && (s.pc.PutDone? || s.pc.DeleteDone? || s.pc.Committed? ==> s.pc.ok)
  }

  lemma GoodStep(s: State, e: Event)
    requires Quiet(s) && Allowed(s, e) && CalmEvent(e) && Good(s)
    ensures Good(Step(s, e))
  {
    NeededStep(s, e);
    if e.ScanGone? { ByNameIndexes(s.pc.hsm); }
  }

  /** Upper bound on the rounds that still have to start before a forced one does. */
  function Wait(s: State): int {
    if s.pc.Sleeping? then s.forceUpdateCnt + 1
    else if s.forceUpdateCnt == 0 then 11 else s.forceUpdateCnt
  }

  lemma WaitStep(s: State, e: Event)
    requires Quiet(s) && Allowed(s, e) && CalmEvent(e)
    ensures Quiet(Step(s, e)) && 1 <= Wait(Step(s, e)) <= 11
    ensures (e.Fetch? && s.forceUpdateCnt == 0) ||
            Wait(Step(s, e)) + (if e.Fetch? then 1 else 0) <= Wait(s)
  {
  }

  lemma {:induction false} GoodOrWaiting(ss: seq<State>, es: seq<Event>)
    requires Run(ss, es) && Calm(es) && Quiet(ss[0])
    ensures Quiet(ss[|es|])
    ensures Good(ss[|es|]) || 1 <= Wait(ss[|es|]) <= 11 - Fetches(es)
  {
    var n := |es|;
    if n > 0 {
      GoodOrWaiting(ss[..n], es[..n - 1]);
      var p, e := ss[n - 1], es[n - 1];
      assert Follows(p, e, ss[n]) && CalmEvent(e);
      WaitStep(p, e);
      if Good(p) { GoodStep(p, e); }
    }
  }

  /**
   From whatever cache, store and half-finished round any interleaving left behind: once
   no clearData is in progress and PUTs succeed, after eleven further active rounds have
   started every cached name is present in console-data at every rest point of the loop.
   */
  lemma StabilisesWithinEleven(ss: seq<State>, es: seq<Event>)
    requires Run(ss, es) && Calm(es) && Quiet(ss[0])
    requires Fetches(es) >= 11 && ss[|es|].pc.Sleeping?
    ensures ss[|es|].cache.Keys <= ss[|es|].store.Keys
  {
    GoodOrWaiting(ss, es);
  }

  // ---------- Records, not only names, agree after the forced round ----------

  ghost predicate SameRecords(s: State) {
    forall k :: k in s.cache ==> k in s.store && s.store[k] == s.cache[k]
  }

  ghost predicate Holds(store: Index, hsm: seq<NodeInfo>) {
    forall k :: k in Names(hsm) ==> k in store && store[k] in hsm && store[k].nodeName == k
  }

  /** A forced round that began undisturbed is in progress. */
  ghost predicate Forcing(s: State) {
    s.forceUpdateCnt == 0 &&
    match s.pc
    case Sleeping => false
    case Scanning(hsm, i, found) => UniqueNames(hsm)
    case Scanned(hsm, found, gone) => UniqueNames(hsm) && gone !! Names(hsm)
    case PutDone(hsm, found, gone, ok) => UniqueNames(hsm) && ok && gone !! Names(hsm) && Holds(s.store, hsm)
    case DeleteDone(hsm, found, ok) => UniqueNames(hsm) && ok && Holds(s.store, hsm)
    case Committed(found, ok) => ok && SameRecords(s)
  }

  lemma ForcingStep(s: State, e: Event)
    requires Quiet(s) && Allowed(s, e) && CalmEvent(e) && Forcing(s)
    ensures Forcing(Step(s, e)) || (e.Finish? && Step(s, e).forceUpdateCnt == 10 && SameRecords(Step(s, e)))
  {
    match e
    case ScanGone => ByNameIndexes(s.pc.hsm);
    case Commit =>
      var hsm := s.pc.hsm;
      ByNameIndexes(hsm);
      forall k | k in ByName(hsm) ensures k in s.store && s.store[k] == ByName(hsm)[k] {
        UniqueRecord(hsm, s.store[k], ByName(hsm)[k]);
      }
    case _ =>
  }

  /** The i-th state is at rest right after a forced round, with every cached record in console-data. */
  ghost predicate AgreedAt(ss: seq<State>, es: seq<Event>, i: nat)
    requires |ss| == |es| + 1
  {
    0 < i <= |es| && es[i - 1].Finish? && ss[i].forceUpdateCnt == 10 && SameRecords(ss[i])
  }

  ghost predicate FetchesUnique(es: seq<Event>) {
    forall i :: 0 <= i < |es| && es[i].Fetch? ==> UniqueNames(es[i].hsm)
  }

  lemma {:induction false} AgreedForcingOrWaiting(ss: seq<State>, es: seq<Event>)
    requires Run(ss, es) && Calm(es) && Quiet(ss[0]) && FetchesUnique(es)
    ensures Quiet(ss[|es|])
    ensures (exists i: nat :: AgreedAt(ss, es, i)) || Forcing(ss[|es|]) || 1 <= Wait(ss[|es|]) <= 11 - Fetches(es)
  {
    var n := |es|;
    if n > 0 {
      var ps, pes := ss[..n], es[..n - 1];
      AgreedForcingOrWaiting(ps, pes);
      assert Follows(ss[n - 1], es[n - 1], ss[n]) && CalmEvent(es[n - 1]);
      if i: nat :| AgreedAt(ps, pes, i) {
        WaitStep(ss[n - 1], es[n - 1]);
        assert AgreedAt(ss, es, i);
      } else if Forcing(ss[n - 1]) {
        WaitStep(ss[n - 1], es[n - 1]);
        ForcingStep(ss[n - 1], es[n - 1]);
        assert Forcing(ss[n]) || AgreedAt(ss, es, n);
      } else {
        WaitStep(ss[n - 1], es[n - 1]);
      }
    }
  }

  /**
   Within those same eleven rounds there is a moment, at rest after a forced round, at
   which console-data holds every cached node with the very record that is cached.
   */
  lemma RecordsAgreeWithinEleven(ss: seq<State>, es: seq<Event>)
    requires Run(ss, es) && Calm(es) && Quiet(ss[0]) && FetchesUnique(es)
    requires Fetches(es) >= 11 && ss[|es|].pc.Sleeping?
    ensures exists i: nat :: AgreedAt(ss, es, i)
  {
    AgreedForcingOrWaiting(ss, es);
  }

  // ---------- Why the wait is needed ----------

  /**
   Nothing short of a forced round repairs a missing node: as long as no round starts with
   the countdown at zero, a cached and still reported name that console-data lost stays
   lost, although every PUT succeeds.
   */
  lemma {:induction false} MissingUntilForced(ss: seq<State>, es: seq<Event>, k: string)
    requires Run(ss, es) && Calm(es) && Quiet(ss[0]) && Missing(ss[0], k)
    requires forall i :: 0 <= i < |es| && es[i].Fetch? ==> ss[i].forceUpdateCnt != 0 && k in Names(es[i].hsm)
    ensures Quiet(ss[|es|]) && Missing(ss[|es|], k)
  {
    var n := |es|;
    if n > 0 {
      MissingUntilForced(ss[..n], es[..n - 1], k);
      assert Follows(ss[n - 1], es[n - 1], ss[n]) && CalmEvent(es[n - 1]);
      WaitStep(ss[n - 1], es[n - 1]);
      MissingStep(ss[n - 1], es[n - 1], k);
    }
  }

  // ---------- Key deployment under interleaving ----------

  /** Every report of the run shows the name as Mountain or Hill, if at all. */
  ghost predicate MountainIn(hsm: seq<NodeInfo>, k: string) {
    forall n :: n in hsm && n.nodeName == k ==> n.IsMountain()
  }

  ghost predicate AlwaysMountain(es: seq<Event>, k: string) {
    forall i :: 0 <= i < |es| && es[i].Fetch? ==> MountainIn(es[i].hsm, k)
  }

  /** Cached means sent; while a round is under way, reported means sent or about to be. */
  ghost predicate SentInv(s: State, k: string) {
    && (k in s.cache ==> s.cache[k].IsMountain())
    && (!s.pc.Committed? ==> k in s.cache ==> k in Names(s.sent))
    && match s.pc
       case Sleeping => true
       case Scanning(hsm, i, found) =>
         && i <= |hsm| && MountainIn(hsm, k) && MountainIn(found, k)
         && ((exists j :: 0 <= j < i && hsm[j].nodeName == k) ==> k in Names(found) || k in Names(s.sent))
       case Scanned(hsm, found, gone) =>
         MountainIn(hsm, k) && MountainIn(found, k) && (k in Names(hsm) ==> k in Names(found) || k in Names(s.sent))
       case PutDone(hsm, found, gone, ok) =>
         MountainIn(hsm, k) && MountainIn(found, k) && (k in Names(hsm) ==> k in Names(found) || k in Names(s.sent))
       case DeleteDone(hsm, found, ok) =>
         MountainIn(hsm, k) && MountainIn(found, k) && (k in Names(hsm) ==> k in Names(found) || k in Names(s.sent))
       case Committed(found, ok) =>
         MountainIn(found, k) && (k in s.cache ==> k in Names(found) || k in Names(s.sent))
  }

  /**
   What a round sends for a cached node that is Mountain or Hill: a record of that name
   exactly when the scan found one new; the mountain-count gate is open then.
   */
  lemma FinishSendsExactly(s: State, k: string)
    requires s.pc.Committed? && k in s.cache && s.cache[k].CountsAsMountain()
    ensures k in Names(ToQueue(s.cache, s.pc.found)) <==>
            exists n :: n in s.pc.found && n.nodeName == k && n.IsMountain()
  {
    var counted := set x | x in s.cache && s.cache[x].CountsAsMountain();
    assert k in counted && CountMountain(s.cache) == |counted|;
    MountainsAre(s.pc.found);
  }

  lemma ScanOneSent(s: State, k: string)
    requires SentInv(s, k) && Allowed(s, ScanOne)
    ensures SentInv(Step(s, ScanOne), k)
  {
    var t, n := Step(s, ScanOne), s.pc.hsm[s.pc.i];
    assert n in s.pc.hsm;
    assert forall x :: x in t.pc.found <==> x in s.pc.found || (x == n && n.nodeName !in s.cache);
    assert Names(s.pc.found) <= Names(t.pc.found);
    if n.nodeName == k && k !in s.cache {
      assert n in t.pc.found;
    }
  }

  lemma SentStep(s: State, e: Event, k: string)
    requires SentInv(s, k) && Allowed(s, e) && (e.Fetch? ==> MountainIn(e.hsm, k))
    ensures SentInv(Step(s, e), k)
  {
    match e
    case ScanOne => ScanOneSent(s, k);
    case ScanGone =>
      if k in Names(s.pc.hsm) {
        var j :| 0 <= j < |s.pc.hsm| && s.pc.hsm[j].nodeName == k;
      }
    case Commit => ByNameIndexes(s.pc.hsm);
    case Finish =>
      assert Names(s.sent + ToQueue(s.cache, s.pc.found)) == Names(s.sent) + Names(ToQueue(s.cache, s.pc.found));
      if k in s.cache {
        FinishSendsExactly(s, k);
      }
    case _ =>
  }

  /**
   Under every interleaving with clearData, and whatever requests fail: a name that HSM only
   ever reports as Mountain or Hill has been sent to the key-deployment channel whenever the
   loop rests with it cached.
   */
  lemma {:induction false} CachedMountainWasSent(ss: seq<State>, es: seq<Event>, k: string)
    requires Run(ss, es) && Startup(ss[0]) && AlwaysMountain(es, k)
    ensures SentInv(ss[|es|], k)
    ensures ss[|es|].pc.Sleeping? && k in ss[|es|].cache ==> k in Names(ss[|es|].sent)
  {
    var n := |es|;
    if n > 0 {
      CachedMountainWasSent(ss[..n], es[..n - 1], k);
      assert Follows(ss[n - 1], es[n - 1], ss[n]);
      SentStep(ss[n - 1], es[n - 1], k);
    }
  }

  // ---------- Runs from startup that go wrong ----------

  ghost predicate Reaches(s: State, t: State) {
    exists ss: seq<State>, es: seq<Event> :: Run(ss, es) && ss[0] == s && ss[|es|] == t
  }

  lemma ReachNone(s: State)
    ensures Reaches(s, s)
  {
    assert Run([s], []);
  }

  lemma ReachMore(s: State, t: State, e: Event, u: State)
    requires Reaches(s, t) && Follows(t, e, u)
    ensures Reaches(s, u)
  {
    var ss, es :| Run(ss, es) && ss[0] == s && ss[|es|] == t;
    var ss', es' := ss + [u], es + [e];
    forall i | 0 <= i < |es'| ensures Follows(ss'[i], es'[i], ss'[i + 1]) {
      if i < |es| { assert Follows(ss[i], es[i], ss[i + 1]); }
    }
    assert Run(ss', es');
  }

  lemma ReachThen(s: State, t: State, u: State)
    requires Reaches(s, t) && Reaches(t, u)
    ensures Reaches(s, u)
  {
    var ss, es :| Run(ss, es) && ss[0] == s && ss[|es|] == t;
    var ts, fs :| Run(ts, fs) && ts[0] == t && ts[|fs|] == u;
    var us, gs := ss + ts[1..], es + fs;
    forall i | 0 <= i < |gs| ensures Follows(us[i], gs[i], us[i + 1]) {
      if i < |es| {
        assert Follows(ss[i], es[i], ss[i + 1]);
      } else {
        assert Follows(ts[i - |es|], fs[i - |es|], ts[i - |es| + 1]);
      }
    }
    assert Run(us, gs);
  }

  lemma ReachTwo(s: State, e: Event, t: State, f: Event, u: State)
    requires Follows(s, e, t) && Follows(t, f, u)
    ensures Reaches(s, u)
  {
    ReachNone(s);
    ReachMore(s, s, e, t);
    ReachMore(s, t, f, u);
  }

  /** A round that finds one node new: first its scan, then its requests, then its end. */
  lemma ScanOfOne(s: State, a: NodeInfo)
    requires s.pc.Sleeping? && !s.inShutdown && s.cache == map[]
    ensures Reaches(s, s.(pc := Scanned([a], [a], {})))
  {
    assert [] + [a] == [a];
    assert GoneNames(s.cache, [a]) == {};
    var s2 := s.(pc := Scanning([a], 1, [a]));
    ReachTwo(s, Fetch([a]), s.(pc := Scanning([a], 0, [])), ScanOne, s2);
    ReachMore(s, s2, ScanGone, s.(pc := Scanned([a], [a], {})));
  }

  lemma PushOfOne(s: State, a: NodeInfo, held: Index)
    requires s.pc == Scanned([a], [a], {}) && held == map[a.nodeName := a] && s.store.Keys <= {a.nodeName}
    ensures Reaches(s, s.(store := held, pc := DeleteDone([a], [a], true)))
  {
    assert Names([a]) == {a.nodeName} by { assert [a][0].nodeName in Names([a]); }
    var s1 := s.(store := held, pc := PutDone([a], [a], {}, true));
    assert ToPut(s) == [a];
    assert Follows(s, DoPut(true, held), s1);
    ReachTwo(s, DoPut(true, held), s1, DoDelete(held), s.(store := held, pc := DeleteDone([a], [a], true)));
  }

  /** A commit of one node and the end of its round. */
  lemma EndOfRound(s: State, a: NodeInfo, found: seq<NodeInfo>, held: Index)
    requires s.pc == DeleteDone([a], found, true) && held == map[a.nodeName := a]
    ensures Reaches(s, s.(cache := held, sent := s.sent + ToQueue(held, found),
                          forceUpdateCnt := NextCount(s.forceUpdateCnt, true), pc := Sleeping))
  {
    assert ByName([a]) == held;
    var s1 := s.(cache := held, pc := Committed(found, true));
    ReachTwo(s, Commit, s1, Finish,
             s.(cache := held, sent := s.sent + ToQueue(held, found),
                forceUpdateCnt := NextCount(s.forceUpdateCnt, true), pc := Sleeping));
  }

  lemma RoundOfOne(s: State, a: NodeInfo, held: Index) returns (t: State)
    requires s.pc.Sleeping? && !s.inShutdown && s.cache == map[]
    requires held == map[a.nodeName := a] && s.store.Keys <= {a.nodeName}
    ensures Reaches(s, t)
    ensures t == s.(cache := held, store := held, sent := s.sent + ToQueue(held, [a]),
                    forceUpdateCnt := NextCount(s.forceUpdateCnt, true))
  {
    var s1 := s.(pc := Scanned([a], [a], {}));
    var s2 := s1.(store := held, pc := DeleteDone([a], [a], true));
    t := s.(cache := held, store := held, sent := s.sent + ToQueue(held, [a]),
            forceUpdateCnt := NextCount(s.forceUpdateCnt, true));
    ScanOfOne(s, a);
    PushOfOne(s1, a, held);
    ReachThen(s, s1, s2);
    EndOfRound(s2, a, [a], held);
    ReachThen(s, s2, t);
  }

  /** The state in which the operator starts over an empty console-data. */
  ghost function Fresh(): State {
    State.State(map[], map[], 0, false, Sleeping, [], [])
  }

  /** A handler that copies the one cached name and wipes the cache. */
  lemma CopyThenWipe(s: State, k: string) returns (t: State)
    requires s.clears == [] && RecordNames(s.cache) == {k}
    ensures Reaches(s, t) && t == s.(cache := map[], clears := [Wiped({k})])
  {
    var s1 := s.(clears := [Copied({k})]);
    t := s.(cache := map[], clears := [Wiped({k})]);
    ReachTwo(s, ClearCopy, s1, ClearWipe(0), t);
  }

  /** The first round after startup, over a report of one node. */
  lemma FirstRoundOfOne(a: NodeInfo, held: Index) returns (t: State)
    requires held == map[a.nodeName := a]
    ensures Reaches(Fresh(), t) && RecordNames(held) == {a.nodeName}
    ensures t == State.State(held, held, 10, false, Sleeping, [], ToQueue(held, [a]))
  {
    t := RoundOfOne(Fresh(), a, held);
    assert held[a.nodeName].nodeName in RecordNames(held);
  }

  /** A round, and after it the delete of a handler that wiped the cache before it. */
  lemma RoundThenDelete(s: State, a: NodeInfo, held: Index) returns (t: State)
    requires s.pc.Sleeping? && !s.inShutdown && s.cache == map[] && s.forceUpdateCnt == 10
    requires held == map[a.nodeName := a] && s.store == held && s.clears == [Wiped({a.nodeName})]
    ensures Reaches(s, t) && t.pc.Sleeping? && t.clears == []
    ensures t.cache == held && t.store == map[] && t.forceUpdateCnt == 9
  {
    var s1 := RoundOfOne(s, a, held);
    t := s1.(store := map[], clears := []);
    assert Follows(s1, ClearDelete(0, map[]), t);
    ReachMore(s, s1, ClearDelete(0, map[]), t);
  }

  /**
   Not every interleaving is orderly: from startup, a clearData handler that wipes the cache
   before a round and sends its delete after it leaves the node cached, absent from
   console-data, and no forced update pending, although every request succeeded.
   */
  lemma LateClearHidesANode(a: NodeInfo) returns (t: State)
    ensures Startup(Fresh()) && Inv(Atomic(Fresh())) && Reaches(Fresh(), t)
    ensures t.pc.Sleeping? && t.clears == [] && t.forceUpdateCnt == 9
    ensures !Inv(Atomic(t)) && Missing(t, a.nodeName)
  {
    var held := map[a.nodeName := a];
    var s0 := FirstRoundOfOne(a, held);
    var s1 := CopyThenWipe(s0, a.nodeName);
    ReachThen(Fresh(), s0, s1);
    t := RoundThenDelete(s1, a, held);
    ReachThen(Fresh(), s1, t);
  }

  /** A round up to its commit, over one cached node, during whose scan a handler wipes the cache. */
  lemma WipeInScan(s: State, b: NodeInfo) returns (p: State)
    requires s.pc.Sleeping? && !s.inShutdown && s.forceUpdateCnt > 0
    requires b.nodeName in s.cache && s.clears == [Copied({b.nodeName})]
    ensures Reaches(s, p)
    ensures p == s.(cache := map[], clears := [Wiped({b.nodeName})], pc := DeleteDone([b], [], true))
  {
    var none: seq<NodeInfo> := [];
    assert none + [] == none && GoneNames(map[], [b]) == {};
    var s2 := s.(pc := Scanning([b], 1, none));
    ReachTwo(s, Fetch([b]), s.(pc := Scanning([b], 0, none)), ScanOne, s2);
    var s3 := s2.(cache := map[], clears := [Wiped({b.nodeName})]);
    ReachMore(s, s2, ClearWipe(0), s3);
    var s4, s5 := s3.(pc := Scanned([b], none, {})), s3.(pc := PutDone([b], none, {}, true));
    ReachTwo(s3, ScanGone, s4, DoPut(true, s.store), s5);
    ReachThen(s, s3, s5);
    p := s3.(pc := DeleteDone([b], none, true));
    ReachMore(s, s5, DoDelete(s.store), p);
  }

  lemma NoMountainSendsNothing(a: NodeInfo, cache: Index)
    requires !a.IsMountain()
    ensures ToQueue(cache, [a]) == []
  {
    var one := [a];
    assert one[..|one| - 1] == [];
    assert Mountains(one) == Mountains(one[..|one| - 1]) + [];
  }

  /** A round that found nothing new ends without sending, whatever its commit puts in the cache. */
  lemma CommitUnsent(p: State, b: NodeInfo) returns (q: State, t: State)
    requires p.pc == DeleteDone([b], [], true)
    ensures Follows(p, Commit, q) && Follows(q, Finish, t)
    ensures t.cache == map[b.nodeName := b] && t.sent == p.sent
  {
    q := Step(p, Commit);
    t := Step(q, Finish);
    assert ByName([b]) == map[b.nodeName := b];
  }

  /**
   The restriction to names that are always Mountain or Hill is needed even for a node that
   has just entered the cache: when a wipe falls into the scan, a node that has become
   Mountain enters an empty cache and is not sent. With atomic rounds it would have been
   (EnteringMountainIsQueued).
   */
  lemma WipeInScanSkipsANode(a: NodeInfo, b: NodeInfo) returns (p: State, q: State, t: State)
    requires a.nodeName == b.nodeName && a.IsRiver() && b.IsMountain()
    ensures Reaches(Fresh(), p) && Follows(p, Commit, q) && Follows(q, Finish, t)
    ensures p.cache == map[] && t.cache == map[b.nodeName := b] && t.sent == []
  {
    var held := map[a.nodeName := a];
    var s0 := FirstRoundOfOne(a, held);
    NoMountainSendsNothing(a, held);
    var s1 := s0.(clears := [Copied({b.nodeName})]);
    ReachMore(Fresh(), s0, ClearCopy, s1);
    p := WipeInScan(s1, b);
    ReachThen(Fresh(), s1, p);
    q, t := CommitUnsent(p, b);
  }
}
