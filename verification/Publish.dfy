/**
 Publication of the scaling decision: the stateful set's replica count, the target file
 that console-node pods read, and the in-memory values that decide what is retried.
 */
module Publish {
  import opened Scaling

  datatype Line = River(n: int) | Mountain(n: int)

  datatype State = State(
    replicas: int,
    file: seq<Line>,
    numNodePods: int,
    numMtnNodesPerPod: int,
    numRvrNodesPerPod: int,
    totalMtnNodes: int,
    totalRvrNodes: int,
    maxMtnNodesPerPod: int,
    maxRvrNodesPerPod: int,
    numFileErrors: int,
    panicked: bool)

  /** How the outside calls of one update turn out. */
  datatype Env = Env(
    clientReady: bool,
    getOk: bool,
    updateOk: bool,
    appliedAnyway: bool,
    readOk: bool,
    dirMissing: bool,
    mkdirOk: bool,
    openOk: bool,
    riverWritten: bool,
    mountainWritten: bool)
  {
    predicate OpenFails() { (dirMissing && !mkdirOk) || !openOk }

    predicate WritesSucceed() { riverWritten && mountainWritten }

    predicate AllOk() { clientReady && getOk && updateOk && readOk && !OpenFails() && WritesSucceed() }
  }

  // ---------- The three updates ----------

  function WithReplicas(s: State, n: int, env: Env): State {
    if !env.clientReady || !env.getOk then s
    else if ToInt32(n) != s.replicas then
      if env.updateOk then s.(replicas := ToInt32(n), numNodePods := n)
      else s.(replicas := if env.appliedAnyway then ToInt32(n) else s.replicas)
    else s.(numNodePods := n)
  }

  function Contents(mtn: int, rvr: int, env: Env): seq<Line> {
    (if env.riverWritten then [River(rvr)] else []) + (if env.mountainWritten then [Mountain(mtn)] else [])
  }

  function WithTargets(s: State, mtn: int, rvr: int, env: Env): State {
    if env.OpenFails() then
      if s.numFileErrors > 3 then s.(panicked := true) else s.(numFileErrors := s.numFileErrors + 1)
    else s.(numFileErrors := 0, file := Contents(mtn, rvr, env), numMtnNodesPerPod := mtn, numRvrNodesPerPod := rvr)
  }

  function PodsOf(s: State, mtn: nat, rvr: nat): nat {
    NumPods(mtn, rvr, s.maxMtnNodesPerPod, s.maxRvrNodesPerPod)
  }

  function MtnTarget(s: State, mtn: nat, rvr: nat, env: Env): nat {
    Target(mtn, PodsOf(s, mtn, rvr), !env.readOk)
  }

  function RvrTarget(s: State, mtn: nat, rvr: nat, env: Env): nat {
    Target(rvr, PodsOf(s, mtn, rvr), !env.readOk)
  }

  /**
   One update with the pod count and the two targets already computed: the file is written
   always after a failed replica read, otherwise when a target changed.
   */
  function PublishValues(s: State, mtn: nat, rvr: nat, pods: int, newMtn: int, newRvr: int, env: Env): State {
    var s1 := WithReplicas(s.(totalMtnNodes := mtn, totalRvrNodes := rvr), pods, env);
    if !env.readOk || newRvr != s.numRvrNodesPerPod || newMtn != s.numMtnNodesPerPod
    then WithTargets(s1, newMtn, newRvr, env) else s1
  }

  /** A file update is attempted: always after a failed replica read, otherwise on a change. */
  predicate Attempted(s: State, mtn: nat, rvr: nat, env: Env) {
    && mtn + rvr != 0
    && (!env.readOk || RvrTarget(s, mtn, rvr, env) != s.numRvrNodesPerPod
        || MtnTarget(s, mtn, rvr, env) != s.numMtnNodesPerPod)
  }

  function UpdateCounts(s: State, mtn: nat, rvr: nat, env: Env): State {
    if mtn + rvr == 0 then s
    else PublishValues(s, mtn, rvr, PodsOf(s, mtn, rvr), MtnTarget(s, mtn, rvr, env), RvrTarget(s, mtn, rvr, env), env)
  }

  function Pin(ask: int, min: int, max: int): int {
    if ask < min then min else if ask > max then max else ask
  }

  function Distance(a: int, b: int): nat {
    if a < b then b - a else a - b
  }

  /** A request is pinned to the one value in range that is nearest to it. */
  lemma PinIsNearest(ask: int, min: int, max: int)
    requires min <= max
    ensures min <= Pin(ask, min, max) <= max
    ensures forall v :: min <= v <= max && v != Pin(ask, min, max) ==> Distance(Pin(ask, min, max), ask) < Distance(v, ask)
  {
  }

  // ---------- Runs ----------

  /** An update by the loop, a debug request for new maxima, or someone else scaling the set. */
  datatype Event =
    | Update(mtn: nat, rvr: nat, env: Env)
    | SetMax(askMtn: int, askRvr: int)
    | ScaledByOthers(n: int)

  /** After the panic the process is gone and nothing happens any more. */
  function Step(s: State, e: Event): State {
    if s.panicked then s
    else
      match e
      case Update(mtn, rvr, env) => UpdateCounts(s, mtn, rvr, env)
      case SetMax(askMtn, askRvr) =>
        s.(maxMtnNodesPerPod := Pin(askMtn, 2, 750), maxRvrNodesPerPod := Pin(askRvr, 2, 2000))
      case ScaledByOthers(n) => s.(replicas := ToInt32(n))
  }

  function Exec(s: State, es: seq<Event>): State {
    if es == [] then s else Step(Exec(s, es[..|es| - 1]), es[|es| - 1])
  }

  /** The outcomes of the file updates attempted in a run: true for a successful open. */
  function Opens(s: State, es: seq<Event>): seq<bool> {
    if es == [] then []
    else
      var init, e := es[..|es| - 1], es[|es| - 1];
      var p := Exec(s, init);
      Opens(s, init) +
      if e.Update? && !p.panicked && Attempted(p, e.mtn, e.rvr, e.env) then [!e.env.OpenFails()] else []
  }

  function TrailingFailures(opens: seq<bool>): nat {
    if opens == [] || opens[|opens| - 1] then 0 else 1 + TrailingFailures(opens[..|opens| - 1])
  }

  ghost predicate Init(s: State) {
    && s.numNodePods == -1 && s.numMtnNodesPerPod == -1 && s.numRvrNodesPerPod == -1
    && s.totalMtnNodes == -1 && s.totalRvrNodes == -1
    && s.numFileErrors == 0 && !s.panicked
    && 5 <= s.maxMtnNodesPerPod <= 1500 && 5 <= s.maxRvrNodesPerPod <= 4000
  }

  /** One more attempt appended to the log. */
  lemma OneMoreOpen(opens: seq<bool>, ok: bool)
    ensures TrailingFailures(opens + [ok]) == if ok then 0 else TrailingFailures(opens) + 1
  {
    assert (opens + [ok])[..|opens|] == opens;
  }

  /**
   In every run the error counter is the number of failed attempts since the last
   successful open, at most four while the process lives, and the process panics exactly
   on the fifth.
   */
  lemma {:induction false} PanicsExactlyOnTheFifth(s: State, es: seq<Event>)
    requires Init(s)
    ensures Exec(s, es).panicked <==> TrailingFailures(Opens(s, es)) >= 5
    ensures TrailingFailures(Opens(s, es)) <= 5
    ensures !Exec(s, es).panicked ==> Exec(s, es).numFileErrors == TrailingFailures(Opens(s, es))
  {
    if es != [] {
      var init, e := es[..|es| - 1], es[|es| - 1];
      var p := Exec(s, init);
      PanicsExactlyOnTheFifth(s, init);
      if e.Update? && !p.panicked && Attempted(p, e.mtn, e.rvr, e.env) {
        OneMoreOpen(Opens(s, init), !e.env.OpenFails());
      } else {
        assert Opens(s, es) == Opens(s, init);
      }
    }
  }

  /** Event `i` is an update that opens the file and so stores its targets. */
  ghost predicate StoresAt(s: State, es: seq<Event>, i: nat) {
    i < |es| && es[i].Update? &&
    var p := Exec(s, es[..i]);
    && !p.panicked && Attempted(p, es[i].mtn, es[i].rvr, es[i].env)
    && es[i].env.openOk && (es[i].env.dirMissing ==> es[i].env.mkdirOk)
  }

  ghost predicate LastStore(s: State, es: seq<Event>, i: nat) {
    StoresAt(s, es, i) && forall j: nat :: i < j < |es| ==> !StoresAt(s, es, j)
  }

  /** The targets and the file after the run are those of update `i`, as far as its writes got. */
  ghost predicate StoredBy(s: State, es: seq<Event>, i: nat) {
    i < |es| && es[i].Update? &&
    var p, t, e := Exec(s, es[..i]), Exec(s, es), es[i];
    && t.numMtnNodesPerPod == MtnTarget(p, e.mtn, e.rvr, e.env)
    && t.numRvrNodesPerPod == RvrTarget(p, e.mtn, e.rvr, e.env)
    && t.file == Contents(t.numMtnNodesPerPod, t.numRvrNodesPerPod, e.env)
  }

  lemma EarlierStore(s: State, es: seq<Event>, i: nat)
    requires es != [] && i < |es| - 1
    ensures StoresAt(s, es, i) <==> StoresAt(s, es[..|es| - 1], i)
  {
    assert es[..|es| - 1][..i] == es[..i];
  }

  lemma LastStoreStays(s: State, es: seq<Event>, i: nat)
    requires es != [] && LastStore(s, es[..|es| - 1], i) && !StoresAt(s, es, |es| - 1)
    ensures LastStore(s, es, i)
  {
    EarlierStore(s, es, i);
    forall j: nat | i < j < |es| ensures !StoresAt(s, es, j) {
      if j < |es| - 1 { EarlierStore(s, es, j); }
    }
  }

  /**
   In every run: until a file update opens the file the targets in memory are -1 and the old
   file is in place; from then on memory and file are what the latest such update computed
   and managed to write.
   */
  lemma {:induction false} StoredTargets(s: State, es: seq<Event>)
    requires Init(s)
    ensures if true in Opens(s, es) then exists i: nat :: LastStore(s, es, i) && StoredBy(s, es, i)
            else Exec(s, es).file == s.file && Exec(s, es).numMtnNodesPerPod == -1 && Exec(s, es).numRvrNodesPerPod == -1
  {
    if es != [] {
      var init, e := es[..|es| - 1], es[|es| - 1];
      StoredTargets(s, init);
      StoredStep(s, es);
      if StoresAt(s, es, |es| - 1) {
        assert LastStore(s, es, |es| - 1);
      } else if true in Opens(s, init) {
        var i: nat :| LastStore(s, init, i) && StoredBy(s, init, i);
        LastStoreStays(s, es, i);
        assert init[..i] == es[..i] && StoredBy(s, es, i);
      }
    }
  }

  /** One more event either stores its own targets or leaves memory and file alone. */
  lemma StoredStep(s: State, es: seq<Event>)
    requires es != []
    ensures var init := es[..|es| - 1];
            if StoresAt(s, es, |es| - 1) then StoredBy(s, es, |es| - 1) && true in Opens(s, es)
            else && Exec(s, es).file == Exec(s, init).file
                 && Exec(s, es).numMtnNodesPerPod == Exec(s, init).numMtnNodesPerPod
                 && Exec(s, es).numRvrNodesPerPod == Exec(s, init).numRvrNodesPerPod
                 && (true in Opens(s, es) <==> true in Opens(s, init))
  {
    var init, e := es[..|es| - 1], es[|es| - 1];
    var p := Exec(s, init);
    if e.Update? && !p.panicked && Attempted(p, e.mtn, e.rvr, e.env) {
      assert Opens(s, es) == Opens(s, init) + [!e.env.OpenFails()];
    } else {
      assert Opens(s, es) == Opens(s, init);
    }
  }

  /**
   The file agrees with the targets in memory exactly when both writes of the latest
   successful open succeeded.
   */
  lemma TargetsMatchTheFile(s: State, es: seq<Event>, i: nat)
    requires Init(s) && LastStore(s, es, i)
    ensures var t := Exec(s, es);
            && (t.file == [River(t.numRvrNodesPerPod), Mountain(t.numMtnNodesPerPod)] <==> es[i].env.WritesSucceed())
            && t.numMtnNodesPerPod >= 0 && t.numRvrNodesPerPod >= 0
  {
    StoredByLast(s, es, i);
  }

  /**
   Line by line: each line is in the file if and only if its own write of the latest
   successful open succeeded, with the target in memory, and nothing else is.
   */
  lemma FileLinesExactly(s: State, es: seq<Event>, i: nat, line: Line)
    requires Init(s) && LastStore(s, es, i)
    ensures var t := Exec(s, es);
            && (line in t.file <==>
                  match line
                  case River(n) => es[i].env.riverWritten && n == t.numRvrNodesPerPod
                  case Mountain(n) => es[i].env.mountainWritten && n == t.numMtnNodesPerPod)
            && |t.file| == (if es[i].env.riverWritten then 1 else 0) + (if es[i].env.mountainWritten then 1 else 0)
  {
    StoredByLast(s, es, i);
  }

  /** Whatever update stored last is the one memory and file come from. */
  lemma {:induction false} StoredByLast(s: State, es: seq<Event>, i: nat)
    requires LastStore(s, es, i)
    ensures StoredBy(s, es, i)
  {
    StoredStep(s, es);
    if i < |es| - 1 {
      var init := es[..|es| - 1];
      EarlierStore(s, es, i);
      forall j: nat | i < j < |init| ensures !StoresAt(s, init, j) { EarlierStore(s, es, j); }
      assert !StoresAt(s, es, |es| - 1);
      StoredByLast(s, init, i);
      assert init[..i] == es[..i];
    }
  }

  /** The maxima, however they are reset, and the pod count stay in the ranges the arithmetic needs. */
  lemma {:induction false} RangesHold(s: State, es: seq<Event>)
    requires Init(s)
    ensures 2 <= Exec(s, es).maxMtnNodesPerPod <= 1500 && 2 <= Exec(s, es).maxRvrNodesPerPod <= 4000
    ensures Exec(s, es).numNodePods == -1 || Exec(s, es).numNodePods >= 2
  {
    if es != [] {
      var init, e := es[..|es| - 1], es[|es| - 1];
      var p := Exec(s, init);
      RangesHold(s, init);
      if e.Update? && e.mtn + e.rvr > 0 {
        PodsAreResilientAndMinimal(e.mtn, e.rvr, p.maxMtnNodesPerPod, p.maxRvrNodesPerPod);
      }
    }
  }

  lemma {:induction false} MaximaOfRequest(s: State, es: seq<Event>, i: nat)
    requires i < |es| && es[i].SetMax? && (forall j :: i < j < |es| ==> !es[j].SetMax?) && !Exec(s, es[..i]).panicked
    ensures Exec(s, es).maxMtnNodesPerPod == Pin(es[i].askMtn, 2, 750)
    ensures Exec(s, es).maxRvrNodesPerPod == Pin(es[i].askRvr, 2, 2000)
  {
    var init := es[..|es| - 1];
    if i < |init| {
      assert init[..i] == es[..i] && forall j :: 0 <= j < |init| ==> init[j] == es[j];
      MaximaOfRequest(s, init, i);
    } else {
      assert es[..i] == init;
    }
  }

  /** The maxima are those of the latest request, each the nearest to its own number in its own range. */
  lemma LatestRequestDecides(s: State, es: seq<Event>, i: nat)
    requires i < |es| && es[i].SetMax? && (forall j :: i < j < |es| ==> !es[j].SetMax?) && !Exec(s, es[..i]).panicked
    ensures var e, m, r := es[i], Exec(s, es).maxMtnNodesPerPod, Exec(s, es).maxRvrNodesPerPod;
            && 2 <= m <= 750 && (forall v :: 2 <= v <= 750 ==> Distance(m, e.askMtn) <= Distance(v, e.askMtn))
            && 2 <= r <= 2000 && (forall v :: 2 <= v <= 2000 ==> Distance(r, e.askRvr) <= Distance(v, e.askRvr))
  {
    MaximaOfRequest(s, es, i);
    PinIsNearest(es[i].askMtn, 2, 750);
    PinIsNearest(es[i].askRvr, 2, 2000);
  }

  /**
   Over every run the targets in memory, once stored, respect the hard maxima that were in
   force at the update that stored them, if its counts were below their squares.
   */
  lemma StoredWithinMaxima(s: State, es: seq<Event>)
    requires Init(s)
    ensures (Exec(s, es).numMtnNodesPerPod == -1 && Exec(s, es).numRvrNodesPerPod == -1)
         || exists i: nat :: LastStore(s, es, i) && StoredBy(s, es, i) && WithinThen(s, es, i)
  {
    StoredTargets(s, es);
    if true in Opens(s, es) {
      var i: nat :| LastStore(s, es, i) && StoredBy(s, es, i);
      var p, e := Exec(s, es[..i]), es[i];
      RangesHold(s, es[..i]);
      TargetsBelowSquares(p, e.mtn, e.rvr, e.env);
      assert WithinThen(s, es, i);
    }
  }

  ghost predicate WithinThen(s: State, es: seq<Event>, i: nat) {
    i < |es| && es[i].Update? &&
    var p, t := Exec(s, es[..i]), Exec(s, es);
    && (es[i].mtn < p.maxMtnNodesPerPod * p.maxMtnNodesPerPod ==> t.numMtnNodesPerPod <= p.maxMtnNodesPerPod)
    && (es[i].rvr < p.maxRvrNodesPerPod * p.maxRvrNodesPerPod ==> t.numRvrNodesPerPod <= p.maxRvrNodesPerPod)
  }

  lemma TargetsBelowSquares(p: State, mtn: nat, rvr: nat, env: Env)
    requires p.maxMtnNodesPerPod >= 2 && p.maxRvrNodesPerPod >= 2
    ensures mtn < p.maxMtnNodesPerPod * p.maxMtnNodesPerPod ==> MtnTarget(p, mtn, rvr, env) <= p.maxMtnNodesPerPod
    ensures rvr < p.maxRvrNodesPerPod * p.maxRvrNodesPerPod ==> RvrTarget(p, mtn, rvr, env) <= p.maxRvrNodesPerPod
  {
    if mtn < p.maxMtnNodesPerPod * p.maxMtnNodesPerPod {
      BelowSquareIsSafe(mtn, p.maxMtnNodesPerPod);
      assert Target(mtn, PodsOf(p, mtn, rvr), false) <= p.maxMtnNodesPerPod;
    }
    if rvr < p.maxRvrNodesPerPod * p.maxRvrNodesPerPod {
      BelowSquareIsSafe(rvr, p.maxRvrNodesPerPod);
      assert Target(rvr, PodsOf(p, mtn, rvr), false) <= p.maxRvrNodesPerPod;
    }
  }

  /** The slack in a target: none after a failed replica read. */
  function Slack(env: Env): nat {
    if env.readOk then 1 else 0
  }

  /**
   Exactly when the stored targets are within the maxima in force now, which may have been
   lowered since: when the pods chosen at the storing update, each filled to the present
   maximum less the slack, hold the nodes counted then.
   */
  lemma StoredWithinPresentMaximaExactly(s: State, es: seq<Event>, i: nat)
    requires Init(s) && LastStore(s, es, i)
    ensures var p, t, e := Exec(s, es[..i]), Exec(s, es), es[i];
            && (t.numMtnNodesPerPod <= t.maxMtnNodesPerPod <==>
                  e.mtn <= PodsOf(p, e.mtn, e.rvr) * (t.maxMtnNodesPerPod - Slack(e.env)))
            && (t.numRvrNodesPerPod <= t.maxRvrNodesPerPod <==>
                  e.rvr <= PodsOf(p, e.mtn, e.rvr) * (t.maxRvrNodesPerPod - Slack(e.env)))
  {
    var e := es[i];
    StoredByLast(s, es, i);
    RangesHold(s, es);
    TargetsFit(Exec(s, es), e.mtn, e.rvr, PodsOf(Exec(s, es[..i]), e.mtn, e.rvr), e.env);
  }

  lemma TargetsFit(t: State, mtn: nat, rvr: nat, pods: nat, env: Env)
    requires pods >= 1 && t.maxMtnNodesPerPod >= 1 && t.maxRvrNodesPerPod >= 1
    requires t.numMtnNodesPerPod == Target(mtn, pods, !env.readOk)
    requires t.numRvrNodesPerPod == Target(rvr, pods, !env.readOk)
    ensures t.numMtnNodesPerPod <= t.maxMtnNodesPerPod <==> mtn <= pods * (t.maxMtnNodesPerPod - Slack(env))
    ensures t.numRvrNodesPerPod <= t.maxRvrNodesPerPod <==> rvr <= pods * (t.maxRvrNodesPerPod - Slack(env))
  {
    TargetFits(mtn, pods, env, t.maxMtnNodesPerPod);
    TargetFits(rvr, pods, env, t.maxRvrNodesPerPod);
  }

  lemma TargetFits(n: nat, pods: nat, env: Env, max: int)
    requires pods >= 1 && max >= 1
    ensures Target(n, pods, !env.readOk) <= max <==> n <= pods * (max - Slack(env))
  {
    var m := max - Slack(env);
    CeilDivLeast(n, pods, m);
    assert m * pods == pods * m;
  }

  /**
   A maximum that is not lowered after the storing update is still respected: for counts
   below its square then, lowering it is the only way to have stored targets above it.
   */
  lemma OnlyLoweringOvertakes(s: State, es: seq<Event>, i: nat)
    requires Init(s) && LastStore(s, es, i)
    ensures var p, t, e := Exec(s, es[..i]), Exec(s, es), es[i];
            && (e.mtn < p.maxMtnNodesPerPod * p.maxMtnNodesPerPod && t.numMtnNodesPerPod > t.maxMtnNodesPerPod ==>
                  t.maxMtnNodesPerPod < p.maxMtnNodesPerPod)
            && (e.rvr < p.maxRvrNodesPerPod * p.maxRvrNodesPerPod && t.numRvrNodesPerPod > t.maxRvrNodesPerPod ==>
                  t.maxRvrNodesPerPod < p.maxRvrNodesPerPod)
  {
    var p, e := Exec(s, es[..i]), es[i];
    StoredByLast(s, es, i);
    RangesHold(s, es[..i]);
    TargetsBelowSquares(p, e.mtn, e.rvr, e.env);
  }

  const ALL_OK: Env := Env(true, true, true, false, true, false, false, true, true, true)

  /**
   Stored targets can exceed the maximum in force: it is lowered by a request, and the
   targets published before stay until the next update, although the count is below the
   square of the new maximum too.
   */
  lemma LoweredMaximumIsOvertaken() returns (s: State, es: seq<Event>)
    ensures Init(s) && LastStore(s, es, 0) && es[0].Update?
    ensures var t := Exec(s, es);
            && t.maxMtnNodesPerPod == 11 && t.numMtnNodesPerPod == 51 && es[0].mtn < 11 * 11
            && t.file == [River(t.numRvrNodesPerPod), Mountain(51)]
  {
    s := State(1, [], -1, -1, -1, -1, -1, 750, 2000, 0, false);
    var e0, e1 := Update(100, 0, ALL_OK), SetMax(11, 2000);
    es := [e0, e1];
    assert es[..1] == [e0] && es[..0] == [] && [e0][..0] == [];
    assert PodsOf(s, 100, 0) == 2 && MtnTarget(s, 100, 0, ALL_OK) == 51;
    var p := Step(s, e0);
    assert Exec(s, [e0]) == p && p.numMtnNodesPerPod == 51;
    assert Exec(s, es) == Step(p, e1);
    assert StoresAt(s, es, 0) && !StoresAt(s, es, 1);
  }

  /**
   Event `i` left this pod count both in memory and, in 32 bits, in the stateful set, where
   it was already or by an update that succeeded.
   */
  ghost predicate HeldAt(s: State, es: seq<Event>, i: nat, pods: int) {
    i < |es| && es[i].Update? && es[i].env.clientReady && es[i].env.getOk &&
    var p, q := Exec(s, es[..i]), Exec(s, es[..i + 1]);
    && pods == PodsOf(p, es[i].mtn, es[i].rvr) && q.numNodePods == pods && q.replicas == ToInt32(pods)
    && (p.replicas == q.replicas || es[i].env.updateOk)
  }

  /**
   In every run the pod count in memory is -1 or one that an update computed and that the
   stateful set held right after it; failed reads and updates never set it.
   */
  lemma {:induction false} PodCountWasHeld(s: State, es: seq<Event>)
    requires Init(s)
    ensures Exec(s, es).numNodePods == -1 || exists i: nat :: HeldAt(s, es, i, Exec(s, es).numNodePods)
  {
    if es != [] {
      var init := es[..|es| - 1];
      PodCountWasHeld(s, init);
      var p, t := Exec(s, init), Exec(s, es);
      assert es[..|es|] == es;
      if t.numNodePods != p.numNodePods {
        assert HeldAt(s, es, |es| - 1, t.numNodePods);
      } else if p.numNodePods != -1 {
        var i: nat :| HeldAt(s, init, i, p.numNodePods);
        assert init[..i] == es[..i] && init[..i + 1] == es[..i + 1];
        assert HeldAt(s, es, i, t.numNodePods);
      }
    }
  }

  /** A replica read or update that fails, even one applied anyway, leaves the pod count in memory alone. */
  lemma FailedUpdateKeepsPodCount(s: State, mtn: nat, rvr: nat, env: Env)
    requires !env.clientReady || !env.getOk || (ToInt32(PodsOf(s, mtn, rvr)) != s.replicas && !env.updateOk)
    ensures UpdateCounts(s, mtn, rvr, env).numNodePods == s.numNodePods
  {
  }

  /** Event `i` is the latest update of a non-empty inventory. */
  ghost predicate LatestCount(es: seq<Event>, i: nat) {
    && i < |es| && es[i].Update? && es[i].mtn + es[i].rvr > 0
    && (forall j :: i < j < |es| && es[j].Update? ==> es[j].mtn + es[j].rvr == 0)
  }

  /**
   In every run the totals in memory are the counts of the latest update of a non-empty
   inventory, whatever else of that update failed; empty inventories are passed over.
   */
  lemma {:induction false} TotalsAreLatest(s: State, es: seq<Event>, i: nat)
    requires LatestCount(es, i) && !Exec(s, es[..i]).panicked
    ensures Exec(s, es).totalMtnNodes == es[i].mtn && Exec(s, es).totalRvrNodes == es[i].rvr
  {
    var init := es[..|es| - 1];
    if i < |init| {
      assert init[..i] == es[..i] && forall j :: 0 <= j < |init| ==> init[j] == es[j];
      TotalsAreLatest(s, init, i);
    } else {
      assert es[..i] == init;
    }
  }

  // ---------- Drift correction and fixpoint ----------

  /**
   From any replica count and any stored targets, one fully successful update of a
   non-empty inventory sets everything to the computed values, with capacity for every
   node, and a second one changes nothing at all.
   */
  lemma UpdateCorrectsDrift(s: State, mtn: nat, rvr: nat, env: Env, env': Env)
    requires mtn + rvr > 0 && mtn <= 0x7FFF_FFFE && rvr <= 0x7FFF_FFFE && env.AllOk() && env'.AllOk()
    ensures var t := UpdateCounts(s, mtn, rvr, env);
            && t.replicas == t.numNodePods == PodsOf(s, mtn, rvr)
            && t.totalMtnNodes == mtn && t.totalRvrNodes == rvr
            && t.numMtnNodesPerPod == Target(mtn, t.replicas, false)
            && t.numRvrNodesPerPod == Target(rvr, t.replicas, false)
            && t.replicas * t.numMtnNodesPerPod >= mtn + t.replicas
            && t.replicas * t.numRvrNodesPerPod >= rvr + t.replicas
            && UpdateCounts(t, mtn, rvr, env') == t
  {
    var p := PodsOf(s, mtn, rvr);
    PodsFitInt32(mtn, rvr, s.maxMtnNodesPerPod, s.maxRvrNodesPerPod);
    TargetsHoldTheClass(mtn, p, false);
    TargetsHoldTheClass(rvr, p, false);
  }

  /**
   The targets are computed for the pods that were asked for. When the replica count could
   not be changed they are published all the same, and then may not cover the inventory.
   */
  lemma StaleReplicasUndercover() returns (s: State, env: Env)
    ensures 2 <= s.replicas && !env.getOk && env.readOk && !env.OpenFails() && env.WritesSucceed()
    ensures var t := UpdateCounts(s, 7500, 0, env);
            t.replicas * t.numMtnNodesPerPod < 7500 && t.totalMtnNodes == 7500
  {
    s := State(2, [], 2, -1, -1, -1, -1, 750, 2000, 0, false);
    env := Env(true, false, false, false, true, false, false, true, true, true);
    assert PodsOf(s, 7500, 0) == 11;
    assert MtnTarget(s, 7500, 0, env) == 683;
  }

  /** The stateful set ends up with the requested replicas. */
  predicate Applied(env: Env) {
    env.clientReady && env.getOk && (env.updateOk || env.appliedAnyway)
  }

  /** Pods of a given size that a class needs; none for an empty class. */
  function PodsOfSize(n: nat, target: nat): nat {
    if target == 0 then 0 else CeilDiv(n, target)
  }

  /** The file could not be opened when it had to be, so the targets of before stay published. */
  predicate KeepsOldTargets(s: State, mtn: nat, rvr: nat, env: Env) {
    Attempted(s, mtn, rvr, env) && env.OpenFails()
  }

  /** A second way to leave nodes uncovered: the replicas change and the targets do not. */
  lemma FailedOpenUndercovers() returns (s: State, env: Env)
    ensures Applied(env) && env.OpenFails() && s.replicas == 2
    ensures var t := UpdateCounts(s, 100, 0, env);
            t.replicas * t.numMtnNodesPerPod < 100 && t.totalMtnNodes == 100
  {
    s := State(2, [], 2, 1, 1, -1, -1, 750, 2000, 0, false);
    env := ALL_OK.(openOk := false);
    assert PodsOf(s, 100, 0) == 2;
  }

  /**
   Exactly when an update leaves a class covered, from what is known before it. If the file
   had to be opened and could not be: when the old target suffices for the replicas that
   result. Otherwise: when the requested replicas were applied, or the replicas already in
   place number at least the pods of the new target size that the class needs.
   */
  lemma CoverageExactly(s: State, mtn: nat, rvr: nat, env: Env)
    requires mtn + rvr > 0 && mtn <= 0x7FFF_FFFE && rvr <= 0x7FFF_FFFE && s.replicas >= 0
    ensures var t, pods := UpdateCounts(s, mtn, rvr, env), if Applied(env) then PodsOf(s, mtn, rvr) else s.replicas;
            && (t.replicas * t.numMtnNodesPerPod >= mtn <==>
                  if KeepsOldTargets(s, mtn, rvr, env) then pods * s.numMtnNodesPerPod >= mtn
                  else Applied(env) || PodsOfSize(mtn, MtnTarget(s, mtn, rvr, env)) <= s.replicas)
            && (t.replicas * t.numRvrNodesPerPod >= rvr <==>
                  if KeepsOldTargets(s, mtn, rvr, env) then pods * s.numRvrNodesPerPod >= rvr
                  else Applied(env) || PodsOfSize(rvr, RvrTarget(s, mtn, rvr, env)) <= s.replicas)
  {
    var t, p := UpdateCounts(s, mtn, rvr, env), PodsOf(s, mtn, rvr);
    PodsFitInt32(mtn, rvr, s.maxMtnNodesPerPod, s.maxRvrNodesPerPod);
    assert t.replicas == if Applied(env) then p else s.replicas;
    TargetsAfter(s, mtn, rvr, env);
    ClassCovered(mtn, p, !env.readOk, t.replicas);
    ClassCovered(rvr, p, !env.readOk, t.replicas);
    MorePodsHold(mtn, p, !env.readOk, p);
    MorePodsHold(rvr, p, !env.readOk, p);
  }

  lemma TargetsAfter(s: State, mtn: nat, rvr: nat, env: Env)
    requires mtn + rvr > 0
    ensures var t, kept := UpdateCounts(s, mtn, rvr, env), KeepsOldTargets(s, mtn, rvr, env);
            && t.numMtnNodesPerPod == (if kept then s.numMtnNodesPerPod else MtnTarget(s, mtn, rvr, env))
            && t.numRvrNodesPerPod == (if kept then s.numRvrNodesPerPod else RvrTarget(s, mtn, rvr, env))
  {
  }

  lemma ClassCovered(n: nat, pods: nat, readFailed: bool, replicas: nat)
    requires pods >= 1
    ensures replicas * Target(n, pods, readFailed) >= n <==> PodsOfSize(n, Target(n, pods, readFailed)) <= replicas
  {
    var t := Target(n, pods, readFailed);
    if t == 0 {
      CeilDivLeast(n, pods, 0);
    } else {
      CeilDivLeast(n, t, replicas);
    }
  }

  /**
   With enough replicas in place afterwards, a class is covered in every branch, except that
   old targets which could not be replaced have to suffice themselves.
   */
  lemma EnoughReplicasCover(s: State, mtn: nat, rvr: nat, env: Env)
    requires mtn + rvr > 0 && UpdateCounts(s, mtn, rvr, env).replicas >= PodsOf(s, mtn, rvr)
    ensures var t := UpdateCounts(s, mtn, rvr, env);
            && (t.replicas * t.numMtnNodesPerPod >= mtn <==>
                  !KeepsOldTargets(s, mtn, rvr, env) || t.replicas * s.numMtnNodesPerPod >= mtn)
            && (t.replicas * t.numRvrNodesPerPod >= rvr <==>
                  !KeepsOldTargets(s, mtn, rvr, env) || t.replicas * s.numRvrNodesPerPod >= rvr)
  {
    var t, p := UpdateCounts(s, mtn, rvr, env), PodsOf(s, mtn, rvr);
    MorePodsHold(mtn, p, !env.readOk, t.replicas);
    MorePodsHold(rvr, p, !env.readOk, t.replicas);
    TargetsAfter(s, mtn, rvr, env);
  }

  // ---------- What is retried ----------

  /** Updates of one inventory, whatever their calls do. */
  ghost predicate SteadyUpdates(es: seq<Event>, mtn: nat, rvr: nat) {
    forall i :: 0 <= i < |es| ==> es[i].Update? && es[i].mtn == mtn && es[i].rvr == rvr
  }

  /** The targets in memory are not those that a good replica read gives. */
  predicate OffTarget(s: State, mtn: nat, rvr: nat) {
    RvrTarget(s, mtn, rvr, ALL_OK) != s.numRvrNodesPerPod || MtnTarget(s, mtn, rvr, ALL_OK) != s.numMtnNodesPerPod
  }

  /**
   After an attempted file update, an update of the same inventory tries again exactly when
   its own replica read fails, or the open had failed with other targets in memory, or the
   targets stored by the open were padded after a failed replica read. A failed write is not
   among the reasons.
   */
  lemma RetriedExactly(s: State, mtn: nat, rvr: nat, env: Env, env': Env)
    requires !s.panicked && Attempted(s, mtn, rvr, env)
    ensures Attempted(UpdateCounts(s, mtn, rvr, env), mtn, rvr, env') <==>
              !env'.readOk || (if env.OpenFails() then OffTarget(s, mtn, rvr) else !env.readOk)
  {
  }

  /**
   A failed open is retried at every update of the same inventory, whatever the replica
   reads do, until one succeeds or the process panics.
   */
  lemma {:induction false} RetriedUntilOpened(s: State, mtn: nat, rvr: nat, es: seq<Event>)
    requires !Exec(s, es).panicked && mtn + rvr > 0 && SteadyUpdates(es, mtn, rvr) && OffTarget(s, mtn, rvr)
    requires forall i :: 0 <= i < |es| ==> es[i].env.OpenFails()
    ensures |Opens(s, es)| == |es|
    ensures SameTargets(s, Exec(s, es)) && Exec(s, es).file == s.file
  {
    if es != [] {
      var init, e := es[..|es| - 1], es[|es| - 1];
      assert forall i :: 0 <= i < |init| ==> init[i] == es[i];
      RetriedUntilOpened(s, mtn, rvr, init);
      assert Attempted(Exec(s, init), e.mtn, e.rvr, e.env);
    }
  }

  ghost predicate SameTargets(s: State, t: State) {
    && t.numMtnNodesPerPod == s.numMtnNodesPerPod && t.numRvrNodesPerPod == s.numRvrNodesPerPod
    && t.maxMtnNodesPerPod == s.maxMtnNodesPerPod && t.maxRvrNodesPerPod == s.maxRvrNodesPerPod
  }

  /** The state after an update that opened the file, with whatever its writes did. */
  ghost predicate Opened(s: State, mtn: nat, rvr: nat, env: Env, u: State) {
    && !s.panicked && Attempted(s, mtn, rvr, env) && env.readOk && !env.OpenFails()
    && u == UpdateCounts(s, mtn, rvr, env)
  }

  lemma OnTargetStep(s: State, mtn: nat, rvr: nat, env: Env)
    requires !OffTarget(s, mtn, rvr) && (env.readOk || env.OpenFails())
    ensures var t := UpdateCounts(s, mtn, rvr, env);
            SameTargets(s, t) && t.file == s.file && (env.readOk && !s.panicked ==> !t.panicked)
  {
  }

  /** With the right targets in memory, no update touches the file unless a replica read fails. */
  lemma {:induction false} OnTargetRun(s: State, mtn: nat, rvr: nat, es: seq<Event>)
    requires !OffTarget(s, mtn, rvr) && SteadyUpdates(es, mtn, rvr)
    requires forall i :: 0 <= i < |es| ==> es[i].env.readOk || es[i].env.OpenFails()
    ensures SameTargets(s, Exec(s, es)) && Exec(s, es).file == s.file
    ensures !s.panicked && (forall i :: 0 <= i < |es| ==> es[i].env.readOk) ==> !Exec(s, es).panicked
  {
    if es != [] {
      var init, e := es[..|es| - 1], es[|es| - 1];
      assert forall i :: 0 <= i < |init| ==> init[i] == es[i];
      OnTargetRun(s, mtn, rvr, init);
      OnTargetStep(Exec(s, init), mtn, rvr, e.env);
    }
  }

  /**
   A write that fails after a successful open is not retried: memory already holds the new
   targets, so any number of further updates of the same inventory leave the file as it is,
   unless a replica read fails and the file can be opened then.
   */
  lemma LostWriteIsNotRetried(s: State, mtn: nat, rvr: nat, env: Env, u: State, es: seq<Event>)
    requires Opened(s, mtn, rvr, env, u) && !env.WritesSucceed() && SteadyUpdates(es, mtn, rvr)
    requires forall i :: 0 <= i < |es| ==> es[i].env.readOk || es[i].env.OpenFails()
    ensures var t := Exec(u, es);
            && t.file == Contents(MtnTarget(s, mtn, rvr, env), RvrTarget(s, mtn, rvr, env), env)
            && t.file != [River(t.numRvrNodesPerPod), Mountain(t.numMtnNodesPerPod)]
    ensures !OffTarget(Exec(u, es), mtn, rvr) && SameTargets(u, Exec(u, es))
    ensures (forall i :: 0 <= i < |es| ==> es[i].env.readOk) ==> !Exec(u, es).panicked
  {
    OnTargetRun(u, mtn, rvr, es);
  }

  lemma {:induction false} PanicIsFinal(s: State, es: seq<Event>, i: nat)
    requires i <= |es| && !Exec(s, es).panicked
    ensures !Exec(s, es[..i]).panicked
  {
    if i < |es| {
      PanicIsFinal(s, es[..|es| - 1], i);
      assert es[..|es| - 1][..i] == es[..i];
    } else {
      assert es[..i] == es;
    }
  }

  /**
   Exactly when updates of the same inventory write the file again, so that a lost write can
   be made good: if and only if, while the process lives, some replica read fails in an
   update that can open the file.
   */
  lemma RewrittenExactly(s: State, mtn: nat, rvr: nat, env: Env, u: State, es: seq<Event>)
    requires Opened(s, mtn, rvr, env, u) && SteadyUpdates(es, mtn, rvr)
    ensures (exists i: nat :: StoresAt(u, es, i)) <==>
              exists i: nat :: i < |es| && !Exec(u, es[..i]).panicked && !es[i].env.readOk && !es[i].env.OpenFails()
  {
    if i: nat :| StoresAt(u, es, i) {
      var before := es[..i];
      if forall j :: 0 <= j <= i ==> es[j].env.readOk || es[j].env.OpenFails() {
        assert forall j :: 0 <= j < i ==> before[j] == es[j];
        OnTargetRun(u, mtn, rvr, before);
        assert false;
      }
      var j: nat :| j <= i && !es[j].env.readOk && !es[j].env.OpenFails();
      PanicIsFinal(u, before, j);
      assert before[..j] == es[..j];
    }
    if i: nat :| i < |es| && !Exec(u, es[..i]).panicked && !es[i].env.readOk && !es[i].env.OpenFails() {
      assert StoresAt(u, es, i);
    }
  }

  /**
   How it is made good: from any state, an update whose replica read fails writes targets
   without slack, and the next update with a good read writes the right ones.
   */
  lemma FailedReadThenGoodRewrites(s: State, mtn: nat, rvr: nat, failed: Env, good: Env)
    requires !s.panicked && mtn + rvr > 0
    requires !failed.readOk && !failed.OpenFails() && good.readOk && !good.OpenFails() && good.WritesSucceed()
    ensures var t := UpdateCounts(UpdateCounts(s, mtn, rvr, failed), mtn, rvr, good);
            && t.file == [River(t.numRvrNodesPerPod), Mountain(t.numMtnNodesPerPod)] && !OffTarget(t, mtn, rvr)
  {
    assert Attempted(UpdateCounts(s, mtn, rvr, failed), mtn, rvr, good);
  }
}
