/**
 The publication code as it runs: process-wide variables, the stateful set and the target
 file updated in place, and the pod arithmetic in floating point. Each method is tied to
 the transitions of module Publish.
 */
module Publisher {
  import opened Scaling
  import opened FloatCeiling
  import opened Publish

  /** What an environment variable holds. */
  datatype EnvVar = Unset | NotAnInteger | Value(v: int)

  /** Read one setting: kept as it was unless an integer is given, then forced into range. */
  method ReadSingleEnvVarInt(envVar: EnvVar, current: int, minVal: int, maxVal: int) returns (value: int)
    requires minVal <= maxVal
    ensures !envVar.Value? ==> value == current
    ensures envVar.Value? ==> minVal <= value <= maxVal && value == Pin(envVar.v, minVal, maxVal)
  {
    value := current;
    if envVar.Value? {
      var vi := envVar.v;
      if vi < minVal {
        vi := minVal;
      }
      if vi > maxVal {
        vi := maxVal;
      }
      value := vi;
    }
  }

  /** Force a request into range and say whether it was in range already. */
  method PinNumNodes(numAsk: int, numMin: int, numMax: int) returns (val: int, ok: bool)
    ensures val == Pin(numAsk, numMin, numMax)
    ensures ok <==> numMin <= numAsk <= numMax
    ensures numMin <= numMax ==> numMin <= val <= numMax
  {
    ok := true;
    val := numAsk;
    if val < numMin {
      val := numMin;
      ok := false;
    } else if val > numMax {
      val := numMax;
      ok := false;
    }
  }

  /** The larger of the two classes' floating-point pod counts. */
  function FloatPods(rnd: real -> real, mtn: nat, rvr: nat, maxMtn: int, maxRvr: int): (pods: nat)
    requires Rounding(rnd)
    ensures pods >= 1
  {
    var numMtnReq := FloatPodsFor(rnd, mtn, maxMtn);
    var numRvrReq := FloatPodsFor(rnd, rvr, maxRvr);
    if numRvrReq > numMtnReq then numRvrReq else numMtnReq
  }

  /** One update with the pod count and the targets as the machine computes them. */
  ghost function FloatUpdate(s: State, mtn: nat, rvr: nat, rnd: real -> real, env: Env): State
    requires Rounding(rnd)
  {
    if mtn + rvr == 0 then s
    else
      var pods := FloatPods(rnd, mtn, rvr, s.maxMtnNodesPerPod, s.maxRvrNodesPerPod);
      var padding := if env.readOk then 0 else -1;
      PublishValues(s, mtn, rvr, pods, FloatTarget(rnd, mtn, pods) + padding, FloatTarget(rnd, rvr, pods) + padding, env)
  }

  /** Counts below 2^53, and any machine integers as maxima. */
  ghost predicate ExactRange(mtn: nat, rvr: nat, maxMtn: int, maxRvr: int) {
    mtn < TWO53 && rvr < TWO53 && maxMtn <= TWO63 && maxRvr <= TWO63
  }

  lemma FloatPodsExact(rnd: real -> real, mtn: nat, rvr: nat, maxMtn: int, maxRvr: int)
    requires Rounding(rnd) && ExactRange(mtn, rvr, maxMtn, maxRvr)
    ensures FloatPods(rnd, mtn, rvr, maxMtn, maxRvr) == NumPods(mtn, rvr, maxMtn, maxRvr) <= TWO53
  {
    FloatPodsAreExact(rnd, mtn, maxMtn);
    FloatPodsAreExact(rnd, rvr, maxRvr);
    CeilDivAtMost(mtn, AtLeastOne(maxMtn));
    CeilDivAtMost(rvr, AtLeastOne(maxRvr));
  }

  /**
   The update in floating point is the update in exact integers for all counts below 2^53,
   of which the sizes of in-memory maps fall far short.
   */
  lemma FloatUpdateIsExact(s: State, mtn: nat, rvr: nat, rnd: real -> real, env: Env)
    requires Rounding(rnd) && ExactRange(mtn, rvr, s.maxMtnNodesPerPod, s.maxRvrNodesPerPod)
    ensures FloatUpdate(s, mtn, rvr, rnd, env) == UpdateCounts(s, mtn, rvr, env)
  {
    FloatPodsExact(rnd, mtn, rvr, s.maxMtnNodesPerPod, s.maxRvrNodesPerPod);
    var pods := FloatPods(rnd, mtn, rvr, s.maxMtnNodesPerPod, s.maxRvrNodesPerPod);
    FloatTargetIsExact(rnd, mtn, pods);
    FloatTargetIsExact(rnd, rvr, pods);
  }

  class K8Manager {
    var replicas: int
    var file: seq<Line>
    var numNodePods: int
    var numMtnNodesPerPod: int
    var numRvrNodesPerPod: int
    var totalMtnNodes: int
    var totalRvrNodes: int
    var maxMtnNodesPerPod: int
    var maxRvrNodesPerPod: int
    var numFileErrors: int
    var panicked: bool

    /** Startup: the defaults, then the two maxima from the environment. */
    constructor (replicas: int, file: seq<Line>, maxMtn: EnvVar, maxRvr: EnvVar)
      ensures Init(View()) && this.replicas == replicas && this.file == file
      ensures maxMtnNodesPerPod == match maxMtn case Value(v) => Pin(v, 5, 1500) case _ => 750
      ensures maxRvrNodesPerPod == match maxRvr case Value(v) => Pin(v, 5, 4000) case _ => 2000
    {
      this.replicas, this.file := replicas, file;
      numNodePods, numMtnNodesPerPod, numRvrNodesPerPod, totalMtnNodes, totalRvrNodes := -1, -1, -1, -1, -1;
      maxMtnNodesPerPod, maxRvrNodesPerPod := 750, 2000;
      numFileErrors, panicked := 0, false;
      new;
      maxMtnNodesPerPod := ReadSingleEnvVarInt(maxMtn, maxMtnNodesPerPod, 5, 1500);
      maxRvrNodesPerPod := ReadSingleEnvVarInt(maxRvr, maxRvrNodesPerPod, 5, 4000);
    }

    ghost function View(): State
      reads this
    {
      State(replicas, file, numNodePods, numMtnNodesPerPod, numRvrNodesPerPod, totalMtnNodes, totalRvrNodes,
            maxMtnNodesPerPod, maxRvrNodesPerPod, numFileErrors, panicked)
    }

    /** The replica count, or -1 and an error. */
    method GetReplicaCount(env: Env) returns (replicaCnt: int, err: bool)
      ensures err == !env.readOk && replicaCnt == if err then -1 else replicas
    {
      if !env.readOk { return -1, true; }
      return replicas, false;
    }

    method UpdateReplicaCount(newReplicaCnt: int, env: Env)
      modifies this`replicas, this`numNodePods
      ensures View() == WithReplicas(old(View()), newReplicaCnt, env)
      ensures if env.clientReady && env.getOk && (ToInt32(newReplicaCnt) == old(replicas) || env.updateOk)
              then numNodePods == newReplicaCnt && replicas == ToInt32(newReplicaCnt)
              else numNodePods == old(numNodePods)
    {
      if !env.clientReady { return; }
      if !env.getOk { return; }
      var currReplicas := replicas;
      if ToInt32(newReplicaCnt) != currReplicas {
        if !env.updateOk {
          if env.appliedAnyway { replicas := ToInt32(newReplicaCnt); }
          return;
        }
        replicas := ToInt32(newReplicaCnt);
      }
      numNodePods := newReplicaCnt;
    }

    method UpdateNodesPerPod(newNumMtn: int, newNumRvr: int, env: Env)
      modifies this`file, this`numMtnNodesPerPod, this`numRvrNodesPerPod, this`numFileErrors, this`panicked
      ensures View() == WithTargets(old(View()), newNumMtn, newNumRvr, env)
      ensures if env.openOk && (env.dirMissing ==> env.mkdirOk)
              then numFileErrors == 0 && panicked == old(panicked)
                   && numMtnNodesPerPod == newNumMtn && numRvrNodesPerPod == newNumRvr
                   && (River(newNumRvr) in file <==> env.riverWritten)
                   && (Mountain(newNumMtn) in file <==> env.mountainWritten)
              else file == old(file) && numMtnNodesPerPod == old(numMtnNodesPerPod)
                   && numRvrNodesPerPod == old(numRvrNodesPerPod)
                   && (if old(numFileErrors) > 3 then panicked else numFileErrors == old(numFileErrors) + 1)
    {
      if env.dirMissing {
        if !env.mkdirOk {
          if numFileErrors > 3 {
            panicked := true;
            return;
          }
          numFileErrors := numFileErrors + 1;
          return;
        }
      }
      if !env.openOk {
        if numFileErrors > 3 {
          panicked := true;
          return;
        }
        numFileErrors := numFileErrors + 1;
        return;
      }
      numFileErrors := 0;
      file := [];
      if env.riverWritten { file := file + [River(newNumRvr)]; }
      if env.mountainWritten { file := file + [Mountain(newNumMtn)]; }
      numMtnNodesPerPod := newNumMtn;
      numRvrNodesPerPod := newNumRvr;
    }

    /** Recompute and publish; `rnd` is the floating-point rounding of the machine. */
    method UpdateNodeCounts(numMtnNodes: nat, numRvrNodes: nat, rnd: real -> real, env: Env)
      requires Rounding(rnd)
      modifies this
      ensures View() == FloatUpdate(old(View()), numMtnNodes, numRvrNodes, rnd, env)
      ensures if numMtnNodes + numRvrNodes == 0 then View() == old(View())
              else totalMtnNodes == numMtnNodes && totalRvrNodes == numRvrNodes
      ensures ExactRange(numMtnNodes, numRvrNodes, old(maxMtnNodesPerPod), old(maxRvrNodesPerPod))
              ==> View() == UpdateCounts(old(View()), numMtnNodes, numRvrNodes, env)
    {
      ghost var before := View();
      Recompute(numMtnNodes, numRvrNodes, rnd, env);
      if ExactRange(numMtnNodes, numRvrNodes, before.maxMtnNodesPerPod, before.maxRvrNodesPerPod) {
        FloatUpdateIsExact(before, numMtnNodes, numRvrNodes, rnd, env);
      }
    }

    /** The update in the machine's arithmetic; without nodes there is nothing to do. */
    method Recompute(numMtnNodes: nat, numRvrNodes: nat, rnd: real -> real, env: Env)
      requires Rounding(rnd)
      modifies this
      ensures View() == FloatUpdate(old(View()), numMtnNodes, numRvrNodes, rnd, env)
    {
      if numMtnNodes + numRvrNodes == 0 { return; }
      var newNumPods := ChoosePods(numMtnNodes, numRvrNodes, rnd);
      var newMtn := FloatTarget(rnd, numMtnNodes, newNumPods);
      var newRvr := FloatTarget(rnd, numRvrNodes, newNumPods);
      PublishCounts(numMtnNodes, numRvrNodes, newNumPods, newMtn, newRvr, env);
    }

    /** The part of the update that changes anything, in the order in which it does. */
    method PublishCounts(mtn: nat, rvr: nat, pods: int, newMtn: int, newRvr: int, env: Env)
      modifies this
      ensures var padding := if env.readOk then 0 else -1;
              View() == PublishValues(old(View()), mtn, rvr, pods, newMtn + padding, newRvr + padding, env)
    {
      totalRvrNodes := rvr;
      totalMtnNodes := mtn;
      UpdateReplicaCount(pods, env);
      PushTargets(newMtn, newRvr, env);
    }

    /** Write the targets: padded by the -1 of a failed replica read, otherwise only when they changed. */
    method PushTargets(mtn: int, rvr: int, env: Env)
      modifies this`file, this`numMtnNodesPerPod, this`numRvrNodesPerPod, this`numFileErrors, this`panicked
      ensures View() == if !env.readOk then WithTargets(old(View()), mtn - 1, rvr - 1, env)
                        else if rvr != old(numRvrNodesPerPod) || mtn != old(numMtnNodesPerPod)
                        then WithTargets(old(View()), mtn, rvr, env)
                        else old(View())
    {
      var newMtn, newRvr := mtn, rvr;
      var currNodeReplicas, err := GetReplicaCount(env);
      if err {
        newMtn := newMtn + currNodeReplicas;
        newRvr := newRvr + currNodeReplicas;
        UpdateNodesPerPod(newMtn, newRvr, env);
      } else {
        if newRvr != numRvrNodesPerPod || newMtn != numMtnNodesPerPod {
          UpdateNodesPerPod(newMtn, newRvr, env);
        }
      }
    }

    /** The pods to ask for: below 2^53 the exact number of module Scaling. */
    method ChoosePods(numMtnNodes: nat, numRvrNodes: nat, rnd: real -> real) returns (newNumPods: nat)
      requires Rounding(rnd)
      ensures newNumPods >= 1 && newNumPods == FloatPods(rnd, numMtnNodes, numRvrNodes, maxMtnNodesPerPod, maxRvrNodesPerPod)
      ensures ExactRange(numMtnNodes, numRvrNodes, maxMtnNodesPerPod, maxRvrNodesPerPod)
              ==> newNumPods == NumPods(numMtnNodes, numRvrNodes, maxMtnNodesPerPod, maxRvrNodesPerPod)
    {
      var numMtnReq := FloatPodsFor(rnd, numMtnNodes, maxMtnNodesPerPod);
      var numRvrReq := FloatPodsFor(rnd, numRvrNodes, maxRvrNodesPerPod);
      newNumPods := numMtnReq;
      if numRvrReq > newNumPods {
        newNumPods := numRvrReq;
      }
      if ExactRange(numMtnNodes, numRvrNodes, maxMtnNodesPerPod, maxRvrNodesPerPod) {
        FloatPodsExact(rnd, numMtnNodes, numRvrNodes, maxMtnNodesPerPod, maxRvrNodesPerPod);
      }
    }

    method DoSetMaxNodesPerPod(askMtn: int, askRvr: int)
      requires !panicked
      modifies this`maxMtnNodesPerPod, this`maxRvrNodesPerPod
      ensures View() == Step(old(View()), SetMax(askMtn, askRvr))
      ensures maxMtnNodesPerPod == Pin(askMtn, 2, 750) && maxRvrNodesPerPod == Pin(askRvr, 2, 2000)
    {
      var ok;
      maxMtnNodesPerPod, ok := PinNumNodes(askMtn, 2, 750);
      maxRvrNodesPerPod, ok := PinNumNodes(askRvr, 2, 2000);
    }
  }
}
