/**
 Pod-scaling arithmetic: how many console-node pods are requested, how many nodes of a
 class each pod should take, and what that guarantees about hard maxima and coverage.
 */
module Scaling {
  import opened FiniteSets

  /** Rounded-up quotient. */
  function CeilDiv(n: nat, d: nat): nat
    requires d >= 1
  {
    (n + d - 1) / d
  }

  lemma ProductMonotone(a: nat, b: nat, c: nat)
    requires a <= b
    ensures a * c <= b * c
  {
  }

  lemma CeilDivBounds(n: nat, d: nat)
    requires d >= 1
    ensures n <= CeilDiv(n, d) * d < n + d
  {
    assert n + d - 1 == d * CeilDiv(n, d) + (n + d - 1) % d;
  }

  /** Rounding up is the least number of groups of `d` that hold `n`. */
  lemma CeilDivLeast(n: nat, d: nat, k: nat)
    requires d >= 1
    ensures CeilDiv(n, d) <= k <==> n <= k * d
  {
    var q := CeilDiv(n, d);
    CeilDivBounds(n, d);
    if q <= k {
      ProductMonotone(q, k, d);
    } else {
      ProductMonotone(k + 1, q, d);
      assert (k + 1) * d == k * d + d;
    }
  }

  /** The divisor is never below one, whatever the configured maximum. */
  function AtLeastOne(m: int): nat {
    if m < 1 then 1 else m
  }

  /** Pods needed for one class: one more than the fewest that hold it. */
  function PodsFor(n: nat, max: int): nat {
    CeilDiv(n, AtLeastOne(max)) + 1
  }

  function NumPods(mtn: nat, rvr: nat, maxMtn: int, maxRvr: int): nat {
    var numMtnReq, numRvrReq := PodsFor(mtn, maxMtn), PodsFor(rvr, maxRvr);
    if numRvrReq > numMtnReq then numRvrReq else numMtnReq
  }

  /**
   Nodes of a class per pod. When the replica count could not be read it is -1, and the
   padding added in that case takes the slack away again.
   */
  function Target(n: nat, pods: nat, readFailed: bool): nat
    requires pods >= 1
  {
    CeilDiv(n, pods) + if readFailed then 0 else 1
  }

  // ---------- The number of pods ----------

  /**
   Losing any one pod leaves room for every node at the hard maxima, and losing two does
   not for at least one class: one spare pod, no more.
   */
  lemma PodsAreResilientAndMinimal(mtn: nat, rvr: nat, maxMtn: int, maxRvr: int)
    requires mtn + rvr > 0
    ensures var p := NumPods(mtn, rvr, maxMtn, maxRvr);
            && p >= 2
            && mtn <= (p - 1) * AtLeastOne(maxMtn) && rvr <= (p - 1) * AtLeastOne(maxRvr)
            && ((p - 2) * AtLeastOne(maxMtn) < mtn || (p - 2) * AtLeastOne(maxRvr) < rvr)
  {
    var p, a, b := NumPods(mtn, rvr, maxMtn, maxRvr), AtLeastOne(maxMtn), AtLeastOne(maxRvr);
    CeilDivLeast(mtn, a, 0);
    CeilDivLeast(rvr, b, 0);
    CeilDivLeast(mtn, a, p - 1);
    CeilDivLeast(rvr, b, p - 1);
    CeilDivLeast(mtn, a, p - 2);
    CeilDivLeast(rvr, b, p - 2);
  }

  lemma CeilDivMonotone(n: nat, d: nat, n': nat, d': nat)
    requires n <= n' && 1 <= d' <= d
    ensures CeilDiv(n, d) <= CeilDiv(n', d')
  {
    var q := CeilDiv(n', d');
    CeilDivLeast(n', d', q);
    assert q * d' <= q * d;
    CeilDivLeast(n, d, q);
  }

  /** A maximum that is zero or negative acts as one: a pod per node and one more. */
  lemma NonPositiveMaximumIsOne(n: nat, max: int)
    requires max < 1
    ensures PodsFor(n, max) == n + 1
  {
    CeilDivLeast(n, 1, n);
    if n > 0 { CeilDivLeast(n, 1, n - 1); }
  }

  /** More nodes never need fewer pods, and larger maxima never need more. */
  lemma PodsAreMonotone(mtn: nat, rvr: nat, maxMtn: int, maxRvr: int,
                        mtn': nat, rvr': nat, maxMtn': int, maxRvr': int)
    requires mtn <= mtn' && rvr <= rvr' && maxMtn' <= maxMtn && maxRvr' <= maxRvr
    ensures NumPods(mtn, rvr, maxMtn, maxRvr) <= NumPods(mtn', rvr', maxMtn', maxRvr')
  {
    CeilDivMonotone(mtn, AtLeastOne(maxMtn), mtn', AtLeastOne(maxMtn'));
    CeilDivMonotone(rvr, AtLeastOne(maxRvr), rvr', AtLeastOne(maxRvr'));
  }

  /** Conversion to a 32-bit integer, with wrap-around. */
  function ToInt32(n: int): int {
    (n + 0x8000_0000) % 0x1_0000_0000 - 0x8000_0000
  }

  /** The conversion keeps a count exactly when it fits, and otherwise is off by a multiple of 2^32. */
  lemma ToInt32IsExactInRange(n: int)
    ensures -0x8000_0000 <= ToInt32(n) < 0x8000_0000
    ensures (n - ToInt32(n)) % 0x1_0000_0000 == 0
    ensures ToInt32(n) == n <==> -0x8000_0000 <= n < 0x8000_0000
  {
    var q := (n + 0x8000_0000) / 0x1_0000_0000;
    assert n - ToInt32(n) == q * 0x1_0000_0000;
  }

  /** The replica count survives its conversion to 32 bits for every realistic inventory. */
  lemma PodsFitInt32(mtn: nat, rvr: nat, maxMtn: int, maxRvr: int)
    requires mtn <= 0x7FFF_FFFE && rvr <= 0x7FFF_FFFE
    ensures ToInt32(NumPods(mtn, rvr, maxMtn, maxRvr)) == NumPods(mtn, rvr, maxMtn, maxRvr)
  {
    assert mtn <= mtn * AtLeastOne(maxMtn) && rvr <= rvr * AtLeastOne(maxRvr);
    CeilDivLeast(mtn, AtLeastOne(maxMtn), mtn);
    CeilDivLeast(rvr, AtLeastOne(maxRvr), rvr);
  }

  // ---------- The hard maximum per pod ----------

  /** With the slack, a target stays within the maximum exactly when the pods hold one fewer each. */
  lemma TargetWithin(n: nat, pods: nat, max: nat)
    requires pods >= 1 && max >= 1
    ensures Target(n, pods, false) <= max <==> n <= pods * (max - 1)
  {
    CeilDivLeast(n, pods, max - 1);
    assert (max - 1) * pods == pods * (max - 1);
  }

  /** The slots that stay free when `n` nodes fill the fewest pods possible. */
  function Spare(n: nat, max: nat): int
    requires max >= 1
  {
    CeilDiv(n, max) * max - n
  }

  lemma OneMorePodOfSlack(k: nat, max: nat)
    ensures (k + 1) * (max - 1) == k * max - k + max - 1
  {
  }

  lemma OwnClassSuffices(n: nat, max: nat, pods: nat)
    requires max >= 1 && pods >= PodsFor(n, max)
    requires CeilDiv(n, max) < max + Spare(n, max)
    ensures Target(n, pods, false) <= max
  {
    var k := CeilDiv(n, max);
    OneMorePodOfSlack(k, max);
    ProductMonotone(k + 1, pods, max - 1);
    TargetWithin(n, pods, max);
  }

  /**
   The hard maximum holds whatever the other class asks for, if and only if the fewest
   pods that hold the class number less than its maximum plus their spare slots.
   */
  lemma HardMaximumExactly(n: nat, max: nat)
    requires max >= 1
    ensures (forall other: nat, maxOther: int :: Target(n, NumPods(n, other, max, maxOther), false) <= max)
            <==> CeilDiv(n, max) < max + Spare(n, max)
    ensures (forall other: nat, maxOther: int :: Target(n, NumPods(other, n, maxOther, max), false) <= max)
            <==> CeilDiv(n, max) < max + Spare(n, max)
  {
    var k := CeilDiv(n, max);
    if k < max + Spare(n, max) {
      forall other: nat, maxOther: int
        ensures Target(n, NumPods(n, other, max, maxOther), false) <= max
        ensures Target(n, NumPods(other, n, maxOther, max), false) <= max
      {
        OwnClassSuffices(n, max, NumPods(n, other, max, maxOther));
        OwnClassSuffices(n, max, NumPods(other, n, maxOther, max));
      }
    } else {
      CeilDivLeast(0, 1, 0);
      assert NumPods(n, 0, max, 1) == k + 1 == NumPods(0, n, 1, max);
      OneMorePodOfSlack(k, max);
      TargetWithin(n, k + 1, max);
      assert Target(n, NumPods(n, 0, max, 1), false) > max;
      assert Target(n, NumPods(0, n, 1, max), false) > max;
    }
  }

  /** Every count below the square of its maximum is safe, whatever the other class is. */
  lemma BelowSquareIsSafe(n: nat, max: nat)
    requires max >= 2 && n < max * max
    ensures CeilDiv(n, max) < max + Spare(n, max)
    ensures forall other: nat, maxOther: int :: Target(n, NumPods(n, other, max, maxOther), false) <= max
    ensures forall other: nat, maxOther: int :: Target(n, NumPods(other, n, maxOther, max), false) <= max
  {
    var k := CeilDiv(n, max);
    CeilDivLeast(n, max, max);
    CeilDivLeast(n, max, k);
    HardMaximumExactly(n, max);
  }

  /** The square itself breaks the hard maximum by one, unless the other class asks for more pods. */
  lemma SquareBreaksTheMaximum(max: nat, other: nat, maxOther: int)
    requires max >= 1 && PodsFor(other, maxOther) <= max + 1
    ensures Target(max * max, NumPods(max * max, other, max, maxOther), false) == max + 1
    ensures Target(max * max, NumPods(other, max * max, maxOther, max), false) == max + 1
  {
    var n := max * max;
    CeilDivLeast(n, max, max);
    assert (max - 1) * max == n - max;
    CeilDivLeast(n, max, max - 1);
    assert CeilDiv(n, max) == max;
    assert (max - 1) * (max + 1) == n - 1;
    assert max * (max + 1) == n + max;
    CeilDivLeast(n, max + 1, max - 1);
    CeilDivLeast(n, max + 1, max);
  }

  /** Without the slack, when the replica count could not be read, the maximum holds for every count. */
  lemma ReadErrorKeepsTheMaximum(mtn: nat, rvr: nat, maxMtn: int, maxRvr: int)
    ensures Target(mtn, NumPods(mtn, rvr, maxMtn, maxRvr), true) <= AtLeastOne(maxMtn)
    ensures Target(rvr, NumPods(mtn, rvr, maxMtn, maxRvr), true) <= AtLeastOne(maxRvr)
  {
    PodsHold(mtn, NumPods(mtn, rvr, maxMtn, maxRvr), maxMtn);
    PodsHold(rvr, NumPods(mtn, rvr, maxMtn, maxRvr), maxRvr);
  }

  lemma PodsHold(n: nat, pods: nat, max: int)
    requires pods >= PodsFor(n, max)
    ensures CeilDiv(n, pods) <= AtLeastOne(max)
  {
    var a, k := AtLeastOne(max), CeilDiv(n, AtLeastOne(max));
    CeilDivLeast(n, a, k);
    assert k * a <= pods * a == a * pods;
    CeilDivLeast(n, pods, a);
  }

  // ---------- Coverage ----------

  /** The nodes of a class that a pod has claimed. */
  function OnPod(claims: map<string, nat>, pod: nat): set<string> {
    set n | n in claims && claims[n] == pod
  }

  /** Every claimed node is on an existing pod and no pod exceeds its target. */
  ghost predicate Respects(claims: map<string, nat>, pods: nat, target: nat) {
    && (forall n :: n in claims ==> claims[n] < pods)
    && (forall p: nat :: p < pods ==> |OnPod(claims, p)| <= target)
  }

  /** Slots free on the first `pods` pods. */
  function Free(claims: map<string, nat>, pods: nat, target: nat): int {
    if pods == 0 then 0
    else Free(claims, pods - 1, target) + target - |OnPod(claims, pods - 1)|
  }

  lemma {:induction false} FreeCounts(claims: map<string, nat>, pods: nat, target: nat)
    ensures Free(claims, pods, target) == pods * target - |set n | n in claims && claims[n] < pods|
  {
    var below := set n | n in claims && claims[n] < pods;
    if pods > 0 {
      FreeCounts(claims, pods - 1, target);
      var rest := set n | n in claims && claims[n] < pods - 1;
      var here := OnPod(claims, pods - 1);
      assert below == rest + here && rest !! here;
      assert |below| == |rest| + |here|;
      assert (pods - 1) * target + target == pods * target;
    } else {
      assert below == {};
    }
  }

  lemma {:induction false} SomePodHasRoom(claims: map<string, nat>, pods: nat, target: nat) returns (p: nat)
    requires Free(claims, pods, target) > 0
    ensures p < pods && |OnPod(claims, p)| < target
  {
    if |OnPod(claims, pods - 1)| < target {
      p := pods - 1;
    } else {
      p := SomePodHasRoom(claims, pods - 1, target);
    }
  }

  /** Together the pods' targets exceed the class by a slot per pod, or hold it without the slack. */
  lemma TargetsHoldTheClass(n: nat, pods: nat, readFailed: bool)
    requires pods >= 1
    ensures pods * Target(n, pods, readFailed) >= n + if readFailed then 0 else pods
  {
    var c := CeilDiv(n, pods);
    CeilDivLeast(n, pods, c);
    assert pods * (c + 1) == c * pods + pods;
  }

  lemma MorePodsHold(n: nat, pods: nat, readFailed: bool, replicas: int)
    requires 1 <= pods <= replicas
    ensures replicas * Target(n, pods, readFailed) >= n
  {
    TargetsHoldTheClass(n, pods, readFailed);
    var t := Target(n, pods, readFailed);
    assert pods * t <= replicas * t;
  }

  lemma FreeSlots(claims: map<string, nat>, pods: nat, target: nat)
    requires Respects(claims, pods, target)
    ensures Free(claims, pods, target) == pods * target - |claims.Keys|
  {
    FreeCounts(claims, pods, target);
    assert (set n | n in claims && claims[n] < pods) == claims.Keys;
  }

  /**
   While a node of the class is unclaimed, at least one slot more than there are pods is
   free in the normal case, and at least one slot when the replica count could not be read.
   */
  lemma UnclaimedLeavesRoom(nodes: set<string>, claims: map<string, nat>, pods: nat, readFailed: bool)
    requires pods >= 1 && claims.Keys < nodes
    requires Respects(claims, pods, Target(|nodes|, pods, readFailed))
    ensures Free(claims, pods, Target(|nodes|, pods, readFailed)) >= if readFailed then 1 else pods + 1
  {
    TargetsHoldTheClass(|nodes|, pods, readFailed);
    ProperSubsetIsSmaller(claims.Keys, nodes);
    FreeSlots(claims, pods, Target(|nodes|, pods, readFailed));
  }

  lemma LoadAfterClaim(claims: map<string, nat>, x: string, p: nat, q: nat)
    requires x !in claims
    ensures |OnPod(claims[x := p], q)| == |OnPod(claims, q)| + if q == p then 1 else 0
  {
    var before, after := OnPod(claims, q), OnPod(claims[x := p], q);
    if q == p {
      assert after == before + {x};
    } else {
      assert after == before;
    }
  }

  lemma ClaimOne(claims: map<string, nat>, pods: nat, target: nat, x: string, p: nat)
    requires Respects(claims, pods, target) && x !in claims && p < pods && |OnPod(claims, p)| < target
    ensures Respects(claims[x := p], pods, target)
  {
    var next := claims[x := p];
    forall q: nat | q < pods ensures |OnPod(next, q)| <= target {
      LoadAfterClaim(claims, x, p, q);
    }
  }

  /**
   However the pods have claimed nodes so far, as long as each keeps to its target, the
   remaining nodes can all still be claimed: the targets never orphan a node.
   */
  lemma {:induction false} ClaimingCanAlwaysFinish(
    nodes: set<string>, claims: map<string, nat>, pods: nat, readFailed: bool) returns (full: map<string, nat>)
    requires pods >= 1 && claims.Keys <= nodes
    requires Respects(claims, pods, Target(|nodes|, pods, readFailed))
    ensures full.Keys == nodes && Respects(full, pods, Target(|nodes|, pods, readFailed))
    ensures forall n :: n in claims ==> full[n] == claims[n]
    decreases nodes - claims.Keys
  {
    if claims.Keys == nodes {
      full := claims;
    } else {
      UnclaimedLeavesRoom(nodes, claims, pods, readFailed);
      var p := SomePodHasRoom(claims, pods, Target(|nodes|, pods, readFailed));
      var x :| x in nodes && x !in claims;
      ClaimOne(claims, pods, Target(|nodes|, pods, readFailed), x, p);
      assert x in nodes - claims.Keys && x !in nodes - claims[x := p].Keys;
      full := ClaimingCanAlwaysFinish(nodes, claims[x := p], pods, readFailed);
    }
  }
}
