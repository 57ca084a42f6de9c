/** Selections from a list: which positions were kept, in which order, and how often. */
module Sublists {

  ghost predicate Increasing(ps: seq<nat>) {
    forall i, j :: 0 <= i < j < |ps| ==> ps[i] < ps[j]
  }

  /** `part` is `whole` at the positions `ps`: in order, and no position twice. */
  ghost predicate Picks<T>(whole: seq<T>, ps: seq<nat>, part: seq<T>) {
    && |ps| == |part| && Increasing(ps)
    && (forall i :: 0 <= i < |ps| ==> ps[i] < |whole| && part[i] == whole[ps[i]])
  }

  /** A selection from all but the last element, continued by the last one or not. */
  lemma PickOrSkip<T>(whole: seq<T>, ps: seq<nat>, part: seq<T>, pick: bool) returns (qs: seq<nat>)
    requires whole != [] && Picks(whole[..|whole| - 1], ps, part)
    ensures Picks(whole, qs, part + if pick then [whole[|whole| - 1]] else [])
    ensures forall j :: j in qs <==> j in ps || (pick && j == |whole| - 1)
  {
    qs := ps + if pick then [|whole| - 1] else [];
  }

  /** A selection from a selection. */
  lemma PicksThrough<T>(whole: seq<T>, ps: seq<nat>, middle: seq<T>, qs: seq<nat>, part: seq<T>) returns (rs: seq<nat>)
    requires Picks(whole, ps, middle) && Picks(middle, qs, part)
    ensures Picks(whole, rs, part)
    ensures forall r :: r in rs <==> exists q :: q in qs && ps[q] == r
  {
    rs := seq(|qs|, i requires 0 <= i < |qs| => ps[qs[i]]);
    forall r | r in rs ensures exists q :: q in qs && ps[q] == r {
      var i :| 0 <= i < |rs| && rs[i] == r;
      assert qs[i] in qs;
    }
    forall q | q in qs ensures ps[q] in rs {
      var i :| 0 <= i < |qs| && qs[i] == q;
      assert rs[i] == ps[q];
    }
  }
}
