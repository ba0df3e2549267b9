/** The mutable weighted automaton that the aligner builds arc by arc
    (pynini's `Fst` over the tropical semiring): one list of outgoing arcs
    per state, an optional start state and a map of final weights. */
module Automaton {

  /** No start state has been set (OpenFst's `kNoStateId`). */
  const NoState: int := -1

  /** The tropical semiring's multiplicative identity, `Weight.one`. */
  const One: real := 0.0

  datatype Arc = Arc(ilabel: int, olabel: int, weight: real, nextstate: int)

  /** Total number of arcs over all states. */
  function TotalArcs(arcs: seq<seq<Arc>>): nat {
    if arcs == [] then 0 else TotalArcs(arcs[..|arcs| - 1]) + |arcs[|arcs| - 1]|
  }

  /** The total bounds every state's own count, and it is zero exactly when
      no state has an arc. */
  lemma {:induction false} TotalArcsBounds(arcs: seq<seq<Arc>>)
    ensures forall s :: 0 <= s < |arcs| ==> |arcs[s]| <= TotalArcs(arcs)
    ensures TotalArcs(arcs) == 0 <==> forall s :: 0 <= s < |arcs| ==> arcs[s] == []
  {
    if arcs != [] {
      var n := |arcs| - 1;
      TotalArcsBounds(arcs[..n]);
      assert forall s :: 0 <= s < n ==> arcs[..n][s] == arcs[s];
    }
  }

  /** Adding one arc to one state adds exactly one to the total. */
  lemma {:induction false} TotalArcsAddArc(arcs: seq<seq<Arc>>, s: nat, a: Arc)
    requires s < |arcs|
    ensures TotalArcs(arcs[s := arcs[s] + [a]]) == TotalArcs(arcs) + 1
  {
    var updated := arcs[s := arcs[s] + [a]];
    var n := |arcs| - 1;
    assert updated[..n] == if s == n then arcs[..n] else arcs[..n][s := arcs[s] + [a]];
    if s < n {
      TotalArcsAddArc(arcs[..n], s, a);
    }
  }

  /** A new state has no arcs, so the total does not change. */
  lemma TotalArcsAddState(arcs: seq<seq<Arc>>)
    ensures TotalArcs(arcs + [[]]) == TotalArcs(arcs)
  {
    assert (arcs + [[]])[..|arcs|] == arcs;
  }

  /** The checks of OpenFst's `Verify` that can fail for a vector FST:
      a start state once there are states, start and arc targets in range,
      non-negative labels and final states in range. */
  predicate Verified(arcs: seq<seq<Arc>>, start: int, finals: map<nat, real>) {
    && (start == NoState ==> |arcs| == 0)
    && start < |arcs|
    && (forall s :: s in finals ==> s < |arcs|)
    && forall s, k :: 0 <= s < |arcs| && 0 <= k < |arcs[s]| ==>
         var a := arcs[s][k];
         a.ilabel >= 0 && a.olabel >= 0 && 0 <= a.nextstate < |arcs|
  }

  class Fst {
    var arcs: seq<seq<Arc>>
    var start: int
    var finals: map<nat, real>

    /** An empty automaton: no states, no start state. */
    constructor ()
      ensures arcs == [] && start == NoState && finals == map[]
    {
      arcs := [];
      start := NoState;
      finals := map[];
    }

    predicate Verify()
      reads this
    {
      Verified(arcs, start, finals)
    }

    /** `add_state`: the new state is numbered after the existing ones. */
    method AddState() returns (s: nat)
      modifies this
      ensures s == old(|arcs|) && arcs == old(arcs) + [[]]
      ensures start == old(start) && finals == old(finals)
    {
      s := |arcs|;
      arcs := arcs + [[]];
    }

    /** `set_start` on an existing state. */
    method SetStart(s: nat)
      requires s < |arcs|
      modifies this
      ensures start == s && arcs == old(arcs) && finals == old(finals)
    {
      start := s;
    }

    /** `add_arc` on an existing state appends to that state's arcs only. */
    method AddArc(s: nat, a: Arc)
      requires s < |arcs|
      modifies this
      ensures arcs == old(arcs)[s := old(arcs)[s] + [a]]
      ensures start == old(start) && finals == old(finals)
    {
      arcs := arcs[s := arcs[s] + [a]];
    }

    /** `set_final` on an existing state, with weight `w`. */
    method SetFinal(s: nat, w: real)
      requires s < |arcs|
      modifies this
      ensures finals == old(finals)[s := w]
      ensures arcs == old(arcs) && start == old(start)
    {
      finals := finals[s := w];
    }
  }
}
