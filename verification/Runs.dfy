/** Induction over runs of a clocked machine. */
module Runs {

  /** What holds at first and survives every step holds throughout a run. */
  lemma {:induction false} Throughout<S(!new), I(!new)>(inv: S -> bool, step: (S, I, S) -> bool,
                                                        run: seq<S>, ins: seq<I>, k: nat)
    requires |run| == |ins| + 1 && k < |run| && inv(run[0])
    requires forall j | 0 <= j < |ins| :: step(run[j], ins[j], run[j + 1])
    requires forall s, i, t :: inv(s) && step(s, i, t) ==> inv(t)
    ensures inv(run[k])
    decreases k
  {
    if k > 0 { Throughout(inv, step, run, ins, k - 1); }
  }
}
