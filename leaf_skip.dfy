/**
 * The predicates `CommonRowPartitioner::LeafPartition` hands to the leaf
 * assignment pass: row `idx` (a global row id) may be skipped when its
 * second-order weight is zero. Row ids of this partitioner start at
 * `base_rowid`, so the row's weights sit at position `idx - base_rowid`.
 * Whether a hessian is zero is left abstract (`isZero`).
 */
module LeafSkip {

  /** `GradientPair`: first- and second-order weight of one row and target. */
  datatype GradientPair<T> = GradientPair(grad: T, hess: T)

  /** The global row id `idx` is one of the `numRows` rows starting at `base`. */
  predicate InWindow(base: nat, numRows: nat, idx: nat)
  {
    base <= idx < base + numRows
  }

  /** The overload taking a span of hessians. */
  function SkipByHess<T>(hess: seq<T>, base: nat, idx: nat, isZero: T -> bool): (r: bool)
    requires InWindow(base, |hess|, idx)
    ensures r <==> exists k :: 0 <= k < |hess| && base + k == idx && isZero(hess[k])
  {
    isZero(hess[idx - base])
  }

  /** The overload taking a span of gradient pairs (one target). */
  function SkipByGpair<T>(gpair: seq<GradientPair<T>>, base: nat, idx: nat, isZero: T -> bool): (r: bool)
    requires InWindow(base, |gpair|, idx)
    ensures r <==> exists k :: 0 <= k < |gpair| && base + k == idx && isZero(gpair[k].hess)
  {
    isZero(gpair[idx - base].hess)
  }

  /** `std::all_of` over one row's targets: every hessian is zero. */
  function AllHessZero<T>(sample: seq<GradientPair<T>>, isZero: T -> bool): (r: bool)
    ensures r <==> forall t :: 0 <= t < |sample| ==> isZero(sample[t].hess)
  {
    if |sample| == 0 then true
    else
      assert forall t :: 1 <= t < |sample| ==> sample[t] == sample[1..][t - 1];
      isZero(sample[0].hess) && AllHessZero(sample[1..], isZero)
  }

  /** A `rows x targets` gradient matrix with at least one target. */
  predicate IsMatrix<T>(gpair: seq<seq<GradientPair<T>>>, nTargets: nat)
  {
    && nTargets >= 1
    && forall i :: 0 <= i < |gpair| ==> |gpair[i]| == nTargets
  }

  /**
   * The overload taking a gradient matrix: with several targets the row is
   * skipped only if every target's hessian is zero; with one target the
   * shortcut reads column 0, which is the same rule.
   */
  function SkipByMatrix<T>(gpair: seq<seq<GradientPair<T>>>, nTargets: nat, base: nat, idx: nat,
                           isZero: T -> bool): (r: bool)
    requires IsMatrix(gpair, nTargets)
    requires InWindow(base, |gpair|, idx)
    ensures var row := gpair[idx - base]; r <==> forall t :: 0 <= t < |row| ==> isZero(row[t].hess)
  {
    if nTargets > 1 then AllHessZero(gpair[idx - base], isZero)
    else isZero(gpair[idx - base][0].hess)
  }

  /** A single-target matrix routes like the span of its only column. */
  lemma SingleTargetMatrixAgrees<T>(gpair: seq<GradientPair<T>>, base: nat, idx: nat, isZero: T -> bool)
    requires InWindow(base, |gpair|, idx)
    ensures var m := seq(|gpair|, i requires 0 <= i < |gpair| => [gpair[i]]);
      IsMatrix(m, 1) && SkipByMatrix(m, 1, base, idx, isZero) == SkipByGpair(gpair, base, idx, isZero)
  {
  }

  /** The hessian span overload agrees with the gradient-pair overload on the same hessians. */
  lemma HessSpanAgrees<T>(hess: seq<T>, gpair: seq<GradientPair<T>>, base: nat, idx: nat, isZero: T -> bool)
    requires |hess| == |gpair|
    requires forall i :: 0 <= i < |gpair| ==> hess[i] == gpair[i].hess
    requires InWindow(base, |gpair|, idx)
    ensures SkipByHess(hess, base, idx, isZero) == SkipByGpair(gpair, base, idx, isZero)
  {
  }
}
