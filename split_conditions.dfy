/**
 * `CommonRowPartitioner::FindSplitConditions`: turns the split threshold of
 * every frontier node into a global bin id by an exact-match scan of that
 * feature's cut values. `-1` means that no cut value equals the threshold
 * (the threshold lies below every cut point).
 */
module SplitConditions {
  import opened Arith
  import opened Tree

  /**
   * The cut table: feature `f` owns the global bin ids
   * `[ptrs[f], ptrs[f + 1])` and `values[i]` is the cut value of bin `i`.
   */
  datatype Cuts = Cuts(ptrs: seq<nat>, values: seq<int>)

  /** Every pointer is a `uint32_t` and stays inside the value table. */
  predicate WellFormed(cuts: Cuts)
  {
    forall j :: 0 <= j < |cuts.ptrs| ==> cuts.ptrs[j] <= |cuts.values| && cuts.ptrs[j] < 0x1_0000_0000
  }

  /** Every frontier node's split feature has an entry in the cut table. */
  predicate FeaturesInCuts(nodes: seq<nat>, tree: RegTree, cuts: Cuts)
  {
    && NodesInTree(nodes, tree)
    && forall i :: 0 <= i < |nodes| ==> tree[nodes[i]].splitIndex + 1 < |cuts.ptrs|
  }

  /**
   * The largest index in `[lo, hi)` whose value equals `pt`, or `-1` when
   * there is none: later matches overwrite earlier ones in the scan.
   */
  function LastMatch(values: seq<int>, lo: nat, hi: nat, pt: int): (r: int)
    requires hi <= |values|
    ensures r == -1 <==> forall j :: lo <= j < hi ==> values[j] != pt
    ensures r != -1 ==> lo <= r < hi && values[r] == pt
    ensures r != -1 ==> forall j :: r < j < hi ==> values[j] != pt
    decreases hi
  {
    if hi <= lo then -1
    else if values[hi - 1] == pt then hi - 1
    else LastMatch(values, lo, hi - 1, pt)
  }

  /** The inner loop of `FindSplitConditions`: scan `[lo, hi)` for `pt`. */
  method ResolveSplitBin(values: seq<int>, lo: nat, hi: nat, pt: int) returns (splitCond: int)
    requires lo <= |values| && hi <= |values|
    ensures splitCond == LastMatch(values, lo, hi, pt)
  {
    splitCond := -1;
    var bound := lo;
    while bound < hi
      invariant lo <= bound <= |values|
      invariant bound > lo ==> bound <= hi
      invariant splitCond == LastMatch(values, lo, bound, pt)
    {
      if pt == values[bound] {
        splitCond := bound;
      }
      bound := bound + 1;
    }
  }

  /**
   * The CHECK before the scan: `ptrs[f + 1]`, the exclusive end of the
   * feature's bin range (one past its last bin id), is below `INT32_MAX`.
   */
  predicate BinIdFits(tree: RegTree, cuts: Cuts, nid: nat)
    requires nid < |tree| && tree[nid].splitIndex + 1 < |cuts.ptrs|
  {
    cuts.ptrs[tree[nid].splitIndex + 1] < INT32_MAX
  }

  /**
   * The bin id node `nid` is split at: `-1`, or a bin of the node's split
   * feature whose cut value equals the threshold, small enough for `int32_t`
   * when the CHECK passes.
   */
  function NodeSplitBin(tree: RegTree, cuts: Cuts, nid: nat): (r: int)
    requires WellFormed(cuts)
    requires nid < |tree| && tree[nid].splitIndex + 1 < |cuts.ptrs|
    ensures var f := tree[nid].splitIndex;
      || r == -1
      || (cuts.ptrs[f] <= r < cuts.ptrs[f + 1] && cuts.values[r] == tree[nid].splitCond)
    ensures BinIdFits(tree, cuts, nid) ==> -1 <= r < INT32_MAX
  {
    var f := tree[nid].splitIndex;
    LastMatch(cuts.values, cuts.ptrs[f], cuts.ptrs[f + 1], tree[nid].splitCond)
  }

  /**
   * `FindSplitConditions`: writes the split bin of node `nodes[i]` into
   * `splitConditions[i]`, node by node. `done` is the number of nodes written:
   * `|nodes|`, or the index of the first node whose feature fails the
   * `int32_t` CHECK (which aborts before writing that node).
   */
  method FindSplitConditions(nodes: seq<nat>, tree: RegTree, cuts: Cuts, splitConditions: array<int>)
    returns (done: nat)
    requires WellFormed(cuts)
    requires FeaturesInCuts(nodes, tree, cuts)
    requires |nodes| <= splitConditions.Length
    modifies splitConditions
    ensures done <= |nodes|
    ensures forall i :: 0 <= i < done ==> BinIdFits(tree, cuts, nodes[i])
    ensures done < |nodes| ==> !BinIdFits(tree, cuts, nodes[done])
    ensures forall i :: 0 <= i < done ==> splitConditions[i] == NodeSplitBin(tree, cuts, nodes[i])
    ensures forall i :: done <= i < splitConditions.Length ==> splitConditions[i] == old(splitConditions[i])
  {
    done := 0;
    while done < |nodes|
      invariant done <= |nodes|
      invariant forall i :: 0 <= i < done ==> BinIdFits(tree, cuts, nodes[i])
      invariant forall i :: 0 <= i < done ==> splitConditions[i] == NodeSplitBin(tree, cuts, nodes[i])
      invariant forall i :: done <= i < splitConditions.Length ==> splitConditions[i] == old(splitConditions[i])
    {
      var nid := nodes[done];
      var f := tree[nid].splitIndex;
      var lowerBound, upperBound := cuts.ptrs[f], cuts.ptrs[f + 1];
      if !(upperBound < INT32_MAX) {
        return;
      }
      var splitCond := ResolveSplitBin(cuts.values, lowerBound, upperBound, tree[nid].splitCond);
      splitConditions[done] := splitCond;
      done := done + 1;
    }
  }

  /** Cut values of a feature strictly increase, as the quantile sketch produces them. */
  predicate StrictlyIncreasing(values: seq<int>, lo: nat, hi: nat)
    requires hi <= |values|
  {
    forall i, j :: lo <= i < j < hi ==> values[i] < values[j]
  }

  /** A threshold equal to a cut value resolves to exactly that cut's bin id. */
  lemma ExactCutResolves(values: seq<int>, lo: nat, hi: nat, j: nat)
    requires hi <= |values| && lo <= j < hi
    requires StrictlyIncreasing(values, lo, hi)
    ensures LastMatch(values, lo, hi, values[j]) == j
  {
  }

  /** A threshold below the feature's smallest cut value resolves to the sentinel. */
  lemma BelowAllCutsResolvesToSentinel(values: seq<int>, lo: nat, hi: nat, pt: int)
    requires hi <= |values| && lo < hi
    requires StrictlyIncreasing(values, lo, hi)
    requires pt < values[lo]
    ensures LastMatch(values, lo, hi, pt) == -1
  {
    forall j | lo <= j < hi ensures values[j] != pt {
      if j > lo {
        assert values[lo] < values[j];
      }
    }
  }
}
