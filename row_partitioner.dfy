/**
 * `CommonRowPartitioner`: owns the row-index array and the row-set
 * collection of one data batch, and after every round of splits moves each
 * frontier node's rows into its two children.
 */
module RowPartitioner {
  import opened Tree
  import opened SplitConditions
  import opened WorkUnits
  import opened RowSet
  import opened ByteVectors
  import opened ColumnSplit
  import opened LeafSkip

  /** Node `nid`'s right child is its left child plus one (the CHECK in `AddSplitsToRowSet`). */
  predicate Adjacent(tree: RegTree, nid: nat)
    requires nid < |tree|
  {
    tree[nid].leftChild + 1 == tree[nid].rightChild
  }

  /** `id` is a child of node `nid`. */
  predicate IsChildOf(tree: RegTree, nid: nat, id: int)
    requires nid < |tree|
  {
    id == tree[nid].leftChild || id == tree[nid].rightChild
  }

  /**
   * The children of the frontier are new: none is live yet, and no two
   * frontier nodes share a child.
   */
  predicate ChildrenFresh(rs: RowSets, nodes: seq<nat>, tree: RegTree)
    requires NodesInTree(nodes, tree)
  {
    && (forall i :: 0 <= i < |nodes| ==> tree[nodes[i]].leftChild !in rs && tree[nodes[i]].rightChild !in rs)
    && (forall i, j :: 0 <= j < i < |nodes| ==>
          !IsChildOf(tree, nodes[j], tree[nodes[i]].leftChild) && !IsChildOf(tree, nodes[j], tree[nodes[i]].rightChild))
  }

  /** No frontier node is a child of a frontier node: no child is split in the same batch as its parent. */
  predicate ChildrenOffFrontier(nodes: seq<nat>, tree: RegTree)
    requires NodesInTree(nodes, tree)
  {
    forall i, j :: 0 <= i < |nodes| && 0 <= j < |nodes| ==> !IsChildOf(tree, nodes[i], nodes[j])
  }

  /** The result of recording a batch of splits: the new row sets, or the node whose split failed. */
  datatype Outcome = Recorded(rs: RowSets) | Aborted(at: nat, error: SplitError)

  /** A frontier and the builder's left and right row counts for each of its nodes. */
  predicate Batch(nodes: seq<nat>, tree: RegTree, nLeft: seq<nat>, nRight: seq<nat>)
  {
    NodesInTree(nodes, tree) && |nLeft| == |nodes| && |nRight| == |nodes|
  }

  /** One iteration of `AddSplitsToRowSet`: the child CHECK, then `AddSplit`. */
  function RecordSplit(rs: RowSets, tree: RegTree, nid: nat, nLeft: nat, nRight: nat): Result<RowSets>
    requires nid < |tree|
  {
    if !Adjacent(tree, nid) then Err(ChildrenNotAdjacent)
    else AddSplit(rs, nid, tree[nid].leftChild, tree[nid].rightChild, nLeft, nRight)
  }

  /** Records the split of frontier node `i` after `o`, unless the batch has already failed. */
  function Step(o: Outcome, tree: RegTree, nid: nat, nLeft: nat, nRight: nat, i: nat): Outcome
    requires nid < |tree|
  {
    match o
    case Aborted(_, _) => o
    case Recorded(prev) =>
      match RecordSplit(prev, tree, nid, nLeft, nRight)
      case Err(e) => Aborted(i, e)
      case Ok(next) => Recorded(next)
  }

  /**
   * The first `k` iterations of `AddSplitsToRowSet`: node `i` is split into
   * `nLeft[i]` and `nRight[i]` rows, in frontier order, and the first
   * failing node ends the batch.
   */
  function RecordFirst(rs: RowSets, nodes: seq<nat>, tree: RegTree, nLeft: seq<nat>, nRight: seq<nat>, k: nat)
    : (r: Outcome)
    requires Batch(nodes, tree, nLeft, nRight) && k <= |nodes|
    ensures r.Aborted? ==> r.at < k
  {
    if k == 0 then Recorded(rs)
    else Step(RecordFirst(rs, nodes, tree, nLeft, nRight, k - 1), tree, nodes[k - 1], nLeft[k - 1], nRight[k - 1], k - 1)
  }

  /** The first `k + 1` iterations are the first `k` followed by node `k`. */
  lemma RecordFirstNext(rs: RowSets, nodes: seq<nat>, tree: RegTree, nLeft: seq<nat>, nRight: seq<nat>, k: nat)
    requires Batch(nodes, tree, nLeft, nRight) && k < |nodes|
    ensures RecordFirst(rs, nodes, tree, nLeft, nRight, k + 1)
         == Step(RecordFirst(rs, nodes, tree, nLeft, nRight, k), tree, nodes[k], nLeft[k], nRight[k], k)
  {
  }

  /** `AddSplitsToRowSet` over the whole frontier. */
  function RecordSplits(rs: RowSets, nodes: seq<nat>, tree: RegTree, nLeft: seq<nat>, nRight: seq<nat>): Outcome
    requires Batch(nodes, tree, nLeft, nRight)
  {
    RecordFirst(rs, nodes, tree, nLeft, nRight, |nodes|)
  }

  /** Once the batch has failed after `i` nodes, it fails at the same node after any later count. */
  lemma {:induction false} AbortPersists(rs: RowSets, nodes: seq<nat>, tree: RegTree, nLeft: seq<nat>, nRight: seq<nat>,
                                         i: nat, k: nat)
    requires Batch(nodes, tree, nLeft, nRight) && i <= k <= |nodes|
    requires RecordFirst(rs, nodes, tree, nLeft, nRight, i).Aborted?
    ensures RecordFirst(rs, nodes, tree, nLeft, nRight, k) == RecordFirst(rs, nodes, tree, nLeft, nRight, i)
    decreases k
  {
    if i < k {
      AbortPersists(rs, nodes, tree, nLeft, nRight, i, k - 1);
    }
  }

  /** One step fails on the child CHECK exactly when the node's children are not adjacent. */
  lemma StepChecksChildren(o: Outcome, tree: RegTree, nid: nat, nLeft: nat, nRight: nat, i: nat)
    requires nid < |tree|
    ensures var r := Step(o, tree, nid, nLeft, nRight, i);
      && (r.Recorded? ==> o.Recorded? && Adjacent(tree, nid))
      && (o.Recorded? && r.Aborted? ==> r.at == i && (r.error == ChildrenNotAdjacent <==> !Adjacent(tree, nid)))
      && (o.Aborted? ==> r == o)
  {
  }

  /**
   * The child CHECK guards every recorded split: a batch is recorded only if
   * every node's children are adjacent, a batch that fails at node `at` got
   * past the CHECK for every node before it, and it fails with
   * `ChildrenNotAdjacent` exactly when node `at`'s children are not adjacent.
   */
  lemma {:induction false} RecordSplitsChecksChildren(rs: RowSets, nodes: seq<nat>, tree: RegTree,
                                                      nLeft: seq<nat>, nRight: seq<nat>, k: nat)
    requires Batch(nodes, tree, nLeft, nRight) && k <= |nodes|
    ensures var r := RecordFirst(rs, nodes, tree, nLeft, nRight, k);
      && (r.Recorded? ==> forall i :: 0 <= i < k ==> Adjacent(tree, nodes[i]))
      && (r.Aborted? ==> forall i :: 0 <= i < r.at ==> Adjacent(tree, nodes[i]))
      && (r.Aborted? ==> (r.error == ChildrenNotAdjacent <==> !Adjacent(tree, nodes[r.at])))
    decreases k
  {
    if k > 0 {
      var o := RecordFirst(rs, nodes, tree, nLeft, nRight, k - 1);
      var r := RecordFirst(rs, nodes, tree, nLeft, nRight, k);
      RecordSplitsChecksChildren(rs, nodes, tree, nLeft, nRight, k - 1);
      RecordFirstNext(rs, nodes, tree, nLeft, nRight, k - 1);
      StepChecksChildren(o, tree, nodes[k - 1], nLeft[k - 1], nRight[k - 1], k - 1);
      if r.Recorded? {
        assert Adjacent(tree, nodes[k - 1]);
        forall i | 0 <= i < k ensures Adjacent(tree, nodes[i]) {
          if i == k - 1 {
            assert nodes[i] == nodes[k - 1];
          }
        }
      }
    }
  }

  /** The children of the first `k` frontier nodes. */
  function FrontierChildren(tree: RegTree, nodes: seq<nat>, k: nat): set<int>
    requires NodesInTree(nodes, tree) && k <= |nodes|
  {
    if k == 0 then {}
    else FrontierChildren(tree, nodes, k - 1) + {tree[nodes[k - 1]].leftChild, tree[nodes[k - 1]].rightChild}
  }

  /** Every member of `FrontierChildren` is a child of one of the first `k` frontier nodes. */
  lemma {:induction false} FrontierChildOf(tree: RegTree, nodes: seq<nat>, k: nat, id: int)
    requires NodesInTree(nodes, tree) && k <= |nodes|
    requires id in FrontierChildren(tree, nodes, k)
    ensures exists j :: 0 <= j < k && IsChildOf(tree, nodes[j], id)
  {
    if !IsChildOf(tree, nodes[k - 1], id) {
      FrontierChildOf(tree, nodes, k - 1, id);
    }
  }

  /** Every node live after the first `k` splits was live before or is a child of one of those nodes. */
  ghost predicate LiveFrom(rs: RowSets, nodes: seq<nat>, tree: RegTree, k: nat, after: RowSets)
    requires NodesInTree(nodes, tree) && k <= |nodes|
  {
    forall id :: id in after ==> id in rs || id in FrontierChildren(tree, nodes, k)
  }

  /** The step keeps `LiveFrom`: a split adds only the node's own children. */
  lemma LiveAfterStep(rs: RowSets, nodes: seq<nat>, tree: RegTree, k: nat, prev: RowSets, next: RowSets)
    requires NodesInTree(nodes, tree) && k < |nodes|
    requires LiveFrom(rs, nodes, tree, k, prev)
    requires forall id :: id in next ==> id in prev || IsChildOf(tree, nodes[k], id)
    ensures LiveFrom(rs, nodes, tree, k + 1, next)
  {
  }

  /** A successful step adds no live node but the split node's children. */
  lemma StepAddsOnlyChildren(o: Outcome, tree: RegTree, nid: nat, nLeft: nat, nRight: nat, i: nat)
    requires nid < |tree|
    ensures var r := Step(o, tree, nid, nLeft, nRight, i);
      r.Recorded? ==> o.Recorded? && forall id :: id in r.rs ==> id in o.rs || IsChildOf(tree, nid, id)
  {
  }

  /** Every node live after a recorded batch was live before or is a child of the frontier. */
  lemma {:induction false} RecordSplitsLiveNodes(rs: RowSets, nodes: seq<nat>, tree: RegTree,
                                                 nLeft: seq<nat>, nRight: seq<nat>, k: nat)
    requires Batch(nodes, tree, nLeft, nRight) && k <= |nodes|
    ensures var r := RecordFirst(rs, nodes, tree, nLeft, nRight, k);
      r.Recorded? ==> LiveFrom(rs, nodes, tree, k, r.rs)
    decreases k
  {
    var r := RecordFirst(rs, nodes, tree, nLeft, nRight, k);
    if k > 0 && r.Recorded? {
      var o := RecordFirst(rs, nodes, tree, nLeft, nRight, k - 1);
      RecordSplitsLiveNodes(rs, nodes, tree, nLeft, nRight, k - 1);
      StepAddsOnlyChildren(o, tree, nodes[k - 1], nLeft[k - 1], nRight[k - 1], k - 1);
      LiveAfterStep(rs, nodes, tree, k - 1, o.rs, r.rs);
    }
  }

  /** The children of frontier node `k` are not live after the splits of the nodes before it. */
  lemma NextChildrenNotLive(rs: RowSets, nodes: seq<nat>, tree: RegTree, k: nat, prev: RowSets)
    requires NodesInTree(nodes, tree) && k < |nodes|
    requires ChildrenFresh(rs, nodes, tree)
    requires LiveFrom(rs, nodes, tree, k, prev)
    ensures tree[nodes[k]].leftChild !in prev && tree[nodes[k]].rightChild !in prev
  {
    forall id | id in prev && id !in rs
      ensures id != tree[nodes[k]].leftChild && id != tree[nodes[k]].rightChild
    {
      FrontierChildOf(tree, nodes, k, id);
      var j :| 0 <= j < k && IsChildOf(tree, nodes[j], id);
    }
  }

  /** Recording a batch keeps the partition invariant when the children are new. */
  lemma {:induction false} RecordSplitsPreservesPartition(rs: RowSets, n: nat, nodes: seq<nat>, tree: RegTree,
                                                          nLeft: seq<nat>, nRight: seq<nat>, k: nat)
    requires Batch(nodes, tree, nLeft, nRight) && k <= |nodes|
    requires Partitioned(rs, n)
    requires ChildrenFresh(rs, nodes, tree)
    ensures var r := RecordFirst(rs, nodes, tree, nLeft, nRight, k);
      r.Recorded? ==> Partitioned(r.rs, n)
    decreases k
  {
    if k > 0 {
      RecordSplitsPreservesPartition(rs, n, nodes, tree, nLeft, nRight, k - 1);
      PartitionNext(rs, n, nodes, tree, nLeft, nRight, k - 1, k);
    }
  }

  /** The inductive step of `RecordSplitsPreservesPartition`, from `k` splits to `k1 == k + 1`. */
  lemma PartitionNext(rs: RowSets, n: nat, nodes: seq<nat>, tree: RegTree, nLeft: seq<nat>, nRight: seq<nat>,
                      k: nat, k1: nat)
    requires Batch(nodes, tree, nLeft, nRight) && k < |nodes| && k1 == k + 1
    requires ChildrenFresh(rs, nodes, tree)
    requires var o := RecordFirst(rs, nodes, tree, nLeft, nRight, k);
      o.Recorded? ==> Partitioned(o.rs, n)
    ensures var r := RecordFirst(rs, nodes, tree, nLeft, nRight, k1);
      r.Recorded? ==> Partitioned(r.rs, n)
  {
    var o := RecordFirst(rs, nodes, tree, nLeft, nRight, k);
    var r := RecordFirst(rs, nodes, tree, nLeft, nRight, k1);
    RecordFirstNext(rs, nodes, tree, nLeft, nRight, k);
    if r.Recorded? {
      RecordSplitsLiveNodes(rs, nodes, tree, nLeft, nRight, k);
      var nid := nodes[k];
      NextChildrenNotLive(rs, nodes, tree, k, o.rs);
      AddSplitPreservesPartition(o.rs, n, nid, tree[nid].leftChild, tree[nid].rightChild, nLeft[k], nRight[k]);
    }
  }

  /** Node `nid`'s children are live with `nLeft` and `nRight` rows. */
  predicate ChildSizes(rs: RowSets, tree: RegTree, nid: nat, nLeft: nat, nRight: nat)
    requires nid < |tree|
  {
    && tree[nid].leftChild in rs && rs[tree[nid].leftChild].Size() == nLeft
    && tree[nid].rightChild in rs && rs[tree[nid].rightChild].Size() == nRight
  }

  /** Splitting node `nid` gives its children the builder's counts. */
  lemma SplitSetsChildSizes(prev: RowSets, next: RowSets, tree: RegTree, nid: nat, nLeft: nat, nRight: nat)
    requires nid < |tree|
    requires RecordSplit(prev, tree, nid, nLeft, nRight) == Ok(next)
    requires tree[nid].leftChild !in prev && tree[nid].rightChild !in prev
    ensures ChildSizes(next, tree, nid, nLeft, nRight)
  {
  }

  /** Splitting node `nid` leaves the ranges of another node `other`'s children alone. */
  lemma SplitKeepsChildSizes(prev: RowSets, next: RowSets, tree: RegTree, nid: nat, nLeft: nat, nRight: nat,
                             other: nat, oLeft: nat, oRight: nat)
    requires nid < |tree| && other < |tree|
    requires RecordSplit(prev, tree, nid, nLeft, nRight) == Ok(next)
    requires tree[nid].leftChild !in prev && tree[nid].rightChild !in prev
    requires ChildSizes(prev, tree, other, oLeft, oRight)
    requires !IsChildOf(tree, other, nid)
    requires !IsChildOf(tree, other, tree[nid].leftChild) && !IsChildOf(tree, other, tree[nid].rightChild)
    ensures ChildSizes(next, tree, other, oLeft, oRight)
  {
  }

  /**
   * One step of `RecordSplitsChildSizes`: splitting frontier node `k` sets its
   * children's sizes and keeps those of the nodes before it.
   */
  lemma ChildSizesAfterStep(rs: RowSets, nodes: seq<nat>, tree: RegTree, nLeft: seq<nat>, nRight: seq<nat>,
                            k: nat, prev: RowSets, next: RowSets)
    requires Batch(nodes, tree, nLeft, nRight) && k < |nodes|
    requires ChildrenFresh(rs, nodes, tree)
    requires ChildrenOffFrontier(nodes, tree)
    requires LiveFrom(rs, nodes, tree, k, prev)
    requires RecordSplit(prev, tree, nodes[k], nLeft[k], nRight[k]) == Ok(next)
    requires forall i :: 0 <= i < k ==> ChildSizes(prev, tree, nodes[i], nLeft[i], nRight[i])
    ensures forall i :: 0 <= i <= k ==> ChildSizes(next, tree, nodes[i], nLeft[i], nRight[i])
  {
    var nid := nodes[k];
    NextChildrenNotLive(rs, nodes, tree, k, prev);
    SplitSetsChildSizes(prev, next, tree, nid, nLeft[k], nRight[k]);
    forall i | 0 <= i <= k ensures ChildSizes(next, tree, nodes[i], nLeft[i], nRight[i]) {
      if i < k {
        KeepEarlierChildSizes(rs, nodes, tree, nLeft, nRight, k, prev, next, i);
      }
    }
  }

  /** Splitting frontier node `k` keeps the children of an earlier frontier node `i`. */
  lemma KeepEarlierChildSizes(rs: RowSets, nodes: seq<nat>, tree: RegTree, nLeft: seq<nat>, nRight: seq<nat>,
                              k: nat, prev: RowSets, next: RowSets, i: nat)
    requires Batch(nodes, tree, nLeft, nRight) && i < k < |nodes|
    requires ChildrenFresh(rs, nodes, tree)
    requires ChildrenOffFrontier(nodes, tree)
    requires tree[nodes[k]].leftChild !in prev && tree[nodes[k]].rightChild !in prev
    requires RecordSplit(prev, tree, nodes[k], nLeft[k], nRight[k]) == Ok(next)
    requires ChildSizes(prev, tree, nodes[i], nLeft[i], nRight[i])
    ensures ChildSizes(next, tree, nodes[i], nLeft[i], nRight[i])
  {
    var nid := nodes[k];
    assert !IsChildOf(tree, nodes[i], nid);
    assert !IsChildOf(tree, nodes[i], tree[nid].leftChild) && !IsChildOf(tree, nodes[i], tree[nid].rightChild);
    SplitKeepsChildSizes(prev, next, tree, nid, nLeft[k], nRight[k], nodes[i], nLeft[i], nRight[i]);
  }

  /** The inductive step of `RecordSplitsChildSizes`, from `k` splits to `k + 1`. */
  lemma ChildSizesNext(rs: RowSets, nodes: seq<nat>, tree: RegTree, nLeft: seq<nat>, nRight: seq<nat>, k: nat, k1: nat)
    requires Batch(nodes, tree, nLeft, nRight) && k < |nodes| && k1 == k + 1
    requires ChildrenFresh(rs, nodes, tree)
    requires ChildrenOffFrontier(nodes, tree)
    requires var o := RecordFirst(rs, nodes, tree, nLeft, nRight, k);
      o.Recorded? ==> forall i :: 0 <= i < k ==> ChildSizes(o.rs, tree, nodes[i], nLeft[i], nRight[i])
    ensures var r := RecordFirst(rs, nodes, tree, nLeft, nRight, k1);
      r.Recorded? ==> forall i :: 0 <= i < k1 ==> ChildSizes(r.rs, tree, nodes[i], nLeft[i], nRight[i])
  {
    var o := RecordFirst(rs, nodes, tree, nLeft, nRight, k);
    var r := RecordFirst(rs, nodes, tree, nLeft, nRight, k1);
    RecordFirstNext(rs, nodes, tree, nLeft, nRight, k);
    if r.Recorded? {
      RecordSplitsLiveNodes(rs, nodes, tree, nLeft, nRight, k);
      StepAddsOnlyChildren(o, tree, nodes[k], nLeft[k], nRight[k], k);
      assert RecordSplit(o.rs, tree, nodes[k], nLeft[k], nRight[k]) == Ok(r.rs);
      ChildSizesAfterStep(rs, nodes, tree, nLeft, nRight, k, o.rs, r.rs);
    }
  }

  /**
   * After a recorded batch each frontier node's children own exactly the
   * `nLeft[i]` and `nRight[i]` rows the builder counted, provided no frontier
   * node is another's child.
   */
  lemma {:induction false} RecordSplitsChildSizes(rs: RowSets, nodes: seq<nat>, tree: RegTree,
                                                  nLeft: seq<nat>, nRight: seq<nat>, k: nat)
    requires Batch(nodes, tree, nLeft, nRight) && k <= |nodes|
    requires ChildrenFresh(rs, nodes, tree)
    requires ChildrenOffFrontier(nodes, tree)
    ensures var r := RecordFirst(rs, nodes, tree, nLeft, nRight, k);
      r.Recorded? ==> forall i :: 0 <= i < k ==> ChildSizes(r.rs, tree, nodes[i], nLeft[i], nRight[i])
    decreases k
  {
    if k > 0 {
      RecordSplitsChildSizes(rs, nodes, tree, nLeft, nRight, k - 1);
      ChildSizesNext(rs, nodes, tree, nLeft, nRight, k - 1, k);
    }
  }

  /** How `UpdatePosition` can fail; every one of these is a fatal error in the source. */
  datatype Failure =
    | SplitBinOverflow(node: nat)
    | BaseRowidMismatch
    | CollectiveFailed
    | SplitRejected(at: nat, error: SplitError)

  /** The split bin ids and per-node task counts of a successful update, or its failure. */
  datatype Status = Updated(splitConditions: seq<int>, taskCounts: seq<nat>) | Fatal(failure: Failure)

  /** The split bins can be resolved: no scan runs, or every node passes the `int32_t` CHECK. */
  predicate SplitBinsFit(columnMatrixInitialised: bool, nodes: seq<nat>, tree: RegTree, cuts: Cuts)
    requires WellFormed(cuts) && FeaturesInCuts(nodes, tree, cuts)
  {
    columnMatrixInitialised ==> forall i :: 0 <= i < |nodes| ==> BinIdFits(tree, cuts, nodes[i])
  }

  /**
   * The first phase of `UpdatePosition`: with a column matrix, resolve every
   * frontier node's split bin into a fresh vector, stopping at the first node
   * whose bin does not fit a 32-bit integer; without one, nothing is resolved.
   */
  method SplitConditionsPhase(columnMatrixInitialised: bool, cuts: Cuts, nodes: seq<nat>, tree: RegTree)
    returns (done: nat, conds: seq<int>)
    requires WellFormed(cuts) && FeaturesInCuts(nodes, tree, cuts)
    ensures done <= |nodes|
    ensures done == |nodes| <==> SplitBinsFit(columnMatrixInitialised, nodes, tree, cuts)
    ensures done < |nodes| ==>
      && columnMatrixInitialised && !BinIdFits(tree, cuts, nodes[done])
      && forall i :: 0 <= i < done ==> BinIdFits(tree, cuts, nodes[i])
    ensures done == |nodes| && !columnMatrixInitialised ==> conds == []
    ensures done == |nodes| && columnMatrixInitialised ==>
      && |conds| == |nodes|
      && forall i :: 0 <= i < |nodes| ==> conds[i] == NodeSplitBin(tree, cuts, nodes[i])
  {
    if !columnMatrixInitialised {
      return |nodes|, [];
    }
    var a := new int[|nodes|];
    done := FindSplitConditions(nodes, tree, cuts, a);
    conds := a[..];
  }

  /** `row_set_collection_[nid].Size()` for every frontier node. */
  function NodeSizes(rs: RowSets, nodes: seq<nat>): (r: seq<nat>)
    requires forall i :: 0 <= i < |nodes| ==> nodes[i] in rs
    ensures |r| == |nodes|
    ensures forall i :: 0 <= i < |nodes| ==> r[i] == rs[nodes[i]].Size()
  {
    seq(|nodes|, i requires 0 <= i < |nodes| => rs[nodes[i]].Size())
  }

  /** `common::Iota`: `a[k] = base + k`. */
  method Iota(a: array<nat>, base: nat)
    modifies a
    ensures forall k :: 0 <= k < a.Length ==> a[k] == base + k
  {
    for k := 0 to a.Length
      invariant forall j :: 0 <= j < k ==> a[j] == base + j
    {
      a[k] := base + k;
    }
  }

  /**
   * The row ids `Reset` stores: position `p` of the row-index array holds
   * global row id `base_rowid + p`.
   */
  predicate RowIdsFrom(rowIndices: seq<nat>, base: nat)
  {
    forall k :: 0 <= k < |rowIndices| ==> rowIndices[k] == base + k
  }

  /**
   * The leaf pass asks the hessian-span predicate about the row id stored at a
   * position `p` some live node owns; subtracting `base_rowid` then reads
   * exactly the weight of the row at position `p`.
   */
  lemma SkipByHessReadsOwnRow<T>(rowIndices: seq<nat>, base: nat, rs: RowSets, nid: int, p: nat,
                                 hess: seq<T>, isZero: T -> bool)
    requires RowIdsFrom(rowIndices, base) && |hess| == |rowIndices|
    requires Partitioned(rs, |rowIndices|) && Owns(rs, nid, p)
    ensures p < |rowIndices| && InWindow(base, |hess|, rowIndices[p])
    ensures SkipByHess(hess, base, rowIndices[p], isZero) == isZero(hess[p])
  {
  }

  /** The same for the gradient-pair predicate. */
  lemma SkipByGpairReadsOwnRow<T>(rowIndices: seq<nat>, base: nat, rs: RowSets, nid: int, p: nat,
                                  gpair: seq<GradientPair<T>>, isZero: T -> bool)
    requires RowIdsFrom(rowIndices, base) && |gpair| == |rowIndices|
    requires Partitioned(rs, |rowIndices|) && Owns(rs, nid, p)
    ensures p < |rowIndices| && InWindow(base, |gpair|, rowIndices[p])
    ensures SkipByGpair(gpair, base, rowIndices[p], isZero) == isZero(gpair[p].hess)
  {
  }

  /** The same for the gradient-matrix predicate: every target of row `p` is consulted. */
  lemma SkipByMatrixReadsOwnRow<T>(rowIndices: seq<nat>, base: nat, rs: RowSets, nid: int, p: nat,
                                   gpair: seq<seq<GradientPair<T>>>, nTargets: nat, isZero: T -> bool)
    requires RowIdsFrom(rowIndices, base) && |gpair| == |rowIndices| && IsMatrix(gpair, nTargets)
    requires Partitioned(rs, |rowIndices|) && Owns(rs, nid, p)
    ensures p < |rowIndices| && InWindow(base, |gpair|, rowIndices[p])
    ensures SkipByMatrix(gpair, nTargets, base, rowIndices[p], isZero)
        <==> forall t :: 0 <= t < nTargets ==> isZero(gpair[p][t].hess)
  {
  }

  class CommonRowPartitioner {
    /** `base_rowid`: the global id of this batch's first row. */
    var baseRowid: nat
    /** `is_col_split_`: features are split across workers. */
    var isColSplit: bool
    /** The row-index array of `row_set_collection_`. */
    var rowIndices: array<nat>
    /** The live nodes of `row_set_collection_` and their ranges of `rowIndices`. */
    var rowSets: RowSets
    /** `column_split_helper_`. */
    var helper: ColumnSplitHelper

    /** The helper's buffers are consistent and the live nodes partition the row-index array. */
    ghost predicate Valid()
      reads this, helper
    {
      helper.Valid() && Partitioned(rowSets, rowIndices.Length)
    }

    /** The four-argument constructor: store the flags, then `Reset`. */
    constructor (numRow: nat, base: nat, colSplit: bool)
      ensures Valid()
      ensures baseRowid == base && isColSplit == colSplit
      ensures fresh(rowIndices) && rowIndices.Length == numRow
      ensures fresh(helper) && fresh(helper.decisionStorage) && fresh(helper.missingStorage)
      ensures forall k :: 0 <= k < numRow ==> rowIndices[k] == base + k
      ensures RowIdsFrom(rowIndices[..], base)
      ensures rowSets == Init(numRow)
      ensures colSplit ==> helper.decisionStorage[..] == Zeros(StorageSize(numRow))
      ensures colSplit ==> helper.missingStorage[..] == Zeros(StorageSize(numRow))
    {
      baseRowid := base;
      isColSplit := colSplit;
      rowIndices := new nat[0];
      rowSets := map[];
      helper := new ColumnSplitHelper.Empty();
      new;
      Reset(numRow, base, colSplit);
    }

    /**
     * `Reset`: one row-index slot per row holding `base_rowid + k`, the root
     * owning all of them, and, for a column split, a helper with a zeroed bit
     * per row.
     */
    method Reset(numRow: nat, base: nat, colSplit: bool)
      requires helper.Valid()
      modifies this
      ensures Valid()
      ensures baseRowid == base && isColSplit == colSplit
      ensures fresh(rowIndices) && rowIndices.Length == numRow
      ensures forall k :: 0 <= k < numRow ==> rowIndices[k] == base + k
      ensures RowIdsFrom(rowIndices[..], base)
      ensures rowSets == Init(numRow)
      ensures colSplit ==> fresh(helper) && fresh(helper.decisionStorage) && fresh(helper.missingStorage)
      ensures colSplit ==> helper.decisionStorage[..] == Zeros(StorageSize(numRow))
      ensures colSplit ==> helper.missingStorage[..] == Zeros(StorageSize(numRow))
      ensures !colSplit ==> helper == old(helper)
    {
      baseRowid := base;
      isColSplit := colSplit;
      rowIndices := new nat[numRow];
      Iota(rowIndices, base);
      rowSets := Init(numRow);
      InitPartitioned(numRow);
      if colSplit {
        helper := new ColumnSplitHelper(numRow);
      }
    }

    /**
     * `AddSplitsToRowSet`: records the frontier's splits one node at a time.
     * The outcome is the fold `RecordSplits`; when it fails at node `at`, the
     * row sets hold the splits of the nodes before it.
     */
    method AddSplitsToRowSet(nodes: seq<nat>, tree: RegTree, nLeft: seq<nat>, nRight: seq<nat>)
      returns (outcome: Outcome)
      requires Batch(nodes, tree, nLeft, nRight)
      modifies this`rowSets
      ensures outcome == RecordSplits(old(rowSets), nodes, tree, nLeft, nRight)
      ensures outcome.Recorded? ==> rowSets == outcome.rs
      ensures outcome.Aborted? ==> RecordFirst(old(rowSets), nodes, tree, nLeft, nRight, outcome.at) == Recorded(rowSets)
    {
      ghost var initial := rowSets;
      var i := 0;
      while i < |nodes|
        invariant i <= |nodes|
        invariant RecordFirst(initial, nodes, tree, nLeft, nRight, i) == Recorded(rowSets)
      {
        RecordFirstNext(initial, nodes, tree, nLeft, nRight, i);
        var step := RecordSplit(rowSets, tree, nodes[i], nLeft[i], nRight[i]);
        if step.Err? {
          outcome := Aborted(i, step.error);
          AbortPersists(initial, nodes, tree, nLeft, nRight, i + 1, |nodes|);
          return;
        }
        rowSets := step.value;
        i := i + 1;
      }
      outcome := Recorded(rowSets);
    }

    /**
     * `UpdatePosition` for one frontier: resolve the split bins (when the
     * column matrix is built), size the work units, CHECK the base row id,
     * let the column-split helper build and combine the bit vectors, and
     * record the splits. The builder's per-node counts `nLeft`/`nRight`, the
     * per-task masks and the other workers' vectors are inputs.
     */
    method UpdatePosition(gmatBaseRowid: nat, columnMatrixInitialised: bool, cuts: Cuts, nodes: seq<nat>,
                          tree: RegTree, nThreads: nat, masks: seq<TaskMask>, peers: seq<BitPair>,
                          nLeft: seq<nat>, nRight: seq<nat>)
      returns (status: Status)
      requires Valid()
      requires WellFormed(cuts) && FeaturesInCuts(nodes, tree, cuts)
      requires forall i :: 0 <= i < |nodes| ==> nodes[i] in rowSets
      requires |nLeft| == |nodes| && |nRight| == |nodes|
      requires isColSplit ==> 1 <= nThreads && TasksFit(masks, helper.decisionStorage.Length, nThreads)
      requires ChildrenFresh(rowSets, nodes, tree)
      modifies this`rowSets, helper, helper.decisionStorage, helper.missingStorage
      ensures helper == old(helper) && helper.decisionStorage == old(helper.decisionStorage)
      ensures helper.missingStorage == old(helper.missingStorage)
      ensures status == Fatal(BaseRowidMismatch) <==>
        SplitBinsFit(columnMatrixInitialised, nodes, tree, cuts) && baseRowid != gmatBaseRowid
      ensures status.Fatal? && status.failure.SplitBinOverflow? ==>
        && columnMatrixInitialised && status.failure.node < |nodes|
        && !BinIdFits(tree, cuts, nodes[status.failure.node])
        && forall i :: 0 <= i < status.failure.node ==> BinIdFits(tree, cuts, nodes[i])
      ensures !SplitBinsFit(columnMatrixInitialised, nodes, tree, cuts) ==> status.Fatal? && status.failure.SplitBinOverflow?
      ensures status == Fatal(CollectiveFailed) <==>
        && SplitBinsFit(columnMatrixInitialised, nodes, tree, cuts) && baseRowid == gmatBaseRowid
        && isColSplit && !PeersFit(peers, helper.decisionStorage.Length)
      ensures status.Fatal? && status.failure.SplitRejected? ==>
        RecordSplits(old(rowSets), nodes, tree, nLeft, nRight) == Aborted(status.failure.at, status.failure.error)
      ensures status.Updated? <==>
        && SplitBinsFit(columnMatrixInitialised, nodes, tree, cuts) && baseRowid == gmatBaseRowid
        && (isColSplit ==> PeersFit(peers, helper.decisionStorage.Length))
        && RecordSplits(old(rowSets), nodes, tree, nLeft, nRight).Recorded?
      ensures status.Updated? ==> Valid()
      ensures status.Updated? ==> rowSets == RecordSplits(old(rowSets), nodes, tree, nLeft, nRight).rs
      ensures status.Updated? ==> status.taskCounts == TaskCounts(NodeSizes(old(rowSets), nodes))
      ensures status.Updated? && !columnMatrixInitialised ==> status.splitConditions == []
      ensures status.Updated? && columnMatrixInitialised ==> |status.splitConditions| == |nodes|
      ensures status.Updated? && columnMatrixInitialised ==>
        forall i :: 0 <= i < |nodes| ==> status.splitConditions[i] == NodeSplitBin(tree, cuts, nodes[i])
      ensures var n := old(helper.decisionStorage.Length);
        status.Updated? && isColSplit && TasksFit(masks, n, nThreads) && PeersFit(peers, n) ==>
          && PairsOfLength([LocalPair(masks, n)] + peers, n)
          && BitPair(helper.decisionStorage[..], helper.missingStorage[..]) == Combine(n, [LocalPair(masks, n)] + peers)
      ensures !isColSplit ==> unchanged(helper, helper.decisionStorage, helper.missingStorage)
    {
      var done, splitConditions := SplitConditionsPhase(columnMatrixInitialised, cuts, nodes, tree);
      if done < |nodes| {
        return Fatal(SplitBinOverflow(done));
      }

      var counts := TaskCounts(NodeSizes(rowSets, nodes));

      if baseRowid != gmatBaseRowid {
        return Fatal(BaseRowidMismatch);
      }

      if isColSplit {
        var ok := helper.Partition(nThreads, masks, peers);
        if !ok {
          return Fatal(CollectiveFailed);
        }
      }

      ghost var before := rowSets;
      var outcome := AddSplitsToRowSet(nodes, tree, nLeft, nRight);
      if outcome.Aborted? {
        return Fatal(SplitRejected(outcome.at, outcome.error));
      }
      RecordSplitsPreservesPartition(before, rowIndices.Length, nodes, tree, nLeft, nRight, |nodes|);
      status := Updated(splitConditions, counts);
    }
  }
}
