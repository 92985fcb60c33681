/** The parts of `RegTree` that the row partitioner reads. */
module Tree {

  /**
   * One tree node: its children (`LeftChild`, `RightChild`), the feature it
   * splits on (`SplitIndex`) and the split threshold (`SplitCond`). Cut values
   * and thresholds are compared only for equality, so an integer stands for
   * the source's float.
   */
  datatype Node = Node(leftChild: int, rightChild: int, splitIndex: nat, splitCond: int)

  /** A tree is its node array, indexed by node id. */
  type RegTree = seq<Node>

  /** Every frontier node id names a node of the tree. */
  predicate NodesInTree(nodes: seq<nat>, tree: RegTree)
  {
    forall i :: 0 <= i < |nodes| ==> nodes[i] < |tree|
  }
}
