/**
 * `RowSetCollection` as the partitioner uses it: one array of row indices
 * and, per live node, the contiguous range of that array holding the node's
 * rows. Its implementation is not part of this model; `Init` and `AddSplit`
 * are modelled by the contract their call sites rely on.
 */
module RowSet {

  /** Positions `[begin, end)` of the row-index array. */
  datatype Range = Range(begin: nat, end: nat)
  {
    /** `Elem::Size()`. */
    function Size(): nat
    {
      if begin <= end then end - begin else 0
    }

    predicate Contains(p: nat)
    {
      begin <= p < end
    }
  }

  /** Live nodes and the rows they own. */
  type RowSets = map<int, Range>

  datatype SplitError = UnknownNode | CountMismatch | ChildrenNotAdjacent

  datatype Result<T> = Ok(value: T) | Err(error: SplitError)

  /** `Clear()` followed by `Init()`: the root node 0 owns every row. */
  function Init(numRow: nat): (r: RowSets)
    ensures r.Keys == {0} && r[0] == Range(0, numRow)
  {
    map[0 := Range(0, numRow)]
  }

  /**
   * `AddSplit(nid, left, right, n_left, n_right)`: node `nid`'s range is cut
   * into a left part of `n_left` rows and a right part of `n_right` rows,
   * which the children take over; `nid` stops being live. A node that is not
   * live, or counts that do not add up to the node's size, are fatal.
   */
  function AddSplit(rs: RowSets, nid: int, left: int, right: int, nLeft: nat, nRight: nat): (r: Result<RowSets>)
    ensures r.Ok? <==> nid in rs && nLeft + nRight == rs[nid].Size()
    ensures r.Err? ==> r.error == (if nid in rs then CountMismatch else UnknownNode)
    ensures r.Ok? ==> r.value.Keys <= rs.Keys + {left, right}
    ensures r.Ok? && nid != left && nid != right && left != right ==>
      && r.value.Keys == rs.Keys - {nid} + {left, right}
      && r.value[left] == Range(rs[nid].begin, rs[nid].begin + nLeft)
      && r.value[right] == Range(rs[nid].begin + nLeft, rs[nid].end)
      && r.value[left].Size() + r.value[right].Size() == rs[nid].Size()
      && forall id :: id in rs && id != nid && id != left && id != right ==> r.value[id] == rs[id]
  {
    if nid !in rs then Err(UnknownNode)
    else
      var e := rs[nid];
      if nLeft + nRight != e.Size() then Err(CountMismatch)
      else
        var splitPoint := e.begin + nLeft;
        Ok((rs[left := Range(e.begin, splitPoint)][right := Range(splitPoint, e.end)]) - {nid})
  }

  /** Two ranges share no position. */
  predicate Disjoint(x: Range, y: Range)
  {
    x.end <= y.begin || y.end <= x.begin || x.end <= x.begin || y.end <= y.begin
  }

  /** Live node `id` owns position `p`. */
  predicate Owns(rs: RowSets, id: int, p: nat)
  {
    id in rs && rs[id].Contains(p)
  }

  /** Some live node owns position `p`. */
  ghost predicate Covered(rs: RowSets, p: nat)
  {
    exists id :: Owns(rs, id, p)
  }

  /**
   * The partition invariant: every live range lies inside the row-index
   * array of `n` rows, every position belongs to some live node, and no two
   * live nodes share a position.
   */
  ghost predicate Partitioned(rs: RowSets, n: nat)
  {
    && (forall id :: id in rs ==> rs[id].begin <= rs[id].end <= n)
    && (forall p :: 0 <= p < n ==> Covered(rs, p))
    && (forall a, b :: a in rs && b in rs && a != b ==> Disjoint(rs[a], rs[b]))
  }

  /** After `Init` the root owns every row. */
  lemma InitPartitioned(n: nat)
    ensures Partitioned(Init(n), n)
  {
    forall p | 0 <= p < n ensures Covered(Init(n), p) {
      assert Owns(Init(n), 0, p);
    }
  }

  /**
   * A split keeps the partition invariant, provided the children are not
   * live already: no row is lost, none is created, none is shared.
   */
  lemma AddSplitPreservesPartition(rs: RowSets, n: nat, nid: int, left: int, right: int, nLeft: nat, nRight: nat)
    requires Partitioned(rs, n)
    requires AddSplit(rs, nid, left, right, nLeft, nRight).Ok?
    requires left !in rs && right !in rs && left != right
    ensures Partitioned(AddSplit(rs, nid, left, right, nLeft, nRight).value, n)
  {
    var r := AddSplit(rs, nid, left, right, nLeft, nRight).value;
    var e := rs[nid];
    forall p | 0 <= p < n ensures Covered(r, p) {
      assert Covered(rs, p);
      var owner :| Owns(rs, owner, p);
      if owner == nid {
        if p < e.begin + nLeft {
          assert Owns(r, left, p);
        } else {
          assert Owns(r, right, p);
        }
      } else {
        assert Owns(r, owner, p);
      }
    }
    forall a, b | a in r && b in r && a != b ensures Disjoint(r[a], r[b]) {
      if a != left && a != right && (b == left || b == right) {
        assert Disjoint(rs[a], e);
      } else if b != left && b != right && (a == left || a == right) {
        assert Disjoint(rs[b], e);
      }
    }
  }
}
