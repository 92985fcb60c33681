/**
 * Why the column-split combine gives every worker the routing a single worker
 * holding every feature would compute. For one row and one frontier node, a
 * worker either holds the split feature's value for the row (and then knows
 * whether the row goes right) or does not (its missing bit is set and its
 * decision bit is clear). ORing the decision bits and ANDing the missing
 * bits then recovers the answer of the workers that know.
 */
module Agreement {
  import opened ByteVectors
  import opened ColumnSplit

  /** What one worker knows about one row: nothing, or the side the row goes to. */
  datatype View = Absent | Present(goRight: bool)

  /** Bit `b` of byte `k` of the worker's vectors records `v`. */
  predicate Encodes(p: BitPair, k: nat, b: nat, v: View)
    requires k < |p.decision| && k < |p.missing| && b < 8
  {
    && HasBit(p.decision[k], b) == (v.Present? && v.goRight)
    && HasBit(p.missing[k], b) == v.Absent?
  }

  /** What bit `b` of byte `k` of a pair of vectors says about the row. */
  function Decode(p: BitPair, k: nat, b: nat): View
    requires k < |p.decision| && k < |p.missing| && b < 8
  {
    if HasBit(p.missing[k], b) then Absent else Present(HasBit(p.decision[k], b))
  }

  /** Workers that hold the feature agree on the side (they evaluate the same value). */
  predicate Consistent(views: seq<View>)
  {
    forall i, j :: 0 <= i < |views| && 0 <= j < |views| && views[i].Present? && views[j].Present? ==>
      views[i].goRight == views[j].goRight
  }

  /**
   * The view of a single worker that sees every feature: the answer of the
   * first worker that knows, or nothing if none does.
   */
  function FullView(views: seq<View>): (r: View)
    ensures r.Absent? <==> forall w :: 0 <= w < |views| ==> views[w].Absent?
    ensures r.Present? ==> exists w :: 0 <= w < |views| && views[w] == r
  {
    if |views| == 0 then Absent
    else if views[0].Present? then views[0]
    else
      var rest := FullView(views[1..]);
      assert forall w :: 1 <= w < |views| ==> views[w] == views[1..][w - 1];
      rest
  }

  /**
   * The routing the partitioner derives from the two bits: a row whose
   * feature is missing takes the default direction, any other row goes left
   * unless its decision bit is set.
   */
  function GoesLeft(v: View, defaultLeft: bool): bool
  {
    match v
    case Absent => defaultLeft
    case Present(goRight) => !goRight
  }

  /**
   * After the OR/AND combine, the bits of every row say exactly what a worker
   * holding every feature would have computed.
   */
  lemma {:induction false} CombineAgreesWithFullView(n: nat, workers: seq<BitPair>, views: seq<View>,
                                                     k: nat, b: nat)
    requires PairsOfLength(workers, n) && |views| == |workers|
    requires k < n && b < 8
    requires forall w :: 0 <= w < |workers| ==> Encodes(workers[w], k, b, views[w])
    requires Consistent(views)
    ensures Decode(Combine(n, workers), k, b) == FullView(views)
  {
    var c := Combine(n, workers);
    var full := FullView(views);
    if full.Absent? {
      assert HasBit(c.missing[k], b);
    } else {
      var w0 :| 0 <= w0 < |views| && views[w0] == full;
      assert !HasBit(workers[w0].missing[k], b);
      assert !HasBit(c.missing[k], b);
      if full.goRight {
        assert HasBit(workers[w0].decision[k], b);
      }
    }
  }

  /** Consequently every worker routes every row as the all-seeing worker would. */
  lemma RoutingAgreesWithFullView(n: nat, workers: seq<BitPair>, views: seq<View>,
                                  k: nat, b: nat, defaultLeft: bool)
    requires PairsOfLength(workers, n) && |views| == |workers|
    requires k < n && b < 8
    requires forall w :: 0 <= w < |workers| ==> Encodes(workers[w], k, b, views[w])
    requires Consistent(views)
    ensures GoesLeft(Decode(Combine(n, workers), k, b), defaultLeft) == GoesLeft(FullView(views), defaultLeft)
  {
    CombineAgreesWithFullView(n, workers, views, k, b);
  }
}
