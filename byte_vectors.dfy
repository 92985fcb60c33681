/**
 * Byte-addressed bit vectors (the storage of `RBitField8`) and the two
 * bytewise reductions the column-split protocol applies to them:
 * OR for the decision bits and AND for the missing bits.
 */
module ByteVectors {
  import opened Arith

  /** Number of bytes a bit vector over `numBits` bits occupies (`ComputeStorageSize`). */
  function StorageSize(numBits: nat): (r: nat)
    ensures numBits <= 8 * r
    ensures r > 0 ==> 8 * (r - 1) < numBits
  {
    DivRoundUp(numBits, 8)
  }

  /** An all-zero vector: no row has its bit set. */
  function Zeros(n: nat): (r: seq<bv8>)
    ensures |r| == n
    ensures forall k :: 0 <= k < n ==> r[k] == 0
  {
    seq(n, k => 0)
  }

  /** An all-ones vector, the identity of the AND reduction. */
  function Ones(n: nat): (r: seq<bv8>)
    ensures |r| == n
    ensures forall k :: 0 <= k < n ==> r[k] == 0xff
  {
    seq(n, k => 0xff)
  }

  /** Bit `b` (0 ..< 8) of the byte `x`. */
  predicate HasBit(x: bv8, b: nat)
    requires b < 8
  {
    x & ((1 as bv8) << b) != 0
  }

  lemma OrBit(x: bv8, y: bv8, b: nat)
    requires b < 8
    ensures HasBit(x | y, b) <==> HasBit(x, b) || HasBit(y, b)
  {
  }

  lemma AndBit(x: bv8, y: bv8, b: nat)
    requires b < 8
    ensures HasBit(x & y, b) <==> HasBit(x, b) && HasBit(y, b)
  {
  }

  /** A byte is determined by its eight bits. */
  lemma ByteExtensionality(x: bv8, y: bv8)
    requires forall b :: 0 <= b < 8 ==> (HasBit(x, b) <==> HasBit(y, b))
    ensures x == y
  {
    assert HasBit(x, 0) == HasBit(y, 0);
    assert HasBit(x, 1) == HasBit(y, 1);
    assert HasBit(x, 2) == HasBit(y, 2);
    assert HasBit(x, 3) == HasBit(y, 3);
    assert HasBit(x, 4) == HasBit(y, 4);
    assert HasBit(x, 5) == HasBit(y, 5);
    assert HasBit(x, 6) == HasBit(y, 6);
    assert HasBit(x, 7) == HasBit(y, 7);
  }

  /** Bytewise OR of two equally long vectors (`RBitField8::operator|=`). */
  function OrBytes(a: seq<bv8>, c: seq<bv8>): (r: seq<bv8>)
    requires |a| == |c|
    ensures |r| == |a|
    ensures forall k :: 0 <= k < |a| ==> r[k] == a[k] | c[k]
  {
    seq(|a|, k requires 0 <= k < |a| => a[k] | c[k])
  }

  /** Bytewise AND of two equally long vectors. */
  function AndBytes(a: seq<bv8>, c: seq<bv8>): (r: seq<bv8>)
    requires |a| == |c|
    ensures |r| == |a|
    ensures forall k :: 0 <= k < |a| ==> r[k] == a[k] & c[k]
  {
    seq(|a|, k requires 0 <= k < |a| => a[k] & c[k])
  }

  lemma OrBytesBits(a: seq<bv8>, c: seq<bv8>)
    requires |a| == |c|
    ensures forall k, b :: 0 <= k < |a| && 0 <= b < 8 ==>
      (HasBit(OrBytes(a, c)[k], b) <==> HasBit(a[k], b) || HasBit(c[k], b))
  {
    forall k, b | 0 <= k < |a| && 0 <= b < 8
      ensures HasBit(OrBytes(a, c)[k], b) <==> HasBit(a[k], b) || HasBit(c[k], b)
    {
      OrBit(a[k], c[k], b);
    }
  }

  lemma AndBytesBits(a: seq<bv8>, c: seq<bv8>)
    requires |a| == |c|
    ensures forall k, b :: 0 <= k < |a| && 0 <= b < 8 ==>
      (HasBit(AndBytes(a, c)[k], b) <==> HasBit(a[k], b) && HasBit(c[k], b))
  {
    forall k, b | 0 <= k < |a| && 0 <= b < 8
      ensures HasBit(AndBytes(a, c)[k], b) <==> HasBit(a[k], b) && HasBit(c[k], b)
    {
      AndBit(a[k], c[k], b);
    }
  }

  /** Every vector in `vs` has `n` bytes. */
  predicate AllOfLength(vs: seq<seq<bv8>>, n: nat)
  {
    forall w :: 0 <= w < |vs| ==> |vs[w]| == n
  }

  /** Two vectors of length `n` with the same bits are equal. */
  lemma VectorExtensionality(n: nat, x: seq<bv8>, y: seq<bv8>)
    requires |x| == n && |y| == n
    requires forall k, b :: 0 <= k < n && 0 <= b < 8 ==> (HasBit(x[k], b) <==> HasBit(y[k], b))
    ensures x == y
  {
    forall k | 0 <= k < n ensures x[k] == y[k] {
      ByteExtensionality(x[k], y[k]);
    }
  }

  /**
   * Left-to-right OR reduction of `vs`, starting from all zeros: the shape of
   * both the thread-local reduction (`decision |= ...`) and the cross-worker
   * `Allreduce(..., kBitwiseOR)`. A bit of the result is set exactly when some
   * vector in `vs` has it set.
   */
  function OrAll(n: nat, vs: seq<seq<bv8>>): (r: seq<bv8>)
    requires AllOfLength(vs, n)
    ensures |r| == n
    ensures forall k, b :: 0 <= k < n && 0 <= b < 8 ==>
      (HasBit(r[k], b) <==> exists w :: 0 <= w < |vs| && HasBit(vs[w][k], b))
    decreases |vs|
  {
    if |vs| == 0 then Zeros(n)
    else
      var prefix := OrAll(n, vs[..|vs| - 1]);
      OrBytesBits(prefix, vs[|vs| - 1]);
      OrBytes(prefix, vs[|vs| - 1])
  }

  /**
   * Left-to-right AND reduction of `vs`, starting from all ones
   * (`Allreduce(..., kBitwiseAND)`). A bit of the result is set exactly when
   * every vector in `vs` has it set.
   */
  function AndAll(n: nat, vs: seq<seq<bv8>>): (r: seq<bv8>)
    requires AllOfLength(vs, n)
    ensures |r| == n
    ensures forall k, b :: 0 <= k < n && 0 <= b < 8 ==>
      (HasBit(r[k], b) <==> forall w :: 0 <= w < |vs| ==> HasBit(vs[w][k], b))
    decreases |vs|
  {
    if |vs| == 0 then
      assert forall k, b :: 0 <= k < n && 0 <= b < 8 ==> HasBit(Ones(n)[k], b);
      Ones(n)
    else
      var prefix := AndAll(n, vs[..|vs| - 1]);
      AndBytesBits(prefix, vs[|vs| - 1]);
      AndBytes(prefix, vs[|vs| - 1])
  }

  /** Both reductions are insensitive to the order (and repetition) of their operands. */
  lemma {:induction false} OrAllOrderIndependent(n: nat, vs: seq<seq<bv8>>, ws: seq<seq<bv8>>)
    requires AllOfLength(vs, n) && AllOfLength(ws, n)
    requires forall v :: v in vs <==> v in ws
    ensures OrAll(n, vs) == OrAll(n, ws)
  {
    var x, y := OrAll(n, vs), OrAll(n, ws);
    forall k, b | 0 <= k < n && 0 <= b < 8 ensures HasBit(x[k], b) <==> HasBit(y[k], b) {
      if HasBit(x[k], b) {
        var w :| 0 <= w < |vs| && HasBit(vs[w][k], b);
        assert vs[w] in ws;
        var w' :| 0 <= w' < |ws| && ws[w'] == vs[w];
        assert HasBit(ws[w'][k], b);
      }
      if HasBit(y[k], b) {
        var w :| 0 <= w < |ws| && HasBit(ws[w][k], b);
        assert ws[w] in vs;
        var w' :| 0 <= w' < |vs| && vs[w'] == ws[w];
        assert HasBit(vs[w'][k], b);
      }
    }
    VectorExtensionality(n, x, y);
  }

  lemma {:induction false} AndAllOrderIndependent(n: nat, vs: seq<seq<bv8>>, ws: seq<seq<bv8>>)
    requires AllOfLength(vs, n) && AllOfLength(ws, n)
    requires forall v :: v in vs <==> v in ws
    ensures AndAll(n, vs) == AndAll(n, ws)
  {
    var x, y := AndAll(n, vs), AndAll(n, ws);
    forall k, b | 0 <= k < n && 0 <= b < 8 ensures HasBit(x[k], b) <==> HasBit(y[k], b) {
      if HasBit(x[k], b) {
        forall w | 0 <= w < |ws| ensures HasBit(ws[w][k], b) {
          assert ws[w] in vs;
          var w' :| 0 <= w' < |vs| && vs[w'] == ws[w];
          assert HasBit(vs[w'][k], b);
        }
      }
      if HasBit(y[k], b) {
        forall w | 0 <= w < |vs| ensures HasBit(vs[w][k], b) {
          assert vs[w] in ws;
          var w' :| 0 <= w' < |ws| && ws[w'] == vs[w];
          assert HasBit(ws[w'][k], b);
        }
      }
    }
    VectorExtensionality(n, x, y);
  }

  /** A zero vector inserted anywhere does not change the OR reduction. */
  lemma {:induction false} OrAllZeroNeutral(n: nat, vs: seq<seq<bv8>>, i: nat)
    requires AllOfLength(vs, n)
    requires i <= |vs|
    ensures AllOfLength(vs[..i] + [Zeros(n)] + vs[i..], n)
    ensures OrAll(n, vs[..i] + [Zeros(n)] + vs[i..]) == OrAll(n, vs)
  {
    var ws := vs[..i] + [Zeros(n)] + vs[i..];
    assert forall w :: 0 <= w < |ws| ==> ws[w] == (if w < i then vs[w] else if w == i then Zeros(n) else vs[w - 1]);
    var x, y := OrAll(n, ws), OrAll(n, vs);
    forall k, b | 0 <= k < n && 0 <= b < 8 ensures HasBit(x[k], b) <==> HasBit(y[k], b) {
      if HasBit(x[k], b) {
        var w :| 0 <= w < |ws| && HasBit(ws[w][k], b);
        assert w != i;
        if w < i { assert HasBit(vs[w][k], b); } else { assert HasBit(vs[w - 1][k], b); }
      }
      if HasBit(y[k], b) {
        var w :| 0 <= w < |vs| && HasBit(vs[w][k], b);
        if w < i { assert HasBit(ws[w][k], b); } else { assert HasBit(ws[w + 1][k], b); }
      }
    }
    VectorExtensionality(n, x, y);
  }

  /** An all-ones vector inserted anywhere does not change the AND reduction. */
  lemma {:induction false} AndAllOnesNeutral(n: nat, vs: seq<seq<bv8>>, i: nat)
    requires AllOfLength(vs, n)
    requires i <= |vs|
    ensures AllOfLength(vs[..i] + [Ones(n)] + vs[i..], n)
    ensures AndAll(n, vs[..i] + [Ones(n)] + vs[i..]) == AndAll(n, vs)
  {
    var ws := vs[..i] + [Ones(n)] + vs[i..];
    assert forall w :: 0 <= w < |ws| ==> ws[w] == (if w < i then vs[w] else if w == i then Ones(n) else vs[w - 1]);
    var x, y := AndAll(n, ws), AndAll(n, vs);
    forall k, b | 0 <= k < n && 0 <= b < 8 ensures HasBit(x[k], b) <==> HasBit(y[k], b) {
      if HasBit(x[k], b) {
        forall w | 0 <= w < |vs| ensures HasBit(vs[w][k], b) {
          if w < i { assert HasBit(ws[w][k], b); } else { assert HasBit(ws[w + 1][k], b); }
        }
      }
      if HasBit(y[k], b) {
        forall w | 0 <= w < |ws| ensures HasBit(ws[w][k], b) {
          if w < i { assert ws[w] == vs[w]; }
          else if w == i { assert HasBit(Ones(n)[k], b); }
          else { assert ws[w] == vs[w - 1]; }
        }
      }
    }
    VectorExtensionality(n, x, y);
  }

  /** Reducing a single vector returns it unchanged (0 is the identity of OR). */
  lemma OrAllSingleton(n: nat, v: seq<bv8>)
    requires |v| == n
    ensures AllOfLength([v], n)
    ensures OrAll(n, [v]) == v
  {
    var x := OrAll(n, [v]);
    forall k, b | 0 <= k < n && 0 <= b < 8 ensures HasBit(x[k], b) <==> HasBit(v[k], b) {
      if HasBit(v[k], b) { assert [v][0] == v; }
    }
    VectorExtensionality(n, x, v);
  }
}
