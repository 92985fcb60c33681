/**
 * `ColumnSplitHelper` (src/tree/common_row_partitioner.h): when the feature
 * columns are split across workers, every worker first records, per row, a
 * decision bit ("goes right") and a missing bit ("feature value not present
 * here") in thread-local byte buffers, reduces them into one pair of vectors,
 * and then combines its vectors with every other worker's: OR on the
 * decision bits, AND on the missing bits.
 */
module ColumnSplit {
  import opened Arith
  import opened ByteVectors

  /** The two bit vectors one party (a task, a thread or a worker) contributes. */
  datatype BitPair = BitPair(decision: seq<bv8>, missing: seq<bv8>)

  /** Selects one of the two vectors of a BitPair. */
  datatype Side = DecisionSide | MissingSide

  function Bits(p: BitPair, side: Side): seq<bv8>
  {
    match side
    case DecisionSide => p.decision
    case MissingSide => p.missing
  }

  /** Both vectors of every pair have `n` bytes. */
  predicate PairsOfLength(ps: seq<BitPair>, n: nat)
  {
    forall i :: 0 <= i < |ps| ==> |ps[i].decision| == n && |ps[i].missing| == n
  }

  /** The vectors of one side, in order. */
  function Column(ps: seq<BitPair>, side: Side): (r: seq<seq<bv8>>)
    ensures |r| == |ps|
    ensures forall i :: 0 <= i < |ps| ==> r[i] == Bits(ps[i], side)
  {
    seq(|ps|, i requires 0 <= i < |ps| => Bits(ps[i], side))
  }

  lemma ColumnOfLength(ps: seq<BitPair>, n: nat, side: Side)
    requires PairsOfLength(ps, n)
    ensures AllOfLength(Column(ps, side), n)
  {
  }

  // ---------------------------------------------------------------------------
  // Thread-local storage: `n_threads` slices of `n` bytes carved from one buffer.
  // ---------------------------------------------------------------------------

  /** n * t + n <= n * count whenever t < count. */
  lemma SliceFits(n: nat, t: nat, count: nat)
    requires t < count
    ensures n * t + n <= n * count
  {
    MulMonotone(t + 1, count, n);
  }

  /**
   * `make_tloc(storage, tidx)`: the slice `[n * tidx, n * tidx + n)` of the
   * flat buffer; `subspan` forbids a slice that runs past the end.
   * Its length is `n`, which is what the CHECK after the reduction compares
   * against `decision_storage_.size()`.
   */
  function MakeTloc(storage: seq<bv8>, n: nat, nThreads: nat, tidx: nat): (r: seq<bv8>)
    requires |storage| == n * nThreads && tidx < nThreads
    ensures n * tidx + n <= |storage|
    ensures |r| == n
    ensures forall k :: 0 <= k < n ==> r[k] == storage[n * tidx + k]
  {
    SliceFits(n, tidx, nThreads);
    storage[n * tidx .. n * tidx + n]
  }

  /**
   * Slices of distinct threads never share a byte: byte `k` of thread
   * `other`'s slice lies outside thread `t`'s slice.
   */
  lemma {:induction false} TlocDisjoint(n: nat, t: nat, other: nat, k: nat)
    requires t != other && k < n
    ensures n * other + k < n * t || n * t + n <= n * other + k
  {
    if other < t {
      MulMonotone(other + 1, t, n);
      assert (other + 1) * n == n * other + n;
    } else {
      MulMonotone(t + 1, other, n);
      assert (t + 1) * n == n * t + n;
    }
  }

  /** Every byte of a buffer of `n * nThreads` bytes lies in the slice of some thread. */
  lemma {:induction false} TlocCover(n: nat, nThreads: nat, p: nat)
    requires p < n * nThreads
    ensures n > 0
    ensures p / n < nThreads && p == n * (p / n) + p % n && p % n < n
  {
    if n == 0 {
      assert false;
    }
    var t, k := p / n, p % n;
    assert p == n * t + k;
    if t >= nThreads {
      MulMonotone(nThreads, t, n);
      assert false;
    }
  }

  /** The first `count` thread slices of a buffer of `n * nThreads` bytes. */
  function Tlocs(storage: seq<bv8>, n: nat, nThreads: nat, count: nat): (r: seq<seq<bv8>>)
    requires |storage| == n * nThreads && count <= nThreads
    ensures |r| == count
    ensures AllOfLength(r, n)
    ensures forall t :: 0 <= t < count ==> r[t] == MakeTloc(storage, n, nThreads, t)
  {
    if count == 0 then []
    else Tlocs(storage, n, nThreads, count - 1) + [MakeTloc(storage, n, nThreads, count - 1)]
  }

  /** `storage` with `v` ORed into the slice of thread `t`. */
  function OrSlice(storage: seq<bv8>, n: nat, nThreads: nat, t: nat, v: seq<bv8>): (r: seq<bv8>)
    requires |storage| == n * nThreads && t < nThreads && |v| == n
    ensures |r| == |storage|
    ensures MakeTloc(r, n, nThreads, t) == OrBytes(MakeTloc(storage, n, nThreads, t), v)
    ensures forall p :: 0 <= p < |storage| && !(n * t <= p < n * t + n) ==> r[p] == storage[p]
  {
    SliceFits(n, t, nThreads);
    storage[..n * t] + OrBytes(storage[n * t .. n * t + n], v) + storage[n * t + n ..]
  }

  /** ORing into one thread's slice leaves every other thread's slice alone. */
  lemma OrSliceOther(storage: seq<bv8>, n: nat, nThreads: nat, t: nat, v: seq<bv8>, other: nat)
    requires |storage| == n * nThreads && t < nThreads && other < nThreads && |v| == n
    requires other != t
    ensures MakeTloc(OrSlice(storage, n, nThreads, t, v), n, nThreads, other)
         == MakeTloc(storage, n, nThreads, other)
  {
    var r := OrSlice(storage, n, nThreads, t, v);
    var x, y := MakeTloc(r, n, nThreads, other), MakeTloc(storage, n, nThreads, other);
    forall k | 0 <= k < n ensures x[k] == y[k] {
      TlocDisjoint(n, t, other, k);
    }
  }

  // ---------------------------------------------------------------------------
  // Tasks: each unit of work runs on one thread and sets bits in its slices.
  // ---------------------------------------------------------------------------

  /** The bits `MaskRows` sets for one work unit, and the thread that ran it. */
  datatype TaskMask = TaskMask(tidx: nat, bits: BitPair)

  /** Every task ran on a thread below `nThreads` and contributes `n`-byte vectors. */
  predicate TasksFit(ms: seq<TaskMask>, n: nat, nThreads: nat)
  {
    forall i :: 0 <= i < |ms| ==>
      ms[i].tidx < nThreads && |ms[i].bits.decision| == n && |ms[i].bits.missing| == n
  }

  /** The contributions of the tasks that ran on thread `t`, in task order. */
  function OfThread(ms: seq<TaskMask>, t: nat): (r: seq<BitPair>)
    ensures |r| <= |ms|
    ensures forall p :: p in r <==> exists i :: 0 <= i < |ms| && ms[i].tidx == t && ms[i].bits == p
  {
    if |ms| == 0 then []
    else
      var init := OfThread(ms[..|ms| - 1], t);
      var last := ms[|ms| - 1];
      assert forall i :: 0 <= i < |ms| - 1 ==> ms[..|ms| - 1][i] == ms[i];
      init + (if last.tidx == t then [last.bits] else [])
  }

  lemma OfThreadFits(ms: seq<TaskMask>, n: nat, nThreads: nat, t: nat)
    requires TasksFit(ms, n, nThreads)
    ensures PairsOfLength(OfThread(ms, t), n)
  {
    var r := OfThread(ms, t);
    forall i | 0 <= i < |r| ensures |r[i].decision| == n && |r[i].missing| == n {
      assert r[i] in r;
    }
  }

  /** The contributions of all tasks, in task order. */
  function AllTasks(ms: seq<TaskMask>): (r: seq<BitPair>)
    ensures |r| == |ms|
    ensures forall i :: 0 <= i < |ms| ==> r[i] == ms[i].bits
  {
    seq(|ms|, i requires 0 <= i < |ms| => ms[i].bits)
  }

  /** What thread `t`'s slice on `side` holds after every task has run. */
  function ThreadSlice(ms: seq<TaskMask>, n: nat, nThreads: nat, t: nat, side: Side): (r: seq<bv8>)
    requires TasksFit(ms, n, nThreads)
    ensures |r| == n
  {
    OfThreadFits(ms, n, nThreads, t);
    ColumnOfLength(OfThread(ms, t), n, side);
    OrAll(n, Column(OfThread(ms, t), side))
  }

  /** What a worker holds locally after the thread-local reduction. */
  function LocalBits(ms: seq<TaskMask>, n: nat, side: Side): (r: seq<bv8>)
    requires forall i :: 0 <= i < |ms| ==> |ms[i].bits.decision| == n && |ms[i].bits.missing| == n
    ensures |r| == n
  {
    ColumnOfLength(AllTasks(ms), n, side);
    OrAll(n, Column(AllTasks(ms), side))
  }

  /** The worker's local pair of vectors: every task's bits ORed together. */
  function LocalPair(ms: seq<TaskMask>, n: nat): (r: BitPair)
    requires forall i :: 0 <= i < |ms| ==> |ms[i].bits.decision| == n && |ms[i].bits.missing| == n
    ensures |r.decision| == n && |r.missing| == n
  {
    BitPair(LocalBits(ms, n, DecisionSide), LocalBits(ms, n, MissingSide))
  }

  /** A bit set in some thread's slice was set by a task that ran on that thread. */
  lemma ThreadBitFromTask(ms: seq<TaskMask>, n: nat, nThreads: nat, t: nat, side: Side, k: nat, b: nat)
    requires TasksFit(ms, n, nThreads)
    requires k < n && b < 8
    requires HasBit(ThreadSlice(ms, n, nThreads, t, side)[k], b)
    ensures exists i :: 0 <= i < |ms| && HasBit(Bits(ms[i].bits, side)[k], b)
  {
    var group := OfThread(ms, t);
    OfThreadFits(ms, n, nThreads, t);
    var col := Column(group, side);
    var j :| 0 <= j < |col| && HasBit(col[j][k], b);
    assert group[j] in group;
    var i :| 0 <= i < |ms| && ms[i].tidx == t && ms[i].bits == group[j];
    assert HasBit(Bits(ms[i].bits, side)[k], b);
  }

  /** A bit a task set shows up in the slice of the thread it ran on. */
  lemma TaskBitInThread(ms: seq<TaskMask>, n: nat, nThreads: nat, i: nat, side: Side, k: nat, b: nat)
    requires TasksFit(ms, n, nThreads)
    requires i < |ms| && k < n && b < 8
    requires HasBit(Bits(ms[i].bits, side)[k], b)
    ensures HasBit(ThreadSlice(ms, n, nThreads, ms[i].tidx, side)[k], b)
  {
    var t := ms[i].tidx;
    var group := OfThread(ms, t);
    OfThreadFits(ms, n, nThreads, t);
    var col := Column(group, side);
    assert ms[i].bits in group;
    var j :| 0 <= j < |group| && group[j] == ms[i].bits;
    assert HasBit(col[j][k], b);
  }

  /** The thread slices as the reduction sees them. */
  predicate SlicesOfThreads(ms: seq<TaskMask>, n: nat, nThreads: nat, slices: seq<seq<bv8>>, side: Side)
    requires TasksFit(ms, n, nThreads)
  {
    && |slices| == nThreads
    && forall t :: 0 <= t < nThreads ==> slices[t] == ThreadSlice(ms, n, nThreads, t, side)
  }

  /** A bit of the reduced slices was set by some task. */
  lemma ReducedBitFromTask(ms: seq<TaskMask>, n: nat, nThreads: nat, slices: seq<seq<bv8>>, side: Side,
                           k: nat, b: nat)
    requires TasksFit(ms, n, nThreads) && SlicesOfThreads(ms, n, nThreads, slices, side)
    requires k < n && b < 8
    requires AllOfLength(slices, n) && HasBit(OrAll(n, slices)[k], b)
    ensures HasBit(LocalBits(ms, n, side)[k], b)
  {
    var all := Column(AllTasks(ms), side);
    var t :| 0 <= t < nThreads && HasBit(slices[t][k], b);
    ThreadBitFromTask(ms, n, nThreads, t, side, k, b);
    var i :| 0 <= i < |ms| && HasBit(Bits(ms[i].bits, side)[k], b);
    assert HasBit(all[i][k], b);
  }

  /** A bit some task set survives the reduction of the thread slices. */
  lemma TaskBitInReduced(ms: seq<TaskMask>, n: nat, nThreads: nat, slices: seq<seq<bv8>>, side: Side,
                         k: nat, b: nat)
    requires TasksFit(ms, n, nThreads) && SlicesOfThreads(ms, n, nThreads, slices, side)
    requires k < n && b < 8
    requires AllOfLength(slices, n) && HasBit(LocalBits(ms, n, side)[k], b)
    ensures HasBit(OrAll(n, slices)[k], b)
  {
    var all := Column(AllTasks(ms), side);
    var i :| 0 <= i < |all| && HasBit(all[i][k], b);
    TaskBitInThread(ms, n, nThreads, i, side, k, b);
    assert HasBit(slices[ms[i].tidx][k], b);
  }

  /**
   * Reducing the per-thread slices gives the OR of every task's contribution:
   * grouping the tasks by thread loses no bit and invents none, since each
   * task's thread index is below `nThreads`.
   */
  lemma {:induction false} ThreadReductionIsTaskReduction(ms: seq<TaskMask>, n: nat, nThreads: nat,
                                                          slices: seq<seq<bv8>>, side: Side)
    requires TasksFit(ms, n, nThreads)
    requires |slices| == nThreads
    requires forall t :: 0 <= t < nThreads ==> slices[t] == ThreadSlice(ms, n, nThreads, t, side)
    ensures AllOfLength(slices, n)
    ensures OrAll(n, slices) == LocalBits(ms, n, side)
  {
    assert SlicesOfThreads(ms, n, nThreads, slices, side);
    assert AllOfLength(slices, n);
    var x, y := OrAll(n, slices), LocalBits(ms, n, side);
    forall k, b | 0 <= k < n && 0 <= b < 8 ensures HasBit(x[k], b) <==> HasBit(y[k], b) {
      if HasBit(x[k], b) {
        ReducedBitFromTask(ms, n, nThreads, slices, side, k, b);
      }
      if HasBit(y[k], b) {
        TaskBitInReduced(ms, n, nThreads, slices, side, k, b);
      }
    }
    VectorExtensionality(n, x, y);
  }

  // ---------------------------------------------------------------------------
  // Cross-worker combine (`Allreduce` with kBitwiseOR and kBitwiseAND).
  // ---------------------------------------------------------------------------

  /**
   * The combined vectors of all workers: decision bits ORed, missing bits ANDed.
   * A decision bit is set when some worker set it; a missing bit is set only
   * when every worker set it.
   */
  function Combine(n: nat, workers: seq<BitPair>): (r: BitPair)
    requires PairsOfLength(workers, n)
    ensures |r.decision| == n && |r.missing| == n
    ensures forall k, b :: 0 <= k < n && 0 <= b < 8 ==>
      (HasBit(r.decision[k], b) <==> exists w :: 0 <= w < |workers| && HasBit(workers[w].decision[k], b))
    ensures forall k, b :: 0 <= k < n && 0 <= b < 8 ==>
      (HasBit(r.missing[k], b) <==> forall w :: 0 <= w < |workers| ==> HasBit(workers[w].missing[k], b))
  {
    ColumnOfLength(workers, n, DecisionSide);
    ColumnOfLength(workers, n, MissingSide);
    BitPair(OrAll(n, Column(workers, DecisionSide)), AndAll(n, Column(workers, MissingSide)))
  }

  /** The combined result does not depend on the order in which workers are listed. */
  lemma CombineOrderIndependent(n: nat, vs: seq<BitPair>, ws: seq<BitPair>)
    requires PairsOfLength(vs, n) && PairsOfLength(ws, n)
    requires forall p :: p in vs <==> p in ws
    ensures Combine(n, vs) == Combine(n, ws)
  {
    ColumnOfLength(vs, n, DecisionSide);
    ColumnOfLength(vs, n, MissingSide);
    ColumnOfLength(ws, n, DecisionSide);
    ColumnOfLength(ws, n, MissingSide);
    forall side, v | v in Column(vs, side) ensures v in Column(ws, side) {
      var i :| 0 <= i < |vs| && Column(vs, side)[i] == v;
      assert vs[i] in ws;
      var j :| 0 <= j < |ws| && ws[j] == vs[i];
      assert Column(ws, side)[j] == v;
    }
    forall side, v | v in Column(ws, side) ensures v in Column(vs, side) {
      var i :| 0 <= i < |ws| && Column(ws, side)[i] == v;
      assert ws[i] in vs;
      var j :| 0 <= j < |vs| && vs[j] == ws[i];
      assert Column(vs, side)[j] == v;
    }
    OrAllOrderIndependent(n, Column(vs, DecisionSide), Column(ws, DecisionSide));
    AndAllOrderIndependent(n, Column(vs, MissingSide), Column(ws, MissingSide));
  }

  /** Inserting a pair into a list inserts its vector into every column. */
  lemma ColumnInsert(ws: seq<BitPair>, x: BitPair, i: nat, side: Side)
    requires i <= |ws|
    ensures Column(ws[..i] + [x] + ws[i..], side) == Column(ws, side)[..i] + [Bits(x, side)] + Column(ws, side)[i..]
  {
    var vs := ws[..i] + [x] + ws[i..];
    var lhs, rhs := Column(vs, side), Column(ws, side)[..i] + [Bits(x, side)] + Column(ws, side)[i..];
    assert |lhs| == |rhs|;
    forall w | 0 <= w < |lhs| ensures lhs[w] == rhs[w] {
      if w < i {
        assert vs[w] == ws[w];
      } else if w > i {
        assert vs[w] == ws[w - 1];
      }
    }
  }

  /**
   * A worker that knows nothing about any row (decision all zero, missing all
   * ones) can be added at any position without changing the combined result.
   */
  lemma CombineNeutralWorker(n: nat, ws: seq<BitPair>, i: nat)
    requires PairsOfLength(ws, n) && i <= |ws|
    ensures PairsOfLength(ws[..i] + [BitPair(Zeros(n), Ones(n))] + ws[i..], n)
    ensures Combine(n, ws[..i] + [BitPair(Zeros(n), Ones(n))] + ws[i..]) == Combine(n, ws)
  {
    var neutral := BitPair(Zeros(n), Ones(n));
    var vs := ws[..i] + [neutral] + ws[i..];
    assert forall w :: 0 <= w < |vs| ==> vs[w] == (if w < i then ws[w] else if w == i then neutral else ws[w - 1]);
    ColumnOfLength(ws, n, DecisionSide);
    ColumnOfLength(ws, n, MissingSide);
    ColumnInsert(ws, neutral, i, DecisionSide);
    ColumnInsert(ws, neutral, i, MissingSide);
    OrAllZeroNeutral(n, Column(ws, DecisionSide), i);
    AndAllOnesNeutral(n, Column(ws, MissingSide), i);
  }

  /** Every worker's vectors have `n` bytes, as `Allreduce` requires of equal buffers. */
  predicate PeersFit(peers: seq<BitPair>, n: nat)
  {
    PairsOfLength(peers, n)
  }

  // ---------------------------------------------------------------------------
  // In-place buffer operations.
  // ---------------------------------------------------------------------------

  /** `std::fill(..., 0)` / `std::fill_n(..., 0)`. */
  method ZeroFill(a: array<bv8>)
    modifies a
    ensures a[..] == Zeros(a.Length)
  {
    for k := 0 to a.Length
      invariant forall j :: 0 <= j < k ==> a[j] == 0
    {
      a[k] := 0;
    }
  }

  /** `std::copy_n(src, dst.size(), dst)`. */
  method CopyN(src: array<bv8>, dst: array<bv8>)
    requires src != dst && dst.Length <= src.Length
    modifies dst
    ensures dst[..] == src[..dst.Length]
  {
    for k := 0 to dst.Length
      invariant forall j :: 0 <= j < k ==> dst[j] == src[j]
    {
      dst[k] := src[k];
    }
  }

  /** Overwrites `a` with `s` (the in-place result of a collective call). */
  method Store(a: array<bv8>, s: seq<bv8>)
    requires |s| == a.Length
    modifies a
    ensures a[..] == s
  {
    for k := 0 to a.Length
      invariant forall j :: 0 <= j < k ==> a[j] == s[j]
    {
      a[k] := s[k];
    }
  }

  /** ORs `v` into the slice of thread `t` (what `MaskRows` does with its bits). */
  method OrIntoSlice(buf: array<bv8>, n: nat, nThreads: nat, t: nat, v: seq<bv8>)
    requires buf.Length == n * nThreads && t < nThreads && |v| == n
    modifies buf
    ensures buf[..] == OrSlice(old(buf[..]), n, nThreads, t, v)
  {
    SliceFits(n, t, nThreads);
    var lo := n * t;
    ghost var before := buf[..];
    for k := 0 to n
      invariant forall j :: 0 <= j < k ==> buf[lo + j] == before[lo + j] | v[j]
      invariant forall p :: 0 <= p < buf.Length && !(lo <= p < lo + k) ==> buf[p] == before[p]
    {
      buf[lo + k] := buf[lo + k] | v[k];
    }
    OrSliceFromBytes(before, buf[..], n, nThreads, t, v);
  }

  /** A buffer that agrees with `OrSlice` byte by byte is `OrSlice`. */
  lemma OrSliceFromBytes(before: seq<bv8>, after: seq<bv8>, n: nat, nThreads: nat, t: nat, v: seq<bv8>)
    requires |before| == n * nThreads && t < nThreads && |v| == n && |after| == |before|
    requires n * t + n <= |before|
    requires forall j :: 0 <= j < n ==> after[n * t + j] == before[n * t + j] | v[j]
    requires forall p :: 0 <= p < |after| && !(n * t <= p < n * t + n) ==> after[p] == before[p]
    ensures after == OrSlice(before, n, nThreads, t, v)
  {
    forall p | 0 <= p < |after| ensures after[p] == OrSlice(before, n, nThreads, t, v)[p] {
      OrSliceAt(before, n, nThreads, t, v, p);
      if n * t <= p < n * t + n {
        assert p == n * t + (p - n * t);
      }
    }
  }

  /** Byte `p` of `OrSlice`: ORed with `v` inside slice `t`, unchanged outside. */
  lemma OrSliceAt(storage: seq<bv8>, n: nat, nThreads: nat, t: nat, v: seq<bv8>, p: nat)
    requires |storage| == n * nThreads && t < nThreads && |v| == n && p < |storage|
    ensures n * t <= p < n * t + n ==> OrSlice(storage, n, nThreads, t, v)[p] == storage[p] | v[p - n * t]
    ensures !(n * t <= p < n * t + n) ==> OrSlice(storage, n, nThreads, t, v)[p] == storage[p]
  {
    var r := OrSlice(storage, n, nThreads, t, v);
    if n * t <= p < n * t + n {
      assert MakeTloc(r, n, nThreads, t)[p - n * t] == r[p];
    }
  }

  /** `decision |= make_tloc(storage, t)`: ORs slice `t` into slice 0 in place. */
  method OrSliceIntoFirst(buf: array<bv8>, n: nat, nThreads: nat, t: nat)
    requires buf.Length == n * nThreads && 1 <= t < nThreads
    modifies buf
    ensures buf[..] == OrSlice(old(buf[..]), n, nThreads, 0, MakeTloc(old(buf[..]), n, nThreads, t))
  {
    MulMonotone(1, t, n);
    SliceFits(n, t, nThreads);
    var off := n * t;
    assert n <= off && off + n <= buf.Length;
    ghost var before := buf[..];
    for k := 0 to n
      invariant forall j :: 0 <= j < k ==> buf[j] == before[j] | before[off + j]
      invariant forall p :: k <= p < buf.Length ==> buf[p] == before[p]
    {
      buf[k] := buf[k] | buf[off + k];
    }
    ghost var src := MakeTloc(before, n, nThreads, t);
    assert forall j :: 0 <= j < n ==> src[j] == before[off + j];
    assert n * 0 == 0;
    OrSliceFromBytes(before, buf[..], n, nThreads, 0, src);
  }

  /** One task of the masking phase extends the slice of its thread and no other. */
  lemma MaskStep(before: seq<bv8>, ms: seq<TaskMask>, i: nat, n: nat, nThreads: nat, side: Side, t: nat)
    requires |before| == n * nThreads && TasksFit(ms, n, nThreads) && i < |ms| && t < nThreads
    requires TasksFit(ms[..i], n, nThreads)
    requires MakeTloc(before, n, nThreads, t) == ThreadSlice(ms[..i], n, nThreads, t, side)
    ensures TasksFit(ms[..i + 1], n, nThreads)
    ensures MakeTloc(OrSlice(before, n, nThreads, ms[i].tidx, Bits(ms[i].bits, side)), n, nThreads, t)
         == ThreadSlice(ms[..i + 1], n, nThreads, t, side)
  {
    var m := ms[i];
    assert ms[..i + 1][..i] == ms[..i];
    assert ms[..i + 1][i] == m;
    OfThreadFits(ms[..i], n, nThreads, t);
    ColumnOfLength(OfThread(ms[..i], t), n, side);
    if t == m.tidx {
      var prev := Column(OfThread(ms[..i], t), side);
      assert Column(OfThread(ms[..i + 1], t), side) == prev + [Bits(m.bits, side)];
      assert (prev + [Bits(m.bits, side)])[..|prev|] == prev;
    } else {
      OrSliceOther(before, n, nThreads, m.tidx, Bits(m.bits, side), t);
      assert OfThread(ms[..i + 1], t) == OfThread(ms[..i], t);
    }
  }

  /** The masking phase: each task ORs its bits into its thread's slice of a zeroed buffer. */
  method ApplyMasks(buf: array<bv8>, n: nat, nThreads: nat, ms: seq<TaskMask>, side: Side)
    requires buf.Length == n * nThreads
    requires buf[..] == Zeros(n * nThreads)
    requires TasksFit(ms, n, nThreads)
    modifies buf
    ensures forall t :: 0 <= t < nThreads ==>
      MakeTloc(buf[..], n, nThreads, t) == ThreadSlice(ms, n, nThreads, t, side)
  {
    forall t | 0 <= t < nThreads
      ensures MakeTloc(buf[..], n, nThreads, t) == ThreadSlice(ms[..0], n, nThreads, t, side)
    {
      assert MakeTloc(buf[..], n, nThreads, t) == Zeros(n);
    }
    for i := 0 to |ms|
      invariant TasksFit(ms[..i], n, nThreads)
      invariant forall t :: 0 <= t < nThreads ==>
        MakeTloc(buf[..], n, nThreads, t) == ThreadSlice(ms[..i], n, nThreads, t, side)
    {
      ghost var before := buf[..];
      OrIntoSlice(buf, n, nThreads, ms[i].tidx, Bits(ms[i].bits, side));
      forall t | 0 <= t < nThreads
        ensures TasksFit(ms[..i + 1], n, nThreads)
        ensures MakeTloc(buf[..], n, nThreads, t) == ThreadSlice(ms[..i + 1], n, nThreads, t, side)
      {
        MaskStep(before, ms, i, n, nThreads, side, t);
      }
    }
    assert ms[..|ms|] == ms;
  }

  /** The reduction loop: `for tidx in 1 .. n_threads: slice0 |= slice(tidx)`. */
  method ReduceThreadLocal(buf: array<bv8>, n: nat, nThreads: nat)
    requires 1 <= nThreads && buf.Length == n * nThreads
    modifies buf
    ensures MakeTloc(buf[..], n, nThreads, 0) == OrAll(n, Tlocs(old(buf[..]), n, nThreads, nThreads))
    ensures forall u :: 1 <= u < nThreads ==> MakeTloc(buf[..], n, nThreads, u) == MakeTloc(old(buf[..]), n, nThreads, u)
  {
    ghost var orig := buf[..];
    OrAllSingleton(n, MakeTloc(orig, n, nThreads, 0));
    assert Tlocs(orig, n, nThreads, 1) == [MakeTloc(orig, n, nThreads, 0)];
    for t := 1 to nThreads
      invariant MakeTloc(buf[..], n, nThreads, 0) == OrAll(n, Tlocs(orig, n, nThreads, t))
      invariant forall u :: 1 <= u < nThreads ==>
        MakeTloc(buf[..], n, nThreads, u) == MakeTloc(orig, n, nThreads, u)
    {
      ghost var before := buf[..];
      OrSliceIntoFirst(buf, n, nThreads, t);
      forall u | 1 <= u < nThreads
        ensures MakeTloc(buf[..], n, nThreads, u) == MakeTloc(orig, n, nThreads, u)
      {
        OrSliceOther(before, n, nThreads, 0, MakeTloc(before, n, nThreads, t), u);
      }
      ghost var prev := Tlocs(orig, n, nThreads, t);
      assert Tlocs(orig, n, nThreads, t + 1) == prev + [MakeTloc(orig, n, nThreads, t)];
      assert (prev + [MakeTloc(orig, n, nThreads, t)])[..t] == prev;
    }
  }

  /**
   * The thread-local part of `Partition` for one of the two buffers: resize
   * to `n_threads` slices, zero, let every task set its bits, and OR the
   * slices into slice 0, which then holds the worker's local vector.
   */
  method ThreadLocalPhase(n: nat, nThreads: nat, masks: seq<TaskMask>, side: Side) returns (tloc: array<bv8>)
    requires 1 <= nThreads
    requires TasksFit(masks, n, nThreads)
    ensures fresh(tloc)
    ensures tloc.Length == n * nThreads
    ensures MakeTloc(tloc[..], n, nThreads, 0) == LocalBits(masks, n, side)
    ensures forall u :: 1 <= u < nThreads ==> MakeTloc(tloc[..], n, nThreads, u) == ThreadSlice(masks, n, nThreads, u, side)
  {
    tloc := new bv8[n * nThreads];
    ZeroFill(tloc);
    ApplyMasks(tloc, n, nThreads, masks, side);
    ghost var masked := tloc[..];
    ReduceThreadLocal(tloc, n, nThreads);
    ThreadReductionIsTaskReduction(masks, n, nThreads, Tlocs(masked, n, nThreads, nThreads), side);
  }

  class ColumnSplitHelper {
    /** `decision_storage_`: one decision bit per local row. */
    var decisionStorage: array<bv8>
    /** `missing_storage_`: one missing bit per local row. */
    var missingStorage: array<bv8>
    /** `tloc_decision_`: `n_threads` thread slices of decision bits. */
    var tlocDecision: array<bv8>
    /** `tloc_missing_`: `n_threads` thread slices of missing bits. */
    var tlocMissing: array<bv8>

    /** The four buffers are distinct and the two storages have the same size. */
    ghost predicate Valid()
      reads this
    {
      && decisionStorage.Length == missingStorage.Length
      && decisionStorage != missingStorage
      && tlocDecision != tlocMissing
      && tlocDecision != decisionStorage && tlocDecision != missingStorage
      && tlocMissing != decisionStorage && tlocMissing != missingStorage
    }

    /** `ColumnSplitHelper() = default`: all buffers empty. */
    constructor Empty()
      ensures Valid()
      ensures fresh(decisionStorage) && fresh(missingStorage) && fresh(tlocDecision) && fresh(tlocMissing)
      ensures decisionStorage.Length == 0 && tlocDecision.Length == 0 && tlocMissing.Length == 0
    {
      decisionStorage := new bv8[0];
      missingStorage := new bv8[0];
      tlocDecision := new bv8[0];
      tlocMissing := new bv8[0];
    }

    /** Sizes both storages to one bit per row, all bits clear. */
    constructor (numRow: nat)
      ensures Valid()
      ensures fresh(decisionStorage) && fresh(missingStorage) && fresh(tlocDecision) && fresh(tlocMissing)
      ensures decisionStorage[..] == Zeros(StorageSize(numRow))
      ensures missingStorage[..] == Zeros(StorageSize(numRow))
      ensures tlocDecision.Length == 0 && tlocMissing.Length == 0
    {
      var nBytes := StorageSize(numRow);
      decisionStorage := new bv8[nBytes](_ => 0);
      missingStorage := new bv8[nBytes](_ => 0);
      tlocDecision := new bv8[0];
      tlocMissing := new bv8[0];
    }

    /**
     * `Partition` up to the point where the bit vectors are final: zero the
     * buffers, let every task set its bits in its thread's slices, OR the
     * slices into slice 0, copy slice 0 into the storages and combine the
     * storages with the other workers' (`peers`). The result is `ok == false`
     * when a peer's buffers differ in size, which fails the collective call.
     */
    method Partition(nThreads: nat, masks: seq<TaskMask>, peers: seq<BitPair>) returns (ok: bool)
      requires Valid()
      requires 1 <= nThreads
      requires TasksFit(masks, decisionStorage.Length, nThreads)
      modifies this, decisionStorage, missingStorage
      ensures Valid()
      ensures decisionStorage == old(decisionStorage) && missingStorage == old(missingStorage)
      ensures fresh(tlocDecision) && fresh(tlocMissing)
      ensures tlocDecision.Length == decisionStorage.Length * nThreads
      ensures tlocMissing.Length == decisionStorage.Length * nThreads
      ensures ok == PeersFit(peers, decisionStorage.Length)
      ensures ok ==> PairsOfLength([LocalPair(masks, decisionStorage.Length)] + peers, decisionStorage.Length)
      ensures ok ==> BitPair(decisionStorage[..], missingStorage[..])
                     == Combine(decisionStorage.Length, [LocalPair(masks, decisionStorage.Length)] + peers)
      ensures !ok ==> BitPair(decisionStorage[..], missingStorage[..]) == LocalPair(masks, decisionStorage.Length)
    {
      var n := decisionStorage.Length;
      ZeroFill(decisionStorage);
      ZeroFill(missingStorage);

      tlocDecision := ThreadLocalPhase(n, nThreads, masks, DecisionSide);
      tlocMissing := ThreadLocalPhase(n, nThreads, masks, MissingSide);

      // CHECK_EQ(decision_storage_.size(), decision.NumValues()) always holds.
      assert |MakeTloc(tlocDecision[..], n, nThreads, 0)| == decisionStorage.Length;
      CopyN(tlocDecision, decisionStorage);
      CopyN(tlocMissing, missingStorage);
      assert decisionStorage[..] == MakeTloc(tlocDecision[..], n, nThreads, 0);
      assert missingStorage[..] == MakeTloc(tlocMissing[..], n, nThreads, 0);

      ok := PeersFit(peers, n);
      if ok {
        var combined := Combine(n, [BitPair(decisionStorage[..], missingStorage[..])] + peers);
        Store(decisionStorage, combined.decision);
        Store(missingStorage, combined.missing);
      }
    }
  }
}
