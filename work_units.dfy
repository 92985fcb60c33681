/**
 * Work-unit sizing in `UpdatePosition`: every frontier node's rows are cut
 * into blocks of `kPartitionBlockSize` rows, one task per block, and the
 * tasks of all nodes are numbered in one flat sequence.
 */
module WorkUnits {
  import opened Arith

  /** `kPartitionBlockSize`. */
  const PARTITION_BLOCK_SIZE: nat := 2048

  /**
   * `size / kPartitionBlockSize + !!(size % kPartitionBlockSize)`: the number
   * of tasks for a node of `size` rows. It is zero exactly for an empty node,
   * and otherwise the blocks hold all rows with the last block non-empty.
   */
  function NumTasks(size: nat): (r: nat)
    ensures size == 0 <==> r == 0
    ensures r > 0 ==> (r - 1) * PARTITION_BLOCK_SIZE < size <= r * PARTITION_BLOCK_SIZE
  {
    size / PARTITION_BLOCK_SIZE + (if size % PARTITION_BLOCK_SIZE != 0 then 1 else 0)
  }

  /** The task count is the ceiling of `size / kPartitionBlockSize`: no fewer blocks hold the rows. */
  lemma NumTasksIsCeiling(size: nat, t: nat)
    requires size <= t * PARTITION_BLOCK_SIZE
    ensures NumTasks(size) == DivRoundUp(size, PARTITION_BLOCK_SIZE)
    ensures NumTasks(size) <= t
  {
    DivRoundUpIsLeast(size, PARTITION_BLOCK_SIZE, NumTasks(size));
    DivRoundUpIsLeast(size, PARTITION_BLOCK_SIZE, t);
  }

  /** Task `k` of a node of `size` rows covers the rows `[TaskBegin(k), TaskEnd(size, k))`. */
  function TaskBegin(k: nat): nat
  {
    k * PARTITION_BLOCK_SIZE
  }

  function TaskEnd(size: nat, k: nat): nat
  {
    if (k + 1) * PARTITION_BLOCK_SIZE < size then (k + 1) * PARTITION_BLOCK_SIZE else size
  }

  /**
   * The blocks of a node tile its rows: each of the `NumTasks(size)` tasks is
   * non-empty and at most one block long, and row `p` lies in task `p / 2048`
   * and in no other.
   */
  lemma TasksTileNode(size: nat, p: nat)
    requires p < size
    ensures var k := p / PARTITION_BLOCK_SIZE;
      && k < NumTasks(size)
      && TaskBegin(k) <= p < TaskEnd(size, k)
      && forall j :: 0 <= j < NumTasks(size) && TaskBegin(j) <= p < TaskEnd(size, j) ==> j == k
  {
  }

  lemma TaskIsBlock(size: nat, k: nat)
    requires k < NumTasks(size)
    ensures TaskBegin(k) < TaskEnd(size, k) <= TaskBegin(k) + PARTITION_BLOCK_SIZE
  {
    MulMonotone(k + 1, NumTasks(size), PARTITION_BLOCK_SIZE);
    if k + 1 < NumTasks(size) {
      MulMonotone(k + 1, NumTasks(size) - 1, PARTITION_BLOCK_SIZE);
    }
  }

  /** The task count of every frontier node, in frontier order. */
  function TaskCounts(sizes: seq<nat>): (r: seq<nat>)
    ensures |r| == |sizes|
    ensures forall i :: 0 <= i < |sizes| ==> r[i] == NumTasks(sizes[i])
  {
    seq(|sizes|, i requires 0 <= i < |sizes| => NumTasks(sizes[i]))
  }

  function Sum(xs: seq<nat>): nat
  {
    if |xs| == 0 then 0 else Sum(xs[..|xs| - 1]) + xs[|xs| - 1]
  }

  lemma {:induction false} SumPrefixMonotone(xs: seq<nat>, i: nat, j: nat)
    requires i <= j <= |xs|
    ensures Sum(xs[..i]) <= Sum(xs[..j])
    decreases j - i
  {
    if i < j {
      SumPrefixMonotone(xs, i, j - 1);
      assert xs[..j][..j - 1] == xs[..j - 1];
    }
  }

  /**
   * The builder is sized for `Sum(TaskCounts(sizes))` tasks: together they
   * hold every row of the frontier, and since no task is empty there are
   * never more tasks than rows.
   */
  lemma {:induction false} TaskCountsCoverFrontier(sizes: seq<nat>)
    ensures Sum(sizes) <= Sum(TaskCounts(sizes)) * PARTITION_BLOCK_SIZE
    ensures Sum(TaskCounts(sizes)) <= Sum(sizes)
    decreases |sizes|
  {
    if |sizes| > 0 {
      var init := sizes[..|sizes| - 1];
      var last := sizes[|sizes| - 1];
      TaskCountsCoverFrontier(init);
      assert TaskCounts(sizes)[..|sizes| - 1] == TaskCounts(init);
      var r := NumTasks(last);
      assert r <= last by {
        if r > 0 {
          MulMonotone(1, r, PARTITION_BLOCK_SIZE);
          assert (r - 1) * PARTITION_BLOCK_SIZE + PARTITION_BLOCK_SIZE == r * PARTITION_BLOCK_SIZE;
        }
      }
    }
  }

  /**
   * The flat number of task `k` of frontier node `node`: the tasks of the
   * earlier nodes come first.
   */
  function TaskIndex(counts: seq<nat>, node: nat, k: nat): nat
    requires node < |counts|
  {
    Sum(counts[..node]) + k
  }

  /**
   * Flat task numbers fit the space of `Sum(counts)` tasks that the builder
   * is initialised with, and distinct (node, task) pairs get distinct numbers,
   * so each task writes only its own slot.
   */
  lemma {:induction false} TaskIndexInjective(counts: seq<nat>, n1: nat, k1: nat, n2: nat, k2: nat)
    requires n1 < |counts| && k1 < counts[n1]
    requires n2 < |counts| && k2 < counts[n2]
    ensures TaskIndex(counts, n1, k1) < Sum(counts)
    ensures TaskIndex(counts, n1, k1) == TaskIndex(counts, n2, k2) ==> n1 == n2 && k1 == k2
  {
    assert counts[..n1 + 1][..n1] == counts[..n1];
    SumPrefixMonotone(counts, n1 + 1, |counts|);
    assert counts[..|counts|] == counts;
    if n1 < n2 {
      assert counts[..n1 + 1][..n1] == counts[..n1];
      SumPrefixMonotone(counts, n1 + 1, n2);
    } else if n2 < n1 {
      assert counts[..n2 + 1][..n2] == counts[..n2];
      SumPrefixMonotone(counts, n2 + 1, n1);
    }
  }
}
