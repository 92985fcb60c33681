# CommonRowPartitioner, modelled in Dafny

This project models the CPU row partitioner that the `hist` and `approx` tree
methods of XGBoost share (`src/tree/common_row_partitioner.h`). The partitioner
owns two things: the row-index array of one data batch, and the row-set
collection, which maps every live tree node to the contiguous range of that
array holding the node's rows. After every round of splits it moves each
frontier node's rows into the node's two children.

The model covers these parts of the partitioner:

- **Split conditions** (`SplitConditions`). Every frontier node's split
  threshold is resolved to a global bin id by an exact-match scan of the
  feature's cut values. The last match wins, and `-1` means there was no
  match. A feature whose bin range does not end below `INT32_MAX` stops the
  scan with a fatal CHECK.
- **Work units** (`WorkUnits`). Each node's rows are split into tasks of
  `kPartitionBlockSize` = 2048 rows. The task count is
  `size / 2048 + !!(size % 2048)`, which is a ceiling division. Tasks are
  numbered in one flat space.
- **Reset and construction** (`RowPartitioner.CommonRowPartitioner`). The
  row-index array is filled with `base_rowid + k`. The row-set collection
  restarts with the root owning every row, and in column-split mode a fresh
  column-split helper is created.
- **The column-split bit-vector protocol** (`ColumnSplit`, `ByteVectors`,
  `Agreement`). Features may be split across workers. The protocol runs in
  these steps:
  - Each worker zeroes its byte buffers.
  - It carves `n_threads` disjoint slices out of a flat thread-local buffer.
  - Every task ORs its decision bit and missing bit for each row into the
    slice of the thread that ran it.
  - The worker ORs the slices into slice 0 and copies slice 0 to its storage.
  - The workers' storages are combined: bitwise OR for the decision bits,
    bitwise AND for the missing bits.

  The model proves three things about the protocol. The thread-local phase
  yields the OR of every task's bits, whatever thread ran each task. The
  combine does not depend on worker order. A worker that knows nothing is
  neutral in the combine. `Agreement` goes further: after the combine, every
  worker's bits describe each row exactly as a single worker holding every
  feature would.
- **Recording splits** (`RowPartitioner`, `RowSet`). `AddSplitsToRowSet`
  CHECKs that each node's right child is its left child plus one, then cuts
  the node's range into its children's ranges. The model proves that a
  recorded batch keeps the partition invariant: every row position is owned
  by exactly one live node, within bounds. It also proves that each child
  gets exactly the builder's row count, and that a failed CHECK is reported
  at the first node that fails it.
- **Leaf skip predicates** (`LeafSkip`). These are the three predicates that
  `LeafPartition` passes to the leaf assignment pass. The multi-target
  predicate skips a row only if every target's hessian is zero. The
  single-target shortcut is proved to agree with that rule. With the row ids
  that `Reset` stores, each predicate is proved to read the weight of the very
  row it is asked about, through the `- base_rowid` offset.

Every fatal `CHECK` that an input can fail is modelled as an error result:
`Outcome.Aborted`, `Status.Fatal`, or the index at which `FindSplitConditions`
stopped. The exception is the `CHECK_EQ` after the thread-local reduction
(line 88), which no input can fail: `ColumnSplitHelper.Partition` proves it as
an assertion, since every thread slice has exactly `decision_storage_.size()`
bytes. The model
does not include `PartitionBuilder` or `RowSetCollection`. Their results
(per-task masks, per-node left and right counts) are inputs to the model, and
`RowSetCollection::AddSplit`/`Init` are modelled by the contract their call
sites need. Cut values and thresholds are `int`, because they are only
compared for equality. Bytes are `bv8`.

Two details of the split-bin scan are stated here as the code has them:

- The comment at line 172 says `-1` means the threshold is below all known cut
  points. The loop at lines 174-178 does not enforce that. It leaves `-1`
  whenever no cut value of the feature equals the threshold, and the model
  follows the loop. `BelowAllCutsResolvesToSentinel` proves the comment's case
  as a consequence, assuming strictly increasing cuts.
- The CHECK at line 173 tests `ptrs[fidx + 1] < INT32_MAX`. `ptrs[fidx + 1]` is
  the exclusive end of the feature's bin range, one past its last global bin
  id. `BinIdFits` models exactly this test.

## Model

| member | source | states |
|---|---|---|
| Arith.DivRoundUp | src/tree/common_row_partitioner.h:265 | round-up division: `x <= r * d`, `(r - 1) * d < x` when `r > 0`, zero exactly for `x == 0` |
| Arith.DivRoundUpIsLeast | src/tree/common_row_partitioner.h:265 | no `t` smaller than the round-up quotient has `x <= t * d` |
| WorkUnits.NumTasks | src/tree/common_row_partitioner.h:262-267 | a node's task count is 0 exactly for an empty node, and otherwise `(tasks - 1) * 2048 < size <= tasks * 2048` |
| WorkUnits.NumTasksIsCeiling | src/tree/common_row_partitioner.h:29 | the task count equals `ceil(size / kPartitionBlockSize)` and is at most any count of 2048-row blocks that holds the node |
| WorkUnits.TasksTileNode | src/tree/common_row_partitioner.h:251-258 | row `p` of a node lies in task `p / 2048`, which exists, and in no other task |
| WorkUnits.TaskIsBlock | src/tree/common_row_partitioner.h:251-258 | every task of a node is non-empty and at most 2048 rows long |
| WorkUnits.TaskCountsCoverFrontier | src/tree/common_row_partitioner.h:251-267 | the frontier's total task count, which sizes the builder, holds every row of the frontier in 2048-row blocks and never exceeds the number of rows |
| WorkUnits.SumPrefixMonotone | src/tree/common_row_partitioner.h:262 | task counts summed over a longer prefix of the frontier are never smaller |
| WorkUnits.TaskIndexInjective | src/tree/common_row_partitioner.h:262-267 | a (node, task) pair's flat task number lies below the total the builder is sized for, and distinct pairs get distinct numbers |
| SplitConditions.LastMatch | src/tree/common_row_partitioner.h:174-178 | `-1` exactly when no value in `[lo, hi)` equals the threshold; otherwise an index in range whose value equals it, with no later equal value |
| SplitConditions.ResolveSplitBin | src/tree/common_row_partitioner.h:170-178 | the inner scan loop returns `LastMatch` of the feature's range |
| SplitConditions.NodeSplitBin | src/tree/common_row_partitioner.h:165-179 | a node's split bin is `-1` or a bin of its split feature whose cut equals the threshold, and it fits `int32_t` when the CHECK passes |
| SplitConditions.FindSplitConditions | src/tree/common_row_partitioner.h:157-181 | stops at the first node failing `ptrs[fidx + 1] < INT32_MAX` (every earlier node passes), writes `NodeSplitBin` into slot `i` for every node before it, and writes no other slot |
| SplitConditions.ExactCutResolves | src/tree/common_row_partitioner.h:174-178 | with strictly increasing cuts, a threshold equal to cut `j` resolves to bin `j` |
| SplitConditions.BelowAllCutsResolvesToSentinel | src/tree/common_row_partitioner.h:170-178 | with strictly increasing cuts, a threshold below the feature's smallest cut resolves to `-1` |
| ByteVectors.StorageSize | src/tree/common_row_partitioner.h:39 | a bit vector over `numBits` rows takes the fewest bytes that hold `numBits` bits |
| ByteVectors.OrAll | src/tree/common_row_partitioner.h:84-87 | a bit of the OR reduction is set exactly when some operand has it set |
| ByteVectors.AndAll | src/tree/common_row_partitioner.h:96 | a bit of the AND reduction is set exactly when every operand has it set |
| ByteVectors.OrAllOrderIndependent | src/tree/common_row_partitioner.h:93-94 | the OR reduction depends only on the set of operands, not on their order or repetition |
| ByteVectors.AndAllOrderIndependent | src/tree/common_row_partitioner.h:95-96 | the AND reduction depends only on the set of operands, not on their order or repetition |
| ByteVectors.OrAllZeroNeutral | src/tree/common_row_partitioner.h:53-59 | an all-zero vector inserted anywhere leaves the OR reduction unchanged |
| ByteVectors.AndAllOnesNeutral | src/tree/common_row_partitioner.h:95-96 | an all-ones vector inserted anywhere leaves the AND reduction unchanged |
| ByteVectors.OrAllSingleton | src/tree/common_row_partitioner.h:82-83 | reducing slice 0 alone returns slice 0 |
| ColumnSplit.MakeTloc | src/tree/common_row_partitioner.h:63-68 | thread `tidx`'s slice has `n` bytes, starts at byte `n * tidx` and ends inside the buffer |
| ColumnSplit.TlocDisjoint | src/tree/common_row_partitioner.h:63-68 | every byte of another thread's slice lies outside thread `t`'s slice |
| ColumnSplit.TlocCover | src/tree/common_row_partitioner.h:56-57 | every byte of the `n * n_threads` buffer lies in the slice of thread `p / n`, at offset `p % n` |
| ColumnSplit.Tlocs | src/tree/common_row_partitioner.h:82-87 | the first `count` thread slices, each `n` bytes long |
| ColumnSplit.OrSlice | src/tree/common_row_partitioner.h:85-86 | ORing a vector into slice `t` changes slice `t` to the bytewise OR and leaves every byte outside it alone |
| ColumnSplit.OrSliceOther | src/tree/common_row_partitioner.h:85-86 | ORing into one thread's slice leaves every other thread's slice unchanged |
| ColumnSplit.Combine | src/tree/common_row_partitioner.h:93-97 | a combined decision bit is set iff some worker set it; a combined missing bit is set iff every worker set it |
| ColumnSplit.CombineOrderIndependent | src/tree/common_row_partitioner.h:93-97 | the combine gives the same vectors for any listing of the same workers |
| ColumnSplit.CombineNeutralWorker | src/tree/common_row_partitioner.h:93-97 | a worker with decision all zero and missing all ones, inserted anywhere, leaves the combine unchanged |
| ColumnSplit.LocalBits | src/tree/common_row_partitioner.h:81-90 | the worker's local vector has `n` bytes; it is defined as the OR of the bits of every task, the reference `ThreadReductionIsTaskReduction` proves the thread-local reduction equal to |
| ColumnSplit.ThreadReductionIsTaskReduction | src/tree/common_row_partitioner.h:70-87 | reducing the per-thread slices gives exactly the OR of every task's bits, whatever thread ran each task |
| ColumnSplit.ZeroFill | src/tree/common_row_partitioner.h:53-59 | the buffer becomes all zero |
| ColumnSplit.CopyN | src/tree/common_row_partitioner.h:89-90 | the destination becomes the first `dst.size()` bytes of the source |
| ColumnSplit.Store | src/tree/common_row_partitioner.h:93-97 | the storage is overwritten in place with the collective's result |
| ColumnSplit.OrIntoSlice | src/tree/common_row_partitioner.h:76-78 | a task's bits are ORed into its thread's slice; the rest of the buffer is as `OrSlice` says |
| ColumnSplit.OrSliceIntoFirst | src/tree/common_row_partitioner.h:85-86 | `slice0 |= slice(t)` in place: the new buffer is `OrSlice` of slice 0 with the old slice `t` |
| ColumnSplit.ApplyMasks | src/tree/common_row_partitioner.h:70-79 | after every task has run on a zeroed buffer, thread `t`'s slice is the OR of the bits of the tasks that ran on `t` |
| ColumnSplit.ReduceThreadLocal | src/tree/common_row_partitioner.h:81-87 | after the loop over `tidx = 1 .. n_threads - 1`, slice 0 is the OR of all `n_threads` original slices, and every other slice is unchanged |
| ColumnSplit.ThreadLocalPhase | src/tree/common_row_partitioner.h:56-87 | a fresh buffer of `n * n_threads` bytes whose slice 0 holds the worker's local vector and whose slice `u >= 1` holds the OR of the tasks that ran on thread `u` |
| ColumnSplit.ColumnSplitHelper.Empty | src/tree/common_row_partitioner.h:33 | the default helper: all buffers fresh, empty and distinct |
| ColumnSplit.ColumnSplitHelper.constructor | src/tree/common_row_partitioner.h:35-44 | both storages are fresh and hold `ComputeStorageSize(num_row)` zero bytes |
| ColumnSplit.ColumnSplitHelper.Partition | src/tree/common_row_partitioner.h:47-98 | the storages keep their identity; the thread-local buffers are fresh with `n * n_threads` bytes; the collective succeeds exactly when all workers' buffers have the worker's size, and the storages then hold `Combine` of the local vectors and the peers' (the local vectors alone otherwise) |
| Agreement.FullView | src/tree/common_row_partitioner.h:51-52 | what a worker holding all features knows: nothing iff no worker knows, otherwise some worker's answer |
| Agreement.CombineAgreesWithFullView | src/tree/common_row_partitioner.h:93-97 | when workers that hold the feature agree, each row's combined bits decode to the all-features answer |
| Agreement.RoutingAgreesWithFullView | src/tree/common_row_partitioner.h:100-108 | every worker routes every row as a worker holding all features would, including missing values taking the default side |
| RowSet.Init | src/tree/common_row_partitioner.h:147-148 | after `Clear()` and `Init()` only the root is live, owning `[0, num_row)` |
| RowSet.InitPartitioned | src/tree/common_row_partitioner.h:147-148 | the initial row sets partition the row-index array |
| RowSet.AddSplit | src/tree/common_row_partitioner.h:191-192 | succeeds iff the node is live and `n_left + n_right` is its size (the error says which failed); the children take `[begin, begin + n_left)` and `[begin + n_left, end)`, the node stops being live, other nodes are unchanged |
| RowSet.AddSplitPreservesPartition | src/tree/common_row_partitioner.h:191-192 | a split into two new children loses no row, creates none and shares none |
| RowPartitioner.RecordFirst | src/tree/common_row_partitioner.h:184-194 | a batch can fail only at one of the nodes already processed |
| RowPartitioner.AbortPersists | src/tree/common_row_partitioner.h:186-193 | once a node's split fails, later nodes do not change the outcome |
| RowPartitioner.StepChecksChildren | src/tree/common_row_partitioner.h:190 | one iteration succeeds only for adjacent children, and fails on the child CHECK exactly when they are not adjacent |
| RowPartitioner.RecordSplitsChecksChildren | src/tree/common_row_partitioner.h:190 | a recorded batch had adjacent children at every node; a failed batch passed the CHECK at every earlier node and fails on the CHECK exactly when the failing node's children are not adjacent |
| RowPartitioner.RecordSplitsLiveNodes | src/tree/common_row_partitioner.h:191-192 | every node live after a batch was live before or is a child of the frontier |
| RowPartitioner.PartitionNext | src/tree/common_row_partitioner.h:186-193 | one more iteration of the loop keeps the live ranges a partition of the row-index array when the new node's children are new |
| RowPartitioner.RecordSplitsPreservesPartition | src/tree/common_row_partitioner.h:184-194 | a recorded batch with new, unshared children keeps the live ranges a partition of the row-index array |
| RowPartitioner.SplitSetsChildSizes | src/tree/common_row_partitioner.h:191-192 | a split gives its children the builder's left and right counts |
| RowPartitioner.SplitKeepsChildSizes | src/tree/common_row_partitioner.h:191-192 | a split leaves the children of an unrelated frontier node alone |
| RowPartitioner.ChildSizesNext | src/tree/common_row_partitioner.h:186-193 | one more iteration of the loop keeps every earlier node's child sizes and sets the new node's |
| RowPartitioner.RecordSplitsChildSizes | src/tree/common_row_partitioner.h:184-194 | after a recorded batch, every frontier node's children own exactly `n_left[i]` and `n_right[i]` rows |
| RowPartitioner.SplitConditionsPhase | src/tree/common_row_partitioner.h:245-249 | without a column matrix no bins are resolved; with one, either every node's bin is resolved or the scan stops at the first node failing the `int32_t` CHECK |
| RowPartitioner.Iota | src/tree/common_row_partitioner.h:144-145 | entry `k` becomes `base + k` |
| RowPartitioner.CommonRowPartitioner.constructor | src/tree/common_row_partitioner.h:131-135 | stores `base_rowid` and `is_col_split`, then the state `Reset` establishes, with a fresh row-index array and fresh helper buffers |
| RowPartitioner.CommonRowPartitioner.Reset | src/tree/common_row_partitioner.h:137-153 | a fresh array of `num_row` row indices with entry `k == base_rowid + k`; only the root is live, owning every row; in column-split mode a fresh helper with zeroed storages, otherwise the old helper; the partition invariant holds |
| RowPartitioner.CommonRowPartitioner.AddSplitsToRowSet | src/tree/common_row_partitioner.h:184-194 | the outcome is the node-by-node fold `RecordSplits`; on failure at node `at`, the row sets hold exactly the splits of the nodes before `at` |
| RowPartitioner.CommonRowPartitioner.UpdatePosition | src/tree/common_row_partitioner.h:239-301 | each fatal error (split-bin overflow at the first failing node, `base_rowid` mismatch, failed collective, rejected split) happens exactly under its condition and in source order; otherwise the row sets are the recorded batch with the partition invariant kept, the task counts are `NumTasks` of each node's size, the split bins are resolved, and in column-split mode the helper's storages hold the combined vectors |
| RowPartitioner.SkipByHessReadsOwnRow | src/tree/common_row_partitioner.h:312-317 | with the row ids `Reset` stores, the hessian-span predicate on the row id at any position `p` a live node owns reads that row's own hessian, `hess[p]`, and the id is inside the window |
| RowPartitioner.SkipByGpairReadsOwnRow | src/tree/common_row_partitioner.h:337-344 | with the row ids `Reset` stores, the gradient-pair predicate on the row id at a live position `p` skips exactly when `gpair[p]` has a zero hessian |
| RowPartitioner.SkipByMatrixReadsOwnRow | src/tree/common_row_partitioner.h:319-336 | with the row ids `Reset` stores, the matrix predicate on the row id at a live position `p` skips exactly when every target of row `p` has a zero hessian |
| LeafSkip.AllHessZero | src/tree/common_row_partitioner.h:325-327 | the `all_of` over a row's targets holds iff every target's hessian is zero |
| LeafSkip.SkipByMatrix | src/tree/common_row_partitioner.h:319-336 | with one target or several, a row is skipped iff every target's hessian in its row is zero |
| LeafSkip.SingleTargetMatrixAgrees | src/tree/common_row_partitioner.h:329-335 | a one-target matrix skips exactly the rows the gradient-pair span with the same column skips |
| LeafSkip.HessSpanAgrees | src/tree/common_row_partitioner.h:312-317 | the hessian-span predicate and the gradient-pair predicate agree on the same hessians |

## Left out

- Thread dispatch (`common::ParallelFor2d`, OpenMP): the loop bodies are modelled sequentially. A task's thread index is an input (`TaskMask.tidx`), and the reduction proof holds for any assignment of tasks to threads.
- The collective transport (`collective::Allreduce`, `SafeColl`): the cross-worker step is the pure OR/AND fold `Combine` over the peers' vectors, which are inputs. A failed collective is modelled only as buffers of unequal size, which end in `CollectiveFailed`.
- `PartitionBuilder` internals are not part of this model. `MaskRows`' output is modelled as one decision/missing pair per task, and `GetNLeftElems`/`GetNRightElems` as the inputs `nLeft`/`nRight`. `Init`, `AllocateForTask`, `Partition`, `PartitionByMask`, `CalculateRowOffsets`, `MergeToArray` and the leaf assignment pass have no model beyond the task sizing and the skip predicates.
- RowPartitioner.CommonRowPartitioner.UpdatePosition: does not permute the row-index array. `MergeToArray` is not part of this model, so only the node ranges are updated. The ensures covers those ranges, not which rows move to which child.
- `RowSetCollection` internals are not part of this model. `AddSplit` and `Init` are modelled by the contract the partitioner relies on: a missing node and a count mismatch are errors. `Partitions()`, `Size()` and `operator[]` are plain accessors and are not modelled.
- The floating-point zero test `hess - .0f == .0f` is an abstract predicate `isZero`. Thresholds and cut values are `int`, which are compared only for equality.
- Template dispatch on bin width and on the missing and categorical flags is compile-time specialisation with no behaviour of its own. The column matrix's `IsInitialized()` is the input `columnMatrixInitialised`.
- Integer widths: row counts, sizes and ids are unbounded `nat`. Only the `int32_t` bound on bin ids is modelled (`INT32_MAX`), and the `uint32_t` pointer width appears as a well-formedness bound on the cut table.
- The bit layout inside a byte (`RBitField8`) is not fixed. The protocol's properties are stated per byte and per bit, for all eight bit positions.
- Routing a row by its bin id against the split bin, including how the `-1` sentinel routes, lives in `PartitionBuilder`, which is not part of this model.
- The default constructor of `CommonRowPartitioner` leaves `is_col_split_` uninitialised, so it has no defined behaviour to model. `row_indices.resize` is modelled as a fresh array.
- The SYCL plugin and the test files are not part of this model.
