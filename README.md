# Window ranking functions of the vectorized windower

A model of the ranking window functions that the windower processor of
CockroachDB's vectorized engine computes: ROW_NUMBER, RANK, DENSE_RANK,
PERCENT_RANK and CUME_DIST. It covers rows of INT columns, an optional
PARTITION BY and an optional ORDER BY. The model follows the test tables of
`pkg/sql/colexec/colexecwindow/window_functions_test.go`.

The windower reads the rows in the order the upstream sort delivers them:
by partition key, then by ordering key, ascending, with NULL before every
integer and equal to NULL. Partitions and peer groups are runs of that
stream. Each output row is the input row with one value appended at
`OutputColIdx`:
- an INT for ROW_NUMBER, RANK and DENSE_RANK;
- a FLOAT for PERCENT_RANK and CUME_DIST, here an exact `real`.

Modules, one per file:
- `datums.dfy` (`Datums`): nullable INT values and the NULL-first lexicographic order.
- `boundaries.dfy` (`Boundaries`): partition and peer-group starts and ends in the sorted stream.
- `ranking.dfy` (`Ranking`): the five functions defined from those boundaries, with their properties.
- `reference.dfy` (`Reference`): the same functions defined by counting rows against the current row's key, as the SQL standard words them, and proved equal on sorted input.
- `evaluators.dfy` (`Evaluators`): the streaming evaluator for ROW_NUMBER, RANK and DENSE_RANK. It keeps three counters over one pass. The buffering evaluator handles PERCENT_RANK and CUME_DIST: it scans a partition, then emits it one peer group at a time. Both are proved to match `Ranking` row for row.
- `windower.dfy` (`Processor`): the processor spec, its result types, and the output table as a function. It also has an operator method proved equal to that function, plus a two-pass column computation (left to right for starts, right to left for ends) used to evaluate the tables.
- `test_vectors.dfy` (`Vectors`): the fifteen test cases. Each proves three things:
  - the sorted rows are a rearrangement of the test's tuples;
  - they are in key order;
  - the windower produces exactly the expected tuples.

## Model

| member | source | states |
|---|---|---|
| Datums.NullSortsFirst | pkg/sql/colexec/colexecwindow/window_functions_test.go:151-152 | NULL sorts before every integer, and nothing sorts before NULL |
| Boundaries.PartitionStart | pkg/sql/colexec/colexecwindow/window_functions_test.go:71-72 | the start of row i's partition is a partition start at or before i, with no partition start between it and i |
| Boundaries.PartitionEnd | pkg/sql/colexec/colexecwindow/window_functions_test.go:71-72 | the end of row i's partition lies after i; it is the end of the input or a partition start, with none in between |
| Boundaries.PeerStart | pkg/sql/colexec/colexecwindow/window_functions_test.go:151-152 | the start of row i's peer group is a peer-group start at or before i, with none in between |
| Boundaries.PeerEnd | pkg/sql/colexec/colexecwindow/window_functions_test.go:151-152 | the end of row i's peer group lies after i; it is the end of the input or a peer-group start, with none in between |
| Boundaries.PeerGroupWithinPartition | pkg/sql/colexec/colexecwindow/window_functions_test.go:205-206 | a peer group never starts before its partition or ends after it |
| Boundaries.PartitionIsKeyClass | pkg/sql/colexec/colexecwindow/window_functions_test.go:205-206 | in sorted input a row is in row i's partition exactly when its partition key equals row i's, so all NULL partition values form one partition |
| Boundaries.SortedPairs | pkg/sql/colexec/colexecwindow/window_functions_test.go:205-206 | in sorted input any earlier row is ordered before any later row, not only neighbours |
| Ranking.PartitionSize | pkg/sql/colexec/colexecwindow/window_functions_test.go:177-178 | the partition size N is between 1 and the number of rows |
| Ranking.RowNumber | pkg/sql/colexec/colexecwindow/window_functions_test.go:71-72 | ROW_NUMBER lies between 1 and the partition size |
| Ranking.RowNumbersOfPartition | pkg/sql/colexec/colexecwindow/window_functions_test.go:71-72 | ROW_NUMBER numbers the rows of every partition 1..N in stream order, starting at 1 and ending at N |
| Ranking.RowNumberSteps | pkg/sql/colexec/colexecwindow/window_functions_test.go:205-206 | ROW_NUMBER is 1 exactly on partition starts and one more than the previous row's elsewhere |
| Ranking.RowNumberWithoutPartitionBy | pkg/sql/colexec/colexecwindow/window_functions_test.go:138-139 | without PARTITION BY, ROW_NUMBER runs 1..n over the whole input and N is n |
| Ranking.WithoutOrderBy | pkg/sql/colexec/colexecwindow/window_functions_test.go:84-124 | without ORDER BY, RANK and DENSE_RANK are 1, PERCENT_RANK is 0 and CUME_DIST is 1 on every row |
| Ranking.PartitionIsOnePeerGroup | pkg/sql/colexec/colexecwindow/window_functions_test.go:84-85 | without ORDER BY every partition is a single peer group |
| Ranking.Rank | pkg/sql/colexec/colexecwindow/window_functions_test.go:151-152 | RANK lies between 1 and the row's ROW_NUMBER |
| Ranking.RankIsRowNumberOfFirstPeer | pkg/sql/colexec/colexecwindow/window_functions_test.go:151-152 | RANK is the ROW_NUMBER of the first row of the peer group |
| Ranking.RankSteps | pkg/sql/colexec/colexecwindow/window_functions_test.go:219-220 | inside a partition RANK stays put within a peer group; at a new peer group it jumps by the previous group's size, to the row's ROW_NUMBER, leaving gaps after ties |
| Ranking.DenseRank | pkg/sql/colexec/colexecwindow/window_functions_test.go:164-165 | DENSE_RANK is at least 1 and at most the row's position plus one |
| Ranking.DenseRankAtMostRank | pkg/sql/colexec/colexecwindow/window_functions_test.go:164-165 | DENSE_RANK never exceeds RANK |
| Ranking.DenseRankSteps | pkg/sql/colexec/colexecwindow/window_functions_test.go:233-234 | DENSE_RANK is 1 exactly on a partition's first peer group and rises by exactly 1 at each new peer group inside a partition |
| Ranking.DenseRankOfPeerGroup | pkg/sql/colexec/colexecwindow/window_functions_test.go:164-165 | every row has the DENSE_RANK of its peer group's first row |
| Ranking.PeersShareRanks | pkg/sql/colexec/colexecwindow/window_functions_test.go:151-165 | all rows of a peer group get the same RANK and DENSE_RANK |
| Ranking.PeersShareRelativeRanks | pkg/sql/colexec/colexecwindow/window_functions_test.go:177-191 | all rows of a peer group get the same PERCENT_RANK and CUME_DIST |
| Ranking.Ratio | pkg/sql/colexec/colexecwindow/window_functions_test.go:285-287 | the exact quotient a/b is non-negative, 0 exactly when a is 0, at most 1 when a <= b, and 1 exactly when a = b |
| Ranking.RatioScaled | pkg/sql/colexec/colexecwindow/window_functions_test.go:177-178 | the quotient times b gives back a |
| Ranking.PercentRank | pkg/sql/colexec/colexecwindow/window_functions_test.go:177-178 | PERCENT_RANK lies in [0, 1] |
| Ranking.PercentRankFirstPeerGroup | pkg/sql/colexec/colexecwindow/window_functions_test.go:247-248 | PERCENT_RANK is 0 exactly on a partition's first peer group, so always in a one-row partition |
| Ranking.PercentRankScaled | pkg/sql/colexec/colexecwindow/window_functions_test.go:177-178 | outside one-row partitions PERCENT_RANK times (N - 1) is RANK - 1 |
| Ranking.CumeCount | pkg/sql/colexec/colexecwindow/window_functions_test.go:190-191 | the rows up to the end of the peer group number at least ROW_NUMBER and at most N |
| Ranking.CumeDist | pkg/sql/colexec/colexecwindow/window_functions_test.go:190-191 | CUME_DIST lies in (0, 1] |
| Ranking.CumeDistLastPeerGroup | pkg/sql/colexec/colexecwindow/window_functions_test.go:261-262 | CUME_DIST is 1 exactly on a partition's last peer group |
| Ranking.CumeDistScaled | pkg/sql/colexec/colexecwindow/window_functions_test.go:190-191 | CUME_DIST times N is the number of rows up to the end of the peer group |
| Ranking.PercentRankAtMostCumeDist | pkg/sql/colexec/colexecwindow/window_functions_test.go:177-191 | a row's PERCENT_RANK never exceeds its CUME_DIST |
| Reference.PartitionSizeCounts | pkg/sql/colexec/colexecwindow/window_functions_test.go:71-72 | N is the number of rows sharing the row's partition key |
| Reference.RowNumberCounts | pkg/sql/colexec/colexecwindow/window_functions_test.go:71-72 | ROW_NUMBER is one more than the number of earlier rows of the partition |
| Reference.RankCounts | pkg/sql/colexec/colexecwindow/window_functions_test.go:151-152 | RANK is one more than the number of rows of the partition whose ordering key sorts strictly before the row's |
| Reference.DenseRankCounts | pkg/sql/colexec/colexecwindow/window_functions_test.go:164-165 | DENSE_RANK is the number of distinct ordering keys of the partition that do not sort after the row's |
| Reference.CumeCountCounts | pkg/sql/colexec/colexecwindow/window_functions_test.go:190-191 | the rows up to the end of the peer group are the rows of the partition whose ordering key does not sort after the row's |
| Reference.PercentRankCounts | pkg/sql/colexec/colexecwindow/window_functions_test.go:177-178 | PERCENT_RANK is the number of partition rows strictly before the row's key over N - 1, and 0 when N is 1 |
| Reference.CumeDistCounts | pkg/sql/colexec/colexecwindow/window_functions_test.go:190-191 | CUME_DIST is the number of partition rows not after the row's key over N |
| Reference.NullOrderingValueRanksFirst | pkg/sql/colexec/colexecwindow/window_functions_test.go:151-152 | a row ordered by a NULL value is in the first peer group: RANK 1, DENSE_RANK 1, PERCENT_RANK 0 |
| Evaluators.StreamRanks | pkg/sql/colexec/colexecwindow/window_functions_test.go:138-165 | the one-pass counters give every row its ROW_NUMBER, RANK and DENSE_RANK |
| Evaluators.CounterRecurrence | pkg/sql/colexec/colexecwindow/window_functions_test.go:138-165 | the three counters restart at 1 on a new partition; otherwise the row number steps by 1, the rank catches up at a new peer group, and the dense rank steps by 1 there |
| Evaluators.ScanPartition | pkg/sql/colexec/colexecwindow/window_functions_test.go:205-206 | scanning from a partition start finds exactly that partition |
| Evaluators.ScanPeerGroup | pkg/sql/colexec/colexecwindow/window_functions_test.go:219-220 | scanning from a peer-group start finds exactly that peer group |
| Evaluators.RelativeRanksOfRun | pkg/sql/colexec/colexecwindow/window_functions_test.go:247-262 | in a scanned partition i..e and peer group j..g, PERCENT_RANK is (j - i)/(N - 1) (0 when N is 1) and CUME_DIST is (g - i)/N |
| Evaluators.BufferRelativeRanks | pkg/sql/colexec/colexecwindow/window_functions_test.go:177-191 | buffering each partition gives every row its PERCENT_RANK and CUME_DIST |
| Processor.ResultType | pkg/sql/colexec/colexecwindow/window_functions_test.go:283-287 | the appended column is FLOAT exactly for PERCENT_RANK and CUME_DIST, else INT |
| Processor.ResultTypes | pkg/sql/colexec/colexecwindow/window_functions_test.go:279-294 | the result types are the input's INT columns followed by the function's type |
| Processor.OutputShape | pkg/sql/colexec/colexecwindow/window_functions_test.go:277-294 | one output row per input row; each keeps the input columns unchanged and adds one value, of the result type, at OutputColIdx |
| Processor.ComputeColumn | pkg/sql/colexec/colexecwindow/window_functions_test.go:283-287 | dispatching to the streaming or the buffering evaluator yields the function's value for every row |
| Processor.EmitRows | pkg/sql/colexec/colexecwindow/window_functions_test.go:277-277 | the rows emitted one at a time are the input rows with their values appended |
| Processor.RunWindower | pkg/sql/colexec/colexecwindow/window_functions_test.go:277-311 | the operator's output is the windower's output table |
| Processor.ForwardTracks | pkg/sql/colexec/colexecwindow/window_functions_test.go:151-165 | the left-to-right pass finds every row's partition start, peer-group start and DENSE_RANK |
| Processor.BackwardTracks | pkg/sql/colexec/colexecwindow/window_functions_test.go:177-191 | the right-to-left pass finds every row's partition end and peer-group end |
| Processor.ColumnIsFnValue | pkg/sql/colexec/colexecwindow/window_functions_test.go:68-274 | the column computed from the two passes is the function's value on every row |
| Processor.WindowerByColumn | pkg/sql/colexec/colexecwindow/window_functions_test.go:277-277 | the windower's output is the input with the two-pass column appended |
| Vectors.RearrangementKeepsMultiset | pkg/sql/colexec/colexecwindow/window_functions_test.go:277-277 | rows listed in another order by an index map have the same multiset, which is how the unordered verifier compares output |
| Vectors.RowNumberPartitionedCase | pkg/sql/colexec/colexecwindow/window_functions_test.go:71-72 | ROW_NUMBER with PARTITION BY column 0: the sorted rows rearrange the tuples, are in key order, and yield exactly the expected tuples |
| Vectors.RankPartitionedCase | pkg/sql/colexec/colexecwindow/window_functions_test.go:84-85 | RANK with PARTITION BY column 0 and no ORDER BY: the expected tuples, all ranks 1 |
| Vectors.DenseRankPartitionedCase | pkg/sql/colexec/colexecwindow/window_functions_test.go:97-98 | DENSE_RANK with PARTITION BY column 0 and no ORDER BY: the expected tuples, all 1 |
| Vectors.PercentRankPartitionedCase | pkg/sql/colexec/colexecwindow/window_functions_test.go:110-111 | PERCENT_RANK with PARTITION BY column 0 and no ORDER BY: the expected tuples, all 0 |
| Vectors.CumeDistPartitionedCase | pkg/sql/colexec/colexecwindow/window_functions_test.go:123-124 | CUME_DIST with PARTITION BY column 0 and no ORDER BY: the expected tuples, all 1.0 |
| Vectors.RowNumberOrderedCase | pkg/sql/colexec/colexecwindow/window_functions_test.go:138-139 | ROW_NUMBER with ORDER BY column 0: the expected tuples, 1..7 |
| Vectors.RankOrderedCase | pkg/sql/colexec/colexecwindow/window_functions_test.go:151-152 | RANK with ORDER BY column 0: the expected tuples, 1,1,3,3,5,6,6 |
| Vectors.DenseRankOrderedCase | pkg/sql/colexec/colexecwindow/window_functions_test.go:164-165 | DENSE_RANK with ORDER BY column 0: the expected tuples, 1,1,2,2,3,4,4 |
| Vectors.PercentRankOrderedCase | pkg/sql/colexec/colexecwindow/window_functions_test.go:177-178 | PERCENT_RANK with ORDER BY column 0: the expected tuples, 0,0,2/7,2/7,2/7,5/7,6/7,6/7 |
| Vectors.CumeDistOrderedCase | pkg/sql/colexec/colexecwindow/window_functions_test.go:190-191 | CUME_DIST with ORDER BY column 0: the expected tuples, 2/8,2/8,5/8,5/8,5/8,6/8,1,1 |
| Vectors.RowNumberPartitionedOrderedCase | pkg/sql/colexec/colexecwindow/window_functions_test.go:205-206 | ROW_NUMBER with PARTITION BY column 0 and ORDER BY column 1: the expected tuples, the NULL partition numbered 1,2,3 |
| Vectors.RankPartitionedOrderedCase | pkg/sql/colexec/colexecwindow/window_functions_test.go:219-220 | RANK with PARTITION BY column 0 and ORDER BY column 1: the expected tuples |
| Vectors.DenseRankPartitionedOrderedCase | pkg/sql/colexec/colexecwindow/window_functions_test.go:233-234 | DENSE_RANK with PARTITION BY column 0 and ORDER BY column 1: the expected tuples |
| Vectors.PercentRankPartitionedOrderedCase | pkg/sql/colexec/colexecwindow/window_functions_test.go:247-248 | PERCENT_RANK with PARTITION BY column 0 and ORDER BY column 1: the expected tuples, 0 for the one-row partition |
| Vectors.CumeDistPartitionedOrderedCase | pkg/sql/colexec/colexecwindow/window_functions_test.go:261-262 | CUME_DIST with PARTITION BY column 0 and ORDER BY column 1: the expected tuples, 2/4,2/4,3/4,1,1/3,2/3,1,1,1/2,1 |

## Left out

- Sorting: the upstream sort operator is not modelled. `Windower` takes rows already in sort order. Each test case states the sorted order explicitly and proves two things about it: it rearranges the test's tuples (an index map, hence the same multiset), and its keys are in order.
- Spilling to disk and the `ForceDiskSpill` knob (window_functions_test.go:56, 66-67): the model has no disk queue. With it the output would be the same whether or not spilling is forced, so the loop over `spillForced` adds nothing.
- The test driver's loops over the knob and the cases (lines 66, 68): each case is a lemma of its own instead.
- The appends to `semsToCheck`, `accounts` and `monitors` (lines 305, 308-309) are left out.
- The file-descriptor semaphore and the check that its count returns to 0 (lines 297, 312-313): resource accounting in an external library.
- Cluster settings, evaluation and flow contexts, memory accounts and monitors and their cleanup (lines 45-57, 64-65, 318-324), and the log line at 275: harness plumbing with no effect on results.
- `tc.init` setting `FilterColIdx` to "no column" (lines 38-42): the model has no FILTER clause, which is what that setting means.
- FLOAT encoding: PERCENT_RANK and CUME_DIST are exact rationals (`real`), so rounding is not modelled. The tables write some FLOAT results as integer literals (0, 1); the model writes them as `Float(0.0)` and `Float(1.0)`.
- One window function per spec, ascending order only: the tests use only `WindowFns[0]` and ascending ordering, so DESC and NULLS LAST are not modelled. PARTITION BY and ORDER BY may list several columns, compared lexicographically, although the tests use one each.
- The operator code behind `TestNewColOperator` (line 307) is not part of this model. `Evaluators`, `ComputeColumn` and `RunWindower` are an implementation of the same semantics written for this model, not a transcription of that code.
- `Processor.Column` / `Processor.Cells`: the guard that yields `Null` for inconsistent positions is never taken. `ColumnIsFnValue` proves the passes always report consistent positions.
- pkg/util/log/severity/severity_generated.go only aliases enum constants of a package that is not part of this model; it has no behaviour to verify.
