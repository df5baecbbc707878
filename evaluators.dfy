/** The operators that compute the ranking functions over the sorted row
    stream. ROW_NUMBER, RANK and DENSE_RANK stream: one pass with three
    counters that restart on every partition. PERCENT_RANK and CUME_DIST
    need the partition size and the end of each peer group, so they buffer
    a partition before emitting it. Each operator is proved to produce, row
    by row, the values module Ranking defines. */
module Evaluators {
  import opened Datums
  import opened Boundaries
  import opened Ranking

  /** One pass over the rows, keeping the current row number, rank and dense
      rank: on a new partition all three restart at 1; on a new peer group
      the rank catches up with the row number and the dense rank goes up by
      one; inside a peer group only the row number moves. */
  method StreamRanks(ks: seq<Keyed>) returns (rowNumbers: seq<nat>, ranks: seq<nat>, denseRanks: seq<nat>)
    ensures |rowNumbers| == |ranks| == |denseRanks| == |ks|
    ensures forall i :: 0 <= i < |ks| ==> rowNumbers[i] == RowNumber(ks, i)
    ensures forall i :: 0 <= i < |ks| ==> ranks[i] == Rank(ks, i)
    ensures forall i :: 0 <= i < |ks| ==> denseRanks[i] == DenseRank(ks, i)
  {
    rowNumbers, ranks, denseRanks := [], [], [];
    var rowNumber, rank, denseRank := 0, 0, 0;
    var i := 0;
    while i < |ks|
      invariant RanksUpTo(ks, rowNumbers, ranks, denseRanks, i)
      invariant 0 < i ==> RanksAt(ks, i - 1, rowNumber, rank, denseRank)
    {
      if NewPartition(ks, i) {
        rowNumber, rank, denseRank := 1, 1, 1;
      } else {
        rowNumber := rowNumber + 1;
        if NewPeerGroup(ks, i) {
          rank := rowNumber;
          denseRank := denseRank + 1;
        }
      }
      assert RanksAt(ks, i, rowNumber, rank, denseRank) by {
        CounterRecurrence(ks, i);
      }
      AppendRanks(ks, rowNumbers, ranks, denseRanks, i, rowNumber, rank, denseRank);
      rowNumbers, ranks, denseRanks := rowNumbers + [rowNumber], ranks + [rank], denseRanks + [denseRank];
      i := i + 1;
    }
  }

  /** Row i's ROW_NUMBER, RANK and DENSE_RANK are rowNumber, rank and denseRank. */
  predicate RanksAt(ks: seq<Keyed>, i: nat, rowNumber: nat, rank: nat, denseRank: nat)
    requires i < |ks|
  {
    rowNumber == RowNumber(ks, i) && rank == Rank(ks, i) && denseRank == DenseRank(ks, i)
  }

  /** The first k values of the three output columns are the ranks of the first k rows. */
  predicate RanksUpTo(ks: seq<Keyed>, rowNumbers: seq<nat>, ranks: seq<nat>, denseRanks: seq<nat>, k: nat) {
    k <= |ks| && |rowNumbers| == |ranks| == |denseRanks| == k &&
    forall m :: 0 <= m < k ==> RanksAt(ks, m, rowNumbers[m], ranks[m], denseRanks[m])
  }

  lemma AppendRanks(ks: seq<Keyed>, rowNumbers: seq<nat>, ranks: seq<nat>, denseRanks: seq<nat>, k: nat,
                    rowNumber: nat, rank: nat, denseRank: nat)
    requires RanksUpTo(ks, rowNumbers, ranks, denseRanks, k) && k < |ks|
    requires RanksAt(ks, k, rowNumber, rank, denseRank)
    ensures RanksUpTo(ks, rowNumbers + [rowNumber], ranks + [rank], denseRanks + [denseRank], k + 1)
  {
  }

  /** The recurrence the streaming counters follow, from one row to the next. */
  lemma CounterRecurrence(ks: seq<Keyed>, i: nat)
    requires i < |ks|
    ensures NewPartition(ks, i) ==> RowNumber(ks, i) == 1 && Rank(ks, i) == 1 && DenseRank(ks, i) == 1
    ensures !NewPartition(ks, i) ==>
              RowNumber(ks, i) == RowNumber(ks, i - 1) + 1 &&
              Rank(ks, i) == (if NewPeerGroup(ks, i) then RowNumber(ks, i) else Rank(ks, i - 1)) &&
              DenseRank(ks, i) == DenseRank(ks, i - 1) + (if NewPeerGroup(ks, i) then 1 else 0)
  {
    if !NewPartition(ks, i) {
      RankSteps(ks, i);
    }
  }

  /** The end of the run that starts at row i and stops before the next row
      that opens a partition. */
  method ScanPartition(ks: seq<Keyed>, i: nat) returns (e: nat)
    requires i < |ks| && NewPartition(ks, i)
    ensures IsPartition(ks, i, e)
  {
    e := i + 1;
    while e < |ks| && !NewPartition(ks, e)
      invariant i < e <= |ks|
      invariant forall x :: i < x < e ==> !NewPartition(ks, x)
    {
      e := e + 1;
    }
  }

  /** The end of the run that starts at row j and stops before the next row
      that opens a peer group. */
  method ScanPeerGroup(ks: seq<Keyed>, j: nat) returns (g: nat)
    requires j < |ks| && NewPeerGroup(ks, j)
    ensures IsPeerGroup(ks, j, g)
  {
    g := j + 1;
    while g < |ks| && !NewPeerGroup(ks, g)
      invariant j < g <= |ks|
      invariant forall x :: j < x < g ==> !NewPeerGroup(ks, x)
    {
      g := g + 1;
    }
  }

  /** Every row of a peer group found by scanning inside a partition found by
      scanning has the relative ranks computed from the two runs' bounds. */
  lemma RelativeRanksOfRun(ks: seq<Keyed>, i: nat, e: nat, j: nat, g: nat, m: nat)
    requires IsPartition(ks, i, e) && IsPeerGroup(ks, j, g)
    requires i <= j <= m < g <= e
    ensures PercentRank(ks, m) == if e - i == 1 then 0.0 else Ratio(j - i, e - i - 1)
    ensures CumeDist(ks, m) == Ratio(g - i, e - i)
  {
    PartitionBounds(ks, i, e, m);
    PeerGroupBounds(ks, j, g, m);
  }

  /** The first k values of the two output columns are the relative ranks of the first k rows. */
  predicate RelativeRanksUpTo(ks: seq<Keyed>, percentRanks: seq<real>, cumeDists: seq<real>, k: nat) {
    k <= |ks| && |percentRanks| == |cumeDists| == k &&
    forall x :: 0 <= x < k ==> percentRanks[x] == PercentRank(ks, x) && cumeDists[x] == CumeDist(ks, x)
  }

  lemma AppendRelativeRanks(ks: seq<Keyed>, percentRanks: seq<real>, cumeDists: seq<real>, k: nat)
    requires RelativeRanksUpTo(ks, percentRanks, cumeDists, k) && k < |ks|
    ensures RelativeRanksUpTo(ks, percentRanks + [PercentRank(ks, k)], cumeDists + [CumeDist(ks, k)], k + 1)
  {
  }

  /** Partition by partition: buffer the partition to learn its size N,
      then walk its peer groups, emitting (rank - 1) / (N - 1) and
      (rows up to the end of the peer group) / N for every row. */
  method BufferRelativeRanks(ks: seq<Keyed>) returns (percentRanks: seq<real>, cumeDists: seq<real>)
    ensures |percentRanks| == |cumeDists| == |ks|
    ensures forall m :: 0 <= m < |ks| ==> percentRanks[m] == PercentRank(ks, m)
    ensures forall m :: 0 <= m < |ks| ==> cumeDists[m] == CumeDist(ks, m)
  {
    percentRanks, cumeDists := [], [];
    var i := 0;
    while i < |ks|
      invariant i <= |ks| && (i < |ks| ==> NewPartition(ks, i))
      invariant RelativeRanksUpTo(ks, percentRanks, cumeDists, i)
    {
      var e := ScanPartition(ks, i);
      percentRanks, cumeDists := EmitPartition(ks, i, e, percentRanks, cumeDists);
      i := e;
    }
  }

  /** Emit the rows of the buffered partition i..e-1, one peer group at a time. */
  method EmitPartition(ks: seq<Keyed>, i: nat, e: nat, percentRanks: seq<real>, cumeDists: seq<real>)
    returns (percentRanks': seq<real>, cumeDists': seq<real>)
    requires IsPartition(ks, i, e) && RelativeRanksUpTo(ks, percentRanks, cumeDists, i)
    ensures RelativeRanksUpTo(ks, percentRanks', cumeDists', e)
  {
    percentRanks', cumeDists' := percentRanks, cumeDists;
    var j := i;
    while j < e
      invariant i <= j <= e && (j < e ==> NewPeerGroup(ks, j))
      invariant RelativeRanksUpTo(ks, percentRanks', cumeDists', j)
    {
      var g := ScanPeerGroup(ks, j);
      assert g <= e by {
        assert e == |ks| || NewPeerGroup(ks, e);
      }
      percentRanks', cumeDists' := EmitPeerGroup(ks, i, e, j, g, percentRanks', cumeDists');
      j := g;
    }
  }

  /** Emit the rows of peer group j..g-1 of partition i..e-1: all get the
      same PERCENT_RANK (j - i) / (N - 1) and CUME_DIST (g - i) / N. */
  method EmitPeerGroup(ks: seq<Keyed>, i: nat, e: nat, j: nat, g: nat, percentRanks: seq<real>, cumeDists: seq<real>)
    returns (percentRanks': seq<real>, cumeDists': seq<real>)
    requires IsPartition(ks, i, e) && IsPeerGroup(ks, j, g) && i <= j < g <= e
    requires RelativeRanksUpTo(ks, percentRanks, cumeDists, j)
    ensures RelativeRanksUpTo(ks, percentRanks', cumeDists', g)
  {
    var n := e - i;
    var percentRank := if n == 1 then 0.0 else Ratio(j - i, n - 1);
    var cumeDist := Ratio(g - i, n);
    percentRanks', cumeDists' := percentRanks, cumeDists;
    var m := j;
    while m < g
      invariant j <= m <= g
      invariant RelativeRanksUpTo(ks, percentRanks', cumeDists', m)
    {
      assert percentRank == PercentRank(ks, m) && cumeDist == CumeDist(ks, m) by {
        RelativeRanksOfRun(ks, i, e, j, g, m);
      }
      AppendRelativeRanks(ks, percentRanks', cumeDists', m);
      percentRanks', cumeDists' := percentRanks' + [percentRank], cumeDists' + [cumeDist];
      m := m + 1;
    }
  }
}
