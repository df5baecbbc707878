/** The ranking window functions, row by row, over the sorted row stream
    reduced to (partition key, ordering key) pairs. */
module Ranking {
  import opened Datums
  import opened Boundaries

  /** Number of rows in row i's partition (N in the relative-rank formulas). */
  function PartitionSize(ks: seq<Keyed>, i: nat): (n: nat)
    requires i < |ks|
    ensures 1 <= n <= |ks|
  {
    PartitionEnd(ks, i) - PartitionStart(ks, i)
  }

  /** ROW_NUMBER: the 1-based position of row i within its partition. */
  function RowNumber(ks: seq<Keyed>, i: nat): (r: nat)
    requires i < |ks|
    ensures 1 <= r <= PartitionSize(ks, i)
  {
    i - PartitionStart(ks, i) + 1
  }

  /** RANK: the 1-based position, within the partition, of the first row of
      row i's peer group. */
  function Rank(ks: seq<Keyed>, i: nat): (r: nat)
    requires i < |ks|
    ensures 1 <= r <= RowNumber(ks, i)
  {
    PeerGroupWithinPartition(ks, i);
    PeerStart(ks, i) - PartitionStart(ks, i) + 1
  }

  /** DENSE_RANK: 1 on the first row of a partition, one more on each row that
      opens a new peer group, unchanged otherwise. */
  function DenseRank(ks: seq<Keyed>, i: nat): (r: nat)
    requires i < |ks|
    ensures 1 <= r <= i + 1
    decreases i
  {
    if NewPartition(ks, i) then 1
    else DenseRank(ks, i - 1) + (if NewPeerGroup(ks, i) then 1 else 0)
  }

  /** The exact ratio a / b. */
  function Ratio(a: nat, b: nat): (r: real)
    requires 0 < b
    ensures 0.0 <= r && (r == 0.0 <==> a == 0)
    ensures a <= b ==> r <= 1.0
    ensures r == 1.0 <==> a == b
  {
    DivisionFacts(a as real, b as real);
    a as real / b as real
  }

  /** Ratio(a, b) is the number that b times gives a. */
  lemma RatioScaled(a: nat, b: nat)
    requires 0 < b
    ensures Ratio(a, b) * b as real == a as real
  {
    DivisionFacts(a as real, b as real);
  }

  lemma DivisionFacts(a: real, b: real)
    requires 0.0 <= a && 0.0 < b
    ensures (a / b) * b == a
    ensures 0.0 <= a / b && (a / b == 0.0 <==> a == 0.0)
    ensures a <= b ==> a / b <= 1.0
    ensures a / b == 1.0 <==> a == b
  {
    var r := a / b;
    assert r * b == a;
    if a <= b {
      assert r * b <= 1.0 * b;
    }
    if r == 1.0 {
      assert a == 1.0 * b;
    }
  }

  /** PERCENT_RANK = (RANK - 1) / (N - 1), and 0 in a one-row partition. */
  function PercentRank(ks: seq<Keyed>, i: nat): (r: real)
    requires i < |ks|
    ensures 0.0 <= r <= 1.0
  {
    var n := PartitionSize(ks, i);
    if n == 1 then 0.0 else Ratio(Rank(ks, i) - 1, n - 1)
  }

  /** Number of rows of row i's partition up to and including the last row of
      its peer group. */
  function CumeCount(ks: seq<Keyed>, i: nat): (c: nat)
    requires i < |ks|
    ensures RowNumber(ks, i) <= c <= PartitionSize(ks, i)
  {
    PeerGroupWithinPartition(ks, i);
    PeerEnd(ks, i) - PartitionStart(ks, i)
  }

  /** CUME_DIST = CumeCount / N. */
  function CumeDist(ks: seq<Keyed>, i: nat): (r: real)
    requires i < |ks|
    ensures 0.0 < r <= 1.0
  {
    Ratio(CumeCount(ks, i), PartitionSize(ks, i))
  }

  /** ROW_NUMBER numbers the rows of every partition 1, 2, ..., N in order:
      no gap, no repeat, restarting at 1 on each partition. */
  lemma RowNumbersOfPartition(ks: seq<Keyed>, i: nat)
    requires i < |ks|
    ensures forall m :: PartitionStart(ks, i) <= m < PartitionEnd(ks, i) ==>
              RowNumber(ks, m) == m - PartitionStart(ks, i) + 1
    ensures RowNumber(ks, PartitionStart(ks, i)) == 1
    ensures RowNumber(ks, PartitionEnd(ks, i) - 1) == PartitionSize(ks, i)
  {
    forall m | PartitionStart(ks, i) <= m < PartitionEnd(ks, i)
      ensures RowNumber(ks, m) == m - PartitionStart(ks, i) + 1
    {
      SamePartition(ks, i, m);
    }
  }

  /** ROW_NUMBER is 1 exactly on the rows that open a partition, and one more
      than on the previous row everywhere else. */
  lemma RowNumberSteps(ks: seq<Keyed>, i: nat)
    requires i < |ks|
    ensures RowNumber(ks, i) == 1 <==> NewPartition(ks, i)
    ensures !NewPartition(ks, i) ==> RowNumber(ks, i) == RowNumber(ks, i - 1) + 1
  {
  }

  /** Without PARTITION BY (every partition key is the empty key) the whole
      input is one partition, numbered 1..n. */
  lemma RowNumberWithoutPartitionBy(ks: seq<Keyed>, i: nat)
    requires forall j :: 0 <= j < |ks| ==> ks[j].part == []
    requires i < |ks|
    ensures RowNumber(ks, i) == i + 1
    ensures PartitionSize(ks, i) == |ks|
  {
  }

  /** Without ORDER BY (every ordering key is the empty key) all rows of a
      partition are peers: RANK and DENSE_RANK are 1, PERCENT_RANK is 0 and
      CUME_DIST is 1 on every row. */
  lemma {:induction false} WithoutOrderBy(ks: seq<Keyed>, i: nat)
    requires forall j :: 0 <= j < |ks| ==> ks[j].order == []
    requires i < |ks|
    ensures Rank(ks, i) == 1 && DenseRank(ks, i) == 1
    ensures PercentRank(ks, i) == 0.0 && CumeDist(ks, i) == 1.0
    decreases i
  {
    PartitionIsOnePeerGroup(ks, i);
    PercentRankFirstPeerGroup(ks, i);
    CumeDistLastPeerGroup(ks, i);
    if !NewPartition(ks, i) {
      WithoutOrderBy(ks, i - 1);
    }
  }

  lemma PartitionIsOnePeerGroup(ks: seq<Keyed>, i: nat)
    requires forall j :: 0 <= j < |ks| ==> ks[j].order == []
    requires i < |ks|
    ensures PeerStart(ks, i) == PartitionStart(ks, i)
    ensures PeerEnd(ks, i) == PartitionEnd(ks, i)
  {
    PeerGroupWithinPartition(ks, i);
    assert NewPartition(ks, PeerStart(ks, i));
    if PeerEnd(ks, i) < |ks| {
      assert NewPartition(ks, PeerEnd(ks, i));
    }
  }

  /** RANK is the ROW_NUMBER of the first row of the peer group. */
  lemma RankIsRowNumberOfFirstPeer(ks: seq<Keyed>, i: nat)
    requires i < |ks|
    ensures Rank(ks, i) == RowNumber(ks, PeerStart(ks, i))
  {
    PeerGroupWithinPartition(ks, i);
    SamePartition(ks, i, PeerStart(ks, i));
  }

  /** RANK is unchanged inside a peer group and, on the first row of a later
      peer group, jumps by the size of the previous peer group, leaving a gap
      after ties. */
  lemma RankSteps(ks: seq<Keyed>, i: nat)
    requires 0 < i < |ks| && !NewPartition(ks, i)
    ensures !NewPeerGroup(ks, i) ==> Rank(ks, i) == Rank(ks, i - 1)
    ensures NewPeerGroup(ks, i) ==>
              Rank(ks, i) == Rank(ks, i - 1) + (i - PeerStart(ks, i - 1)) &&
              Rank(ks, i) == RowNumber(ks, i)
  {
  }

  /** DENSE_RANK never exceeds RANK: it counts peer groups where RANK counts rows. */
  lemma {:induction false} DenseRankAtMostRank(ks: seq<Keyed>, i: nat)
    requires i < |ks|
    ensures DenseRank(ks, i) <= Rank(ks, i)
    decreases i
  {
    if !NewPartition(ks, i) {
      DenseRankAtMostRank(ks, i - 1);
    }
  }

  /** DENSE_RANK is 1 on the first peer group of a partition and rises by
      exactly one at each later peer group. */
  lemma DenseRankSteps(ks: seq<Keyed>, i: nat)
    requires i < |ks|
    ensures DenseRank(ks, i) == 1 <==> PeerStart(ks, i) == PartitionStart(ks, i)
    ensures 0 < i && !NewPartition(ks, i) ==>
              DenseRank(ks, i) == DenseRank(ks, i - 1) + (if NewPeerGroup(ks, i) then 1 else 0)
  {
    DenseRankFirstGroup(ks, i);
  }

  lemma {:induction false} DenseRankFirstGroup(ks: seq<Keyed>, i: nat)
    requires i < |ks|
    ensures DenseRank(ks, i) == 1 <==> PeerStart(ks, i) == PartitionStart(ks, i)
    decreases i
  {
    PeerGroupWithinPartition(ks, i);
    if !NewPartition(ks, i) {
      DenseRankFirstGroup(ks, i - 1);
      PeerGroupWithinPartition(ks, i - 1);
    }
  }

  /** Every row of a peer group gets the same RANK and DENSE_RANK. */
  lemma PeersShareRanks(ks: seq<Keyed>, i: nat, m: nat)
    requires i < |ks| && PeerStart(ks, i) <= m < PeerEnd(ks, i)
    ensures Rank(ks, m) == Rank(ks, i) && DenseRank(ks, m) == DenseRank(ks, i)
  {
    PeersShareCounts(ks, i, m);
    PeersShareDenseRank(ks, i, m);
  }

  /** Every row of a peer group gets the same PERCENT_RANK and CUME_DIST. */
  lemma PeersShareRelativeRanks(ks: seq<Keyed>, i: nat, m: nat)
    requires i < |ks| && PeerStart(ks, i) <= m < PeerEnd(ks, i)
    ensures PercentRank(ks, m) == PercentRank(ks, i) && CumeDist(ks, m) == CumeDist(ks, i)
  {
    PeersShareCounts(ks, i, m);
  }

  lemma PeersShareCounts(ks: seq<Keyed>, i: nat, m: nat)
    requires i < |ks| && PeerStart(ks, i) <= m < PeerEnd(ks, i)
    ensures PartitionSize(ks, m) == PartitionSize(ks, i)
    ensures Rank(ks, m) == Rank(ks, i) && CumeCount(ks, m) == CumeCount(ks, i)
  {
    SamePeerGroup(ks, i, m);
    PeerGroupWithinPartition(ks, i);
    SamePartition(ks, i, m);
  }

  lemma PeersShareDenseRank(ks: seq<Keyed>, i: nat, m: nat)
    requires i < |ks| && PeerStart(ks, i) <= m < PeerEnd(ks, i)
    ensures DenseRank(ks, m) == DenseRank(ks, i)
  {
    SamePeerGroup(ks, i, m);
    DenseRankOfPeerGroup(ks, i);
    DenseRankOfPeerGroup(ks, m);
  }

  lemma {:induction false} DenseRankOfPeerGroup(ks: seq<Keyed>, i: nat)
    requires i < |ks|
    ensures DenseRank(ks, i) == DenseRank(ks, PeerStart(ks, i))
    decreases i
  {
    if i != PeerStart(ks, i) {
      assert !NewPeerGroup(ks, i);
      assert PeerStart(ks, i - 1) == PeerStart(ks, i);
      DenseRankOfPeerGroup(ks, i - 1);
    }
  }

  /** PERCENT_RANK is 0 exactly on the first peer group of a partition, so
      on every row of a one-row partition. */
  lemma PercentRankFirstPeerGroup(ks: seq<Keyed>, i: nat)
    requires i < |ks|
    ensures PercentRank(ks, i) == 0.0 <==> PeerStart(ks, i) == PartitionStart(ks, i)
    ensures PartitionSize(ks, i) == 1 ==> PercentRank(ks, i) == 0.0
  {
    PeerGroupWithinPartition(ks, i);
  }

  /** Outside one-row partitions, PERCENT_RANK * (N - 1) = RANK - 1. */
  lemma PercentRankScaled(ks: seq<Keyed>, i: nat)
    requires i < |ks| && PartitionSize(ks, i) > 1
    ensures PercentRank(ks, i) * (PartitionSize(ks, i) - 1) as real == (Rank(ks, i) - 1) as real
  {
    RatioScaled(Rank(ks, i) - 1, PartitionSize(ks, i) - 1);
  }

  /** CUME_DIST is 1 exactly on the last peer group of a partition. */
  lemma CumeDistLastPeerGroup(ks: seq<Keyed>, i: nat)
    requires i < |ks|
    ensures CumeDist(ks, i) == 1.0 <==> PeerEnd(ks, i) == PartitionEnd(ks, i)
  {
    PeerGroupWithinPartition(ks, i);
  }

  /** CUME_DIST * N = CumeCount, the rows up to the end of the peer group. */
  lemma CumeDistScaled(ks: seq<Keyed>, i: nat)
    requires i < |ks|
    ensures CumeDist(ks, i) * PartitionSize(ks, i) as real == CumeCount(ks, i) as real
  {
    RatioScaled(CumeCount(ks, i), PartitionSize(ks, i));
  }

  /** A row's PERCENT_RANK never exceeds its CUME_DIST. */
  lemma PercentRankAtMostCumeDist(ks: seq<Keyed>, i: nat)
    requires i < |ks|
    ensures PercentRank(ks, i) <= CumeDist(ks, i)
  {
    var n, r, c := PartitionSize(ks, i), Rank(ks, i), CumeCount(ks, i);
    if n > 1 {
      RelativeRankBelowCumeDist(r, c, n);
    }
  }

  lemma RelativeRankBelowCumeDist(r: nat, c: nat, n: nat)
    requires 1 <= r <= c <= n && 1 < n
    ensures Ratio(r - 1, n - 1) <= Ratio(c, n)
  {
    assert (r - 1) * n <= c * (n - 1) by {
      assert (r - 1) * n <= (c - 1) * n;
      assert (c - 1) * n == c * (n - 1) + c - n;
    }
    DivideMonotone((r - 1) as real, (n - 1) as real, c as real, n as real);
  }

  lemma DivideMonotone(a: real, b: real, c: real, d: real)
    requires b > 0.0 && d > 0.0 && a * d <= c * b
    ensures a / b <= c / d
  {
    assert a / b == (a * d) / (b * d);
    assert c / d == (c * b) / (b * d);
  }
}
