/** The ranking functions as the SQL standard defines them, by counting rows
    of the partition against the current row's ordering key, without
    reference to where the rows stand in the stream. On sorted input they
    agree with the boundary-based definitions of module Ranking. */
module Reference {
  import opened Datums
  import opened Boundaries
  import opened Ranking

  /** Which rows of row k's partition a count takes. */
  datatype Relation =
    | InPartition   // every row of the partition
    | Preceding     // rows whose ordering key sorts strictly before k's
    | NotFollowing  // rows whose ordering key sorts before k's or equals it

  predicate Holds(rel: Relation, row: Keyed, k: Keyed) {
    row.part == k.part &&
    match rel
    case InPartition => true
    case Preceding => LexLess(row.order, k.order)
    case NotFollowing => LexLessOrEqual(row.order, k.order)
  }

  /** Number of rows among ks[lo..hi] that stand in relation rel to k. */
  function Count(ks: seq<Keyed>, lo: nat, hi: nat, k: Keyed, rel: Relation): (c: nat)
    requires lo <= hi <= |ks|
    ensures c <= hi - lo
    decreases hi - lo
  {
    if lo == hi then 0
    else Count(ks, lo, hi - 1, k, rel) + (if Holds(rel, ks[hi - 1], k) then 1 else 0)
  }

  /** The distinct ordering keys, in row k's partition, not sorting after k's. */
  function KeysNotFollowing(ks: seq<Keyed>, k: Keyed): set<seq<Datum>> {
    set j | 0 <= j < |ks| && Holds(NotFollowing, ks[j], k) :: ks[j].order
  }

  lemma {:induction false} CountAll(ks: seq<Keyed>, lo: nat, hi: nat, k: Keyed, rel: Relation)
    requires lo <= hi <= |ks|
    requires forall j :: lo <= j < hi ==> Holds(rel, ks[j], k)
    ensures Count(ks, lo, hi, k, rel) == hi - lo
    decreases hi - lo
  {
    if lo < hi {
      CountAll(ks, lo, hi - 1, k, rel);
    }
  }

  lemma {:induction false} CountNone(ks: seq<Keyed>, lo: nat, hi: nat, k: Keyed, rel: Relation)
    requires lo <= hi <= |ks|
    requires forall j :: lo <= j < hi ==> !Holds(rel, ks[j], k)
    ensures Count(ks, lo, hi, k, rel) == 0
    decreases hi - lo
  {
    if lo < hi {
      CountNone(ks, lo, hi - 1, k, rel);
    }
  }

  lemma {:induction false} CountSplit(ks: seq<Keyed>, lo: nat, mid: nat, hi: nat, k: Keyed, rel: Relation)
    requires lo <= mid <= hi <= |ks|
    ensures Count(ks, lo, hi, k, rel) == Count(ks, lo, mid, k, rel) + Count(ks, mid, hi, k, rel)
    decreases hi - mid
  {
    if mid < hi {
      CountSplit(ks, lo, mid, hi - 1, k, rel);
    }
  }

  /** Rows outside row i's partition never count. */
  lemma OutsidePartitionNeverCounts(ks: seq<Keyed>, i: nat, rel: Relation)
    requires Sorted(ks) && i < |ks|
    ensures Count(ks, 0, PartitionStart(ks, i), ks[i], rel) == 0
    ensures Count(ks, PartitionEnd(ks, i), |ks|, ks[i], rel) == 0
  {
    forall j | 0 <= j < |ks| && (j < PartitionStart(ks, i) || PartitionEnd(ks, i) <= j)
      ensures !Holds(rel, ks[j], ks[i])
    {
      PartitionIsKeyClass(ks, i, j);
    }
    CountNone(ks, 0, PartitionStart(ks, i), ks[i], rel);
    CountNone(ks, PartitionEnd(ks, i), |ks|, ks[i], rel);
  }

  /** Count over the whole input equals the count over row i's partition. */
  lemma CountIsPartitionCount(ks: seq<Keyed>, i: nat, rel: Relation)
    requires Sorted(ks) && i < |ks|
    ensures Count(ks, 0, |ks|, ks[i], rel) == Count(ks, PartitionStart(ks, i), PartitionEnd(ks, i), ks[i], rel)
  {
    var s, e := PartitionStart(ks, i), PartitionEnd(ks, i);
    OutsidePartitionNeverCounts(ks, i, rel);
    CountSplit(ks, 0, s, |ks|, ks[i], rel);
    CountSplit(ks, s, e, |ks|, ks[i], rel);
  }

  /** N is the number of rows sharing row i's partition key. */
  lemma PartitionSizeCounts(ks: seq<Keyed>, i: nat)
    requires Sorted(ks) && i < |ks|
    ensures PartitionSize(ks, i) == Count(ks, 0, |ks|, ks[i], InPartition)
  {
    var s, e := PartitionStart(ks, i), PartitionEnd(ks, i);
    CountIsPartitionCount(ks, i, InPartition);
    forall j | s <= j < e
      ensures Holds(InPartition, ks[j], ks[i])
    {
      SamePartition(ks, i, j);
    }
    CountAll(ks, s, e, ks[i], InPartition);
  }

  /** ROW_NUMBER is one more than the number of rows of the partition that
      arrive before row i. */
  lemma RowNumberCounts(ks: seq<Keyed>, i: nat)
    requires Sorted(ks) && i < |ks|
    ensures RowNumber(ks, i) == 1 + Count(ks, 0, i, ks[i], InPartition)
  {
    var s := PartitionStart(ks, i);
    OutsidePartitionNeverCounts(ks, i, InPartition);
    CountSplit(ks, 0, s, i, ks[i], InPartition);
    forall j | s <= j < i
      ensures Holds(InPartition, ks[j], ks[i])
    {
      SamePartition(ks, i, j);
    }
    CountAll(ks, s, i, ks[i], InPartition);
  }

  /** In a sorted partition, the rows before row i's peer group are exactly
      the rows whose ordering key sorts strictly before row i's. */
  lemma PrecedingRows(ks: seq<Keyed>, i: nat, j: nat)
    requires Sorted(ks) && i < |ks|
    requires PartitionStart(ks, i) <= j < PartitionEnd(ks, i)
    ensures Holds(Preceding, ks[j], ks[i]) <==> j < PeerStart(ks, i)
  {
    var p := PeerStart(ks, i);
    assert ks[p] == ks[i] by { SamePeerGroup(ks, i, p); }
    assert ks[j].part == ks[i].part by { SamePartition(ks, i, j); }
    OrderKeyAgainstGroupStart(ks, j, p);
  }

  /** Against the first row p of a peer group, a row of the same partition
      sorts strictly before exactly when it arrives before p. */
  lemma OrderKeyAgainstGroupStart(ks: seq<Keyed>, j: nat, p: nat)
    requires Sorted(ks) && j < |ks| && p < |ks| && NewPeerGroup(ks, p)
    requires ks[j].part == ks[p].part
    requires j < p ==> !NewPartition(ks, p)
    ensures LexLess(ks[j].order, ks[p].order) <==> j < p
  {
    if j < p {
      BeforePeerGroup(ks, j, p);
    } else {
      NotBeforeOrderKey(ks, p, j);
    }
  }

  /** order(j) <= order(p - 1) < order(p) when p opens a peer group inside j's partition. */
  lemma BeforePeerGroup(ks: seq<Keyed>, j: nat, p: nat)
    requires Sorted(ks) && j < p < |ks| && NewPeerGroup(ks, p)
    requires ks[j].part == ks[p - 1].part == ks[p].part
    ensures LexLess(ks[j].order, ks[p].order)
  {
    OrderedWithinPartition(ks, j, p - 1);
    OrderedWithinPartition(ks, p - 1, p);
    LexLessMixedTransitive(ks[j].order, ks[p - 1].order, ks[p].order);
  }

  /** A later row of the same partition never sorts strictly before an earlier one. */
  lemma NotBeforeOrderKey(ks: seq<Keyed>, p: nat, j: nat)
    requires Sorted(ks) && p <= j < |ks| && ks[p].part == ks[j].part
    ensures !LexLess(ks[j].order, ks[p].order)
  {
    OrderedWithinPartition(ks, p, j);
    if LexLess(ks[j].order, ks[p].order) {
      LexLessMixedTransitive(ks[j].order, ks[p].order, ks[j].order);
      LexLessIrreflexive(ks[j].order);
    }
  }

  /** In a sorted partition, the rows up to the end of row i's peer group are
      exactly the rows whose ordering key does not sort after row i's. */
  lemma NotFollowingRows(ks: seq<Keyed>, i: nat, j: nat)
    requires Sorted(ks) && i < |ks|
    requires PartitionStart(ks, i) <= j < PartitionEnd(ks, i)
    ensures Holds(NotFollowing, ks[j], ks[i]) <==> j < PeerEnd(ks, i)
  {
    var e := PeerEnd(ks, i);
    assert ks[e - 1] == ks[i] by { SamePeerGroup(ks, i, e - 1); }
    assert ks[j].part == ks[i].part by { SamePartition(ks, i, j); }
    assert e <= j ==> !NewPartition(ks, e) by {
      if e <= j {
        assert i < e < PartitionEnd(ks, i);
      }
    }
    OrderKeyAgainstGroupEnd(ks, j, e);
  }

  /** Against the last row e - 1 of a peer group, a row of the same partition
      does not sort after it exactly when it arrives before e. */
  lemma OrderKeyAgainstGroupEnd(ks: seq<Keyed>, j: nat, e: nat)
    requires Sorted(ks) && j < |ks| && 0 < e <= |ks|
    requires ks[j].part == ks[e - 1].part
    requires e <= j ==> NewPeerGroup(ks, e) && !NewPartition(ks, e)
    ensures LexLessOrEqual(ks[j].order, ks[e - 1].order) <==> j < e
  {
    if j < e {
      OrderedWithinPartition(ks, j, e - 1);
    } else {
      AfterPeerGroup(ks, e, j);
    }
  }

  /** A row at or after the start e of the next peer group sorts strictly
      after the last row e - 1 of the group before. */
  lemma AfterPeerGroup(ks: seq<Keyed>, e: nat, j: nat)
    requires Sorted(ks) && 0 < e <= j < |ks| && NewPeerGroup(ks, e)
    requires ks[e - 1].part == ks[e].part == ks[j].part
    ensures !LexLessOrEqual(ks[j].order, ks[e - 1].order)
  {
    var a, b, c := ks[e - 1].order, ks[e].order, ks[j].order;
    BeforePeerGroup(ks, e - 1, e);
    OrderedWithinPartition(ks, e, j);
    LexLessMixedTransitive(a, b, c);
    LexLessAsymmetric(a, c);
  }

  /** RANK is one more than the number of rows of the partition whose ordering
      key sorts strictly before row i's. */
  lemma RankCounts(ks: seq<Keyed>, i: nat)
    requires Sorted(ks) && i < |ks|
    ensures Rank(ks, i) == 1 + Count(ks, 0, |ks|, ks[i], Preceding)
  {
    var s, p, e := PartitionStart(ks, i), PeerStart(ks, i), PartitionEnd(ks, i);
    PeerGroupWithinPartition(ks, i);
    CountIsPartitionCount(ks, i, Preceding);
    CountSplit(ks, s, p, e, ks[i], Preceding);
    forall j | s <= j < e
      ensures Holds(Preceding, ks[j], ks[i]) <==> j < p
    {
      PrecedingRows(ks, i, j);
    }
    CountAll(ks, s, p, ks[i], Preceding);
    CountNone(ks, p, e, ks[i], Preceding);
  }

  /** CumeCount is the number of rows of the partition whose ordering key
      does not sort after row i's. */
  lemma CumeCountCounts(ks: seq<Keyed>, i: nat)
    requires Sorted(ks) && i < |ks|
    ensures CumeCount(ks, i) == Count(ks, 0, |ks|, ks[i], NotFollowing)
  {
    var s, q, e := PartitionStart(ks, i), PeerEnd(ks, i), PartitionEnd(ks, i);
    PeerGroupWithinPartition(ks, i);
    CountIsPartitionCount(ks, i, NotFollowing);
    CountSplit(ks, s, q, e, ks[i], NotFollowing);
    forall j | s <= j < e
      ensures Holds(NotFollowing, ks[j], ks[i]) <==> j < q
    {
      NotFollowingRows(ks, i, j);
    }
    CountAll(ks, s, q, ks[i], NotFollowing);
    CountNone(ks, q, e, ks[i], NotFollowing);
  }

  /** PERCENT_RANK as the standard states it: the share of the other rows of
      the partition whose ordering key sorts strictly before the row's. */
  lemma PercentRankCounts(ks: seq<Keyed>, i: nat)
    requires Sorted(ks) && i < |ks|
    ensures var n := Count(ks, 0, |ks|, ks[i], InPartition);
            n == 1 ==> PercentRank(ks, i) == 0.0
    ensures var n := Count(ks, 0, |ks|, ks[i], InPartition);
            n > 1 ==> PercentRank(ks, i) == Ratio(Count(ks, 0, |ks|, ks[i], Preceding), n - 1)
  {
    var n, c := Count(ks, 0, |ks|, ks[i], InPartition), Count(ks, 0, |ks|, ks[i], Preceding);
    assert n == PartitionSize(ks, i) by { PartitionSizeCounts(ks, i); }
    assert c == Rank(ks, i) - 1 by { RankCounts(ks, i); }
  }

  /** CUME_DIST as the standard states it: the share of the partition whose
      ordering key does not sort after the row's. */
  lemma CumeDistCounts(ks: seq<Keyed>, i: nat)
    requires Sorted(ks) && i < |ks|
    ensures var n := Count(ks, 0, |ks|, ks[i], InPartition);
            n >= 1 && CumeDist(ks, i) == Ratio(Count(ks, 0, |ks|, ks[i], NotFollowing), n)
  {
    PartitionSizeCounts(ks, i);
    CumeCountCounts(ks, i);
  }

  /** DENSE_RANK is the number of distinct ordering keys of the partition
      that do not sort after row i's. */
  lemma {:induction false} DenseRankCounts(ks: seq<Keyed>, i: nat)
    requires Sorted(ks) && i < |ks|
    ensures DenseRank(ks, i) == |KeysNotFollowing(ks, ks[i])|
    decreases i
  {
    if NewPartition(ks, i) {
      KeysOfFirstPeerGroup(ks, i);
    } else if !NewPeerGroup(ks, i) {
      assert ks[i - 1] == ks[i];
      DenseRankCounts(ks, i - 1);
    } else {
      DenseRankCounts(ks, i - 1);
      KeysOfNextPeerGroup(ks, i);
    }
  }

  lemma KeysOfFirstPeerGroup(ks: seq<Keyed>, i: nat)
    requires Sorted(ks) && i < |ks| && NewPartition(ks, i)
    ensures KeysNotFollowing(ks, ks[i]) == {ks[i].order}
  {
    var keys := KeysNotFollowing(ks, ks[i]);
    forall x | x in keys
      ensures x == ks[i].order
    {
      var j :| 0 <= j < |ks| && Holds(NotFollowing, ks[j], ks[i]) && ks[j].order == x;
      PartitionIsKeyClass(ks, i, j);
      OrderedWithinPartition(ks, i, j);
      LexLessOrEqualAntisymmetric(ks[i].order, ks[j].order);
    }
    assert Holds(NotFollowing, ks[i], ks[i]);
    assert ks[i].order in keys;
  }

  lemma KeysOfNextPeerGroup(ks: seq<Keyed>, i: nat)
    requires Sorted(ks) && 0 < i < |ks| && !NewPartition(ks, i) && NewPeerGroup(ks, i)
    ensures KeysNotFollowing(ks, ks[i]) == KeysNotFollowing(ks, ks[i - 1]) + {ks[i].order}
    ensures ks[i].order !in KeysNotFollowing(ks, ks[i - 1])
  {
    var now, before := KeysNotFollowing(ks, ks[i]), KeysNotFollowing(ks, ks[i - 1]);
    var a, b := ks[i - 1].order, ks[i].order;
    OrderedWithinPartition(ks, i - 1, i);
    assert LexLess(a, b);
    forall x | x in now
      ensures x in before || x == b
    {
      var j :| 0 <= j < |ks| && Holds(NotFollowing, ks[j], ks[i]) && ks[j].order == x;
      if x != b {
        PartitionIsKeyClass(ks, i, j);
        if j >= i {
          OrderedWithinPartition(ks, i, j);
          LexLessOrEqualAntisymmetric(ks[i].order, ks[j].order);
        }
        OrderedWithinPartition(ks, j, i - 1);
        assert Holds(NotFollowing, ks[j], ks[i - 1]);
      }
    }
    forall x | x in before
      ensures x in now
    {
      var j :| 0 <= j < |ks| && Holds(NotFollowing, ks[j], ks[i - 1]) && ks[j].order == x;
      LexLessOrEqualTransitive(x, a, b);
      assert Holds(NotFollowing, ks[j], ks[i]);
    }
    assert Holds(NotFollowing, ks[i], ks[i]);
    if b in before {
      var j :| 0 <= j < |ks| && Holds(NotFollowing, ks[j], ks[i - 1]) && ks[j].order == b;
      LexLessAsymmetric(a, b);
    }
  }

  /** A NULL ordering value sorts before every integer, so rows ordered by one
      column whose value is NULL form the first peer group of their partition. */
  lemma NullOrderingValueRanksFirst(ks: seq<Keyed>, i: nat)
    requires Sorted(ks) && i < |ks| && ks[i].order == [None]
    ensures Rank(ks, i) == 1 && DenseRank(ks, i) == 1 && PercentRank(ks, i) == 0.0
  {
    forall j | 0 <= j < |ks|
      ensures !Holds(Preceding, ks[j], ks[i])
    {
      NothingBeforeNull(ks[j].order);
    }
    CountNone(ks, 0, |ks|, ks[i], Preceding);
    RankCounts(ks, i);
    DenseRankAtMostRank(ks, i);
    PercentRankFirstPeerGroup(ks, i);
  }
}
