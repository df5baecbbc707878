/** The boundary tracker: where partitions and peer groups start and end in
    the sorted row stream. Every row is reduced to its partition key (the
    values of the PARTITION BY columns) and its ordering key (the values of
    the ORDER BY columns); an empty column list gives the empty key, so no
    boundary is ever seen on it. */
module Boundaries {
  import opened Datums

  datatype Keyed = Keyed(part: seq<Datum>, order: seq<Datum>)

  /** Row i opens a partition: it is the first row, or its partition key
      differs from the previous row's (NULL equals NULL). */
  predicate NewPartition(ks: seq<Keyed>, i: nat)
    requires i < |ks|
  {
    i == 0 || ks[i - 1].part != ks[i].part
  }

  /** Row i opens a peer group: it opens a partition, or its ordering key
      differs from the previous row's. */
  predicate NewPeerGroup(ks: seq<Keyed>, i: nat)
    requires i < |ks|
  {
    i == 0 || ks[i - 1].part != ks[i].part || ks[i - 1].order != ks[i].order
  }

  /** The order the upstream sort guarantees between two rows: by partition
      key, then by ordering key. */
  predicate KeyedLessOrEqual(a: Keyed, b: Keyed) {
    LexLess(a.part, b.part) || (a.part == b.part && LexLessOrEqual(a.order, b.order))
  }

  /** Rows i - 1 and i are in the sort's order. */
  predicate InOrderAt(ks: seq<Keyed>, i: nat)
    requires 0 < i < |ks|
  {
    KeyedLessOrEqual(ks[i - 1], ks[i])
  }

  predicate Sorted(ks: seq<Keyed>) {
    forall i :: 0 < i < |ks| ==> InOrderAt(ks, i)
  }

  /** The first row of row i's partition: the last partition start at or before i. */
  function PartitionStart(ks: seq<Keyed>, i: nat): (s: nat)
    requires i < |ks|
    ensures s <= i && NewPartition(ks, s)
    ensures forall j :: s < j <= i ==> !NewPartition(ks, j)
    decreases i
  {
    if NewPartition(ks, i) then i else PartitionStart(ks, i - 1)
  }

  /** One past the last row of row i's partition: the first partition start after i, or the end. */
  function PartitionEnd(ks: seq<Keyed>, i: nat): (e: nat)
    requires i < |ks|
    ensures i < e <= |ks|
    ensures e == |ks| || NewPartition(ks, e)
    ensures forall j :: i < j < e ==> !NewPartition(ks, j)
    decreases |ks| - i
  {
    if i + 1 == |ks| || NewPartition(ks, i + 1) then i + 1 else PartitionEnd(ks, i + 1)
  }

  /** The first row of row i's peer group. */
  function PeerStart(ks: seq<Keyed>, i: nat): (s: nat)
    requires i < |ks|
    ensures s <= i && NewPeerGroup(ks, s)
    ensures forall j :: s < j <= i ==> !NewPeerGroup(ks, j)
    decreases i
  {
    if NewPeerGroup(ks, i) then i else PeerStart(ks, i - 1)
  }

  /** One past the last row of row i's peer group. */
  function PeerEnd(ks: seq<Keyed>, i: nat): (e: nat)
    requires i < |ks|
    ensures i < e <= |ks|
    ensures e == |ks| || NewPeerGroup(ks, e)
    ensures forall j :: i < j < e ==> !NewPeerGroup(ks, j)
    decreases |ks| - i
  {
    if i + 1 == |ks| || NewPeerGroup(ks, i + 1) then i + 1 else PeerEnd(ks, i + 1)
  }

  /** Peer groups nest inside partitions: a peer group never starts before
      its partition nor ends after it. */
  lemma PeerGroupWithinPartition(ks: seq<Keyed>, i: nat)
    requires i < |ks|
    ensures PartitionStart(ks, i) <= PeerStart(ks, i)
    ensures PeerEnd(ks, i) <= PartitionEnd(ks, i)
  {
    var e := PartitionEnd(ks, i);
    if e < PeerEnd(ks, i) {
      assert NewPeerGroup(ks, e);
    }
  }

  /** Every row of a partition sees the same partition bounds and partition key. */
  lemma {:induction false} SamePartition(ks: seq<Keyed>, i: nat, m: nat)
    requires i < |ks|
    requires PartitionStart(ks, i) <= m < PartitionEnd(ks, i)
    ensures PartitionStart(ks, m) == PartitionStart(ks, i)
    ensures PartitionEnd(ks, m) == PartitionEnd(ks, i)
    ensures ks[m].part == ks[i].part
    decreases if m < i then i - m else m - i
  {
    if m < i {
      SamePartition(ks, i, m + 1);
    } else if m > i {
      SamePartition(ks, i, m - 1);
    }
  }

  /** Every row of a peer group sees the same peer bounds and both keys of the group. */
  lemma {:induction false} SamePeerGroup(ks: seq<Keyed>, i: nat, m: nat)
    requires i < |ks|
    requires PeerStart(ks, i) <= m < PeerEnd(ks, i)
    ensures PeerStart(ks, m) == PeerStart(ks, i)
    ensures PeerEnd(ks, m) == PeerEnd(ks, i)
    ensures ks[m] == ks[i]
    decreases if m < i then i - m else m - i
  {
    if m < i {
      SamePeerGroup(ks, i, m + 1);
    } else if m > i {
      SamePeerGroup(ks, i, m - 1);
    }
  }

  /** In sorted input the order holds between any two rows, not only neighbours. */
  lemma {:induction false} SortedPairs(ks: seq<Keyed>, j: nat, i: nat)
    requires Sorted(ks) && j <= i < |ks|
    ensures KeyedLessOrEqual(ks[j], ks[i])
    decreases i - j
  {
    if j < i {
      SortedPairs(ks, j, i - 1);
      assert InOrderAt(ks, i);
      var a, b, c := ks[j], ks[i - 1], ks[i];
      if LexLess(a.part, b.part) && LexLess(b.part, c.part) {
        LexLessTransitive(a.part, b.part, c.part);
      } else if a.part == b.part && b.part == c.part {
        LexLessOrEqualTransitive(a.order, b.order, c.order);
      }
    }
  }

  /** In sorted input, rows with equal partition keys are contiguous: a row
      belongs to row i's partition exactly when its partition key equals row
      i's. So NULL partition values form one partition of their own. */
  lemma PartitionIsKeyClass(ks: seq<Keyed>, i: nat, j: nat)
    requires Sorted(ks) && i < |ks| && j < |ks|
    ensures ks[j].part == ks[i].part <==> PartitionStart(ks, i) <= j < PartitionEnd(ks, i)
  {
    if j < PartitionStart(ks, i) {
      NotInPartitionBefore(ks, i, j);
    } else if j < PartitionEnd(ks, i) {
      SamePartition(ks, i, j);
    } else {
      NotInPartitionAfter(ks, i, j);
    }
  }

  lemma NotInPartitionBefore(ks: seq<Keyed>, i: nat, j: nat)
    requires Sorted(ks) && i < |ks| && j < PartitionStart(ks, i)
    ensures ks[j].part != ks[i].part
  {
    PartitionBoundaryIsStrict(ks, j, PartitionStart(ks, i), i);
    LexLessAsymmetric(ks[j].part, ks[i].part);
  }

  lemma NotInPartitionAfter(ks: seq<Keyed>, i: nat, j: nat)
    requires Sorted(ks) && i < |ks| && PartitionEnd(ks, i) <= j < |ks|
    ensures ks[j].part != ks[i].part
  {
    PartitionBoundaryIsStrict(ks, i, PartitionEnd(ks, i), j);
    LexLessAsymmetric(ks[i].part, ks[j].part);
  }

  /** In sorted input, the partition key strictly increases across a
      partition start: rows on either side of it never share a key. */
  lemma PartitionBoundaryIsStrict(ks: seq<Keyed>, j: nat, b: nat, k: nat)
    requires Sorted(ks) && j < b <= k < |ks| && NewPartition(ks, b)
    ensures LexLess(ks[j].part, ks[k].part)
  {
    SortedPairs(ks, j, b - 1);
    SortedPairs(ks, b, k);
    assert InOrderAt(ks, b);
    assert LexLess(ks[b - 1].part, ks[b].part);
    LexLessMixedTransitive(ks[j].part, ks[b - 1].part, ks[b].part);
    LexLessMixedTransitive(ks[j].part, ks[b].part, ks[k].part);
  }

  /** Within one partition of sorted input, ordering keys never decrease. */
  lemma OrderedWithinPartition(ks: seq<Keyed>, j: nat, i: nat)
    requires Sorted(ks) && j <= i < |ks| && ks[j].part == ks[i].part
    ensures LexLessOrEqual(ks[j].order, ks[i].order)
  {
    SortedPairs(ks, j, i);
    LexLessIrreflexive(ks[j].part);
  }

  lemma PartLessOrEqual(a: Keyed, b: Keyed)
    requires KeyedLessOrEqual(a, b)
    ensures LexLessOrEqual(a.part, b.part)
  {
  }

  /** Rows i..e-1 form a whole partition: i opens it, nothing inside opens
      another, and e is the end of the input or opens the next one. */
  predicate IsPartition(ks: seq<Keyed>, i: nat, e: nat) {
    i < e <= |ks| && NewPartition(ks, i) && (e == |ks| || NewPartition(ks, e)) &&
    forall x :: i < x < e ==> !NewPartition(ks, x)
  }

  /** Rows j..g-1 form a whole peer group. */
  predicate IsPeerGroup(ks: seq<Keyed>, j: nat, g: nat) {
    j < g <= |ks| && NewPeerGroup(ks, j) && (g == |ks| || NewPeerGroup(ks, g)) &&
    forall x :: j < x < g ==> !NewPeerGroup(ks, x)
  }

  /** A run found by scanning for the next partition start is row m's partition. */
  lemma PartitionBounds(ks: seq<Keyed>, i: nat, e: nat, m: nat)
    requires IsPartition(ks, i, e) && i <= m < e
    ensures PartitionStart(ks, m) == i && PartitionEnd(ks, m) == e
  {
  }

  /** A run found by scanning for the next peer group start is row m's peer group. */
  lemma PeerGroupBounds(ks: seq<Keyed>, j: nat, g: nat, m: nat)
    requires IsPeerGroup(ks, j, g) && j <= m < g
    ensures PeerStart(ks, m) == j && PeerEnd(ks, m) == g
  {
  }
}
