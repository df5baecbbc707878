/** The windower processor as the tests drive it: a spec naming the
    PARTITION BY columns and one window function (which function, its
    ORDER BY columns, the index of the column it appends), applied to rows
    of INT columns. Each output row is the input row with the function's
    value appended; the value is an INT for ROW_NUMBER, RANK and
    DENSE_RANK and a FLOAT for PERCENT_RANK and CUME_DIST. */
module Processor {
  import opened Datums
  import opened Boundaries
  import opened Ranking
  import opened Reference
  import opened Evaluators

  datatype WindowFunc = RowNumberFn | RankFn | DenseRankFn | PercentRankFn | CumeDistFn

  /** One window function: which one, its ORDER BY column indices, and the
      index of the output column it fills. */
  datatype WindowFn = WindowFn(func: WindowFunc, ordering: seq<nat>, outputColIdx: nat)

  datatype WindowerSpec = WindowerSpec(partitionBy: seq<nat>, windowFns: seq<WindowFn>)

  /** An input row: values of INT columns. */
  type Row = seq<Datum>

  /** A value of an output column. */
  datatype Value = Null | Int(i: int) | Float(f: real)

  datatype ColumnType = IntType | FloatType

  /** The type of the appended column: FLOAT for the relative-rank
      functions, INT for the others. */
  function ResultType(func: WindowFunc): (t: ColumnType)
    ensures t == FloatType <==> func == PercentRankFn || func == CumeDistFn
  {
    match func
    case PercentRankFn => FloatType
    case CumeDistFn => FloatType
    case _ => IntType
  }

  /** The result types of the processor: every input column is INT, and the
      window function's column comes last. */
  function ResultTypes(width: nat, func: WindowFunc): (ts: seq<ColumnType>)
    ensures |ts| == width + 1
    ensures forall c :: 0 <= c < width ==> ts[c] == IntType
    ensures ts[width] == ResultType(func)
  {
    seq(width, _ => IntType) + [ResultType(func)]
  }

  predicate HasType(v: Value, t: ColumnType) {
    match v
    case Null => true
    case Int(_) => t == IntType
    case Float(_) => t == FloatType
  }

  /** Every row has `width` columns, every column the spec names exists, and
      there is one window function whose output column comes right after
      the input columns. */
  predicate ValidSpec(spec: WindowerSpec, width: nat, rows: seq<Row>) {
    |spec.windowFns| == 1 &&
    (forall r :: 0 <= r < |rows| ==> |rows[r]| == width) &&
    (forall k :: 0 <= k < |spec.partitionBy| ==> spec.partitionBy[k] < width) &&
    (forall k :: 0 <= k < |spec.windowFns[0].ordering| ==> spec.windowFns[0].ordering[k] < width) &&
    spec.windowFns[0].outputColIdx == width
  }

  /** The values of the given columns of a row, in the given order. */
  function Project(row: Row, cols: seq<nat>): seq<Datum>
    requires forall k :: 0 <= k < |cols| ==> cols[k] < |row|
  {
    seq(|cols|, k requires 0 <= k < |cols| => row[cols[k]])
  }

  /** Each row reduced to its partition key and its ordering key. */
  function KeysOf(spec: WindowerSpec, width: nat, rows: seq<Row>): seq<Keyed>
    requires ValidSpec(spec, width, rows)
  {
    seq(|rows|, r requires 0 <= r < |rows| =>
      Keyed(Project(rows[r], spec.partitionBy), Project(rows[r], spec.windowFns[0].ordering)))
  }

  function DatumValue(d: Datum): Value {
    match d
    case None => Null
    case Some(x) => Int(x)
  }

  /** An input row as output values, column by column. */
  function RowValues(row: Row): seq<Value> {
    seq(|row|, c requires 0 <= c < |row| => DatumValue(row[c]))
  }

  /** The value the window function gives row i. */
  function FnValue(func: WindowFunc, ks: seq<Keyed>, i: nat): Value
    requires i < |ks|
  {
    match func
    case RowNumberFn => Int(RowNumber(ks, i))
    case RankFn => Int(Rank(ks, i))
    case DenseRankFn => Int(DenseRank(ks, i))
    case PercentRankFn => Float(PercentRank(ks, i))
    case CumeDistFn => Float(CumeDist(ks, i))
  }

  /** The window function's value for every row. */
  function Values(func: WindowFunc, ks: seq<Keyed>): seq<Value> {
    seq(|ks|, i requires 0 <= i < |ks| => FnValue(func, ks, i))
  }

  /** An input row, as values, with one more value appended. */
  function OutputRow(row: Row, v: Value): seq<Value> {
    RowValues(row) + [v]
  }

  /** The output rows: each input row with its value appended. */
  function Assemble(rows: seq<Row>, col: seq<Value>): seq<seq<Value>>
    requires |col| == |rows|
  {
    seq(|rows|, r requires 0 <= r < |rows| => OutputRow(rows[r], col[r]))
  }

  /** The windower on input already in the order the sort delivers: every
      input row with the window function's value for it appended. */
  function Windower(spec: WindowerSpec, width: nat, rows: seq<Row>): seq<seq<Value>>
    requires ValidSpec(spec, width, rows)
  {
    Assemble(rows, Values(spec.windowFns[0].func, KeysOf(spec, width, rows)))
  }

  /** The window function's column: the streaming evaluator for ROW_NUMBER,
      RANK and DENSE_RANK, the buffering one for PERCENT_RANK and CUME_DIST. */
  method ComputeColumn(func: WindowFunc, ks: seq<Keyed>) returns (col: seq<Value>)
    ensures col == Values(func, ks)
  {
    if func == PercentRankFn || func == CumeDistFn {
      var percentRanks, cumeDists := BufferRelativeRanks(ks);
      col := seq(|ks|, i requires 0 <= i < |ks| =>
        Float(if func == PercentRankFn then percentRanks[i] else cumeDists[i]));
    } else {
      var rowNumbers, ranks, denseRanks := StreamRanks(ks);
      col := seq(|ks|, i requires 0 <= i < |ks| =>
        Int(if func == RowNumberFn then rowNumbers[i] else if func == RankFn then ranks[i] else denseRanks[i]));
    }
  }

  /** Emit every input row with its value appended, one row at a time. */
  method EmitRows(rows: seq<Row>, col: seq<Value>) returns (out: seq<seq<Value>>)
    requires |col| == |rows|
    ensures out == Assemble(rows, col)
  {
    out := [];
    var r := 0;
    while r < |rows|
      invariant r <= |rows| && |out| == r
      invariant forall k :: 0 <= k < r ==> out[k] == OutputRow(rows[k], col[k])
    {
      out := out + [OutputRow(rows[r], col[r])];
      r := r + 1;
    }
  }

  /** The operator the tests build: reduce the sorted rows to their keys,
      compute the window function's column, then emit the rows. */
  method RunWindower(spec: WindowerSpec, width: nat, rows: seq<Row>) returns (out: seq<seq<Value>>)
    requires ValidSpec(spec, width, rows)
    ensures out == Windower(spec, width, rows)
  {
    var ks := KeysOf(spec, width, rows);
    var col := ComputeColumn(spec.windowFns[0].func, ks);
    out := EmitRows(rows, col);
  }

  /** One output row per input row; it keeps the input columns unchanged and
      adds one value, of the result type, at OutputColIdx. */
  lemma OutputShape(spec: WindowerSpec, width: nat, rows: seq<Row>)
    requires ValidSpec(spec, width, rows)
    ensures var out := Windower(spec, width, rows);
            |out| == |rows| &&
            forall r :: 0 <= r < |rows| ==>
              |out[r]| == width + 1 && out[r][..width] == RowValues(rows[r]) &&
              HasType(out[r][spec.windowFns[0].outputColIdx], ResultTypes(width, spec.windowFns[0].func)[width])
  {
    var out := Windower(spec, width, rows);
    forall r | 0 <= r < |rows|
      ensures |out[r]| == width + 1 && out[r][..width] == RowValues(rows[r])
      ensures HasType(out[r][width], ResultType(spec.windowFns[0].func))
    {
    }
  }

  /** Where row i's partition and peer group start, and its dense rank:
      what a left-to-right pass knows on reaching the row. */
  datatype Starts = Starts(p: nat, q: nat, d: nat)

  /** Where row i's partition and peer group end (one past their last
      rows): what buffering ahead tells the operator. */
  datatype Ends = Ends(e: nat, g: nat)

  /** The left-to-right step from row i - 1 (which had s) to row i: a new
      partition restarts everything at i; a new peer group starts at i and
      raises the dense rank; any other row keeps its predecessor's. */
  function NextStarts(ks: seq<Keyed>, i: nat, s: Starts): Starts
    requires i < |ks|
  {
    if NewPartition(ks, i) then Starts(i, i, 1)
    else if NewPeerGroup(ks, i) then Starts(s.p, i, s.d + 1)
    else s
  }

  /** The left-to-right pass over rows i.., s being what row i - 1 had. */
  function Forward(ks: seq<Keyed>, i: nat, s: Starts): (f: seq<Starts>)
    requires i <= |ks|
    ensures |f| == |ks| - i
    decreases |ks| - i
  {
    if i == |ks| then []
    else [NextStarts(ks, i, s)] + Forward(ks, i + 1, NextStarts(ks, i, s))
  }

  /** The right-to-left pass over rows i..: a row just before a partition
      start (or the end of the input) ends both its partition and its peer
      group; a row just before a peer group start ends its peer group only;
      any other row shares its successor's ends. */
  function Backward(ks: seq<Keyed>, i: nat): (b: seq<Ends>)
    requires i <= |ks|
    ensures |b| == |ks| - i
    decreases |ks| - i
  {
    if i == |ks| then []
    else
      var rest := Backward(ks, i + 1);
      [if i + 1 == |ks| || NewPartition(ks, i + 1) then Ends(i + 1, i + 1)
       else if NewPeerGroup(ks, i + 1) then Ends(rest[0].e, i + 1)
       else rest[0]] + rest
  }

  /** What the passes should find for row i. */
  function StartsAt(ks: seq<Keyed>, i: nat): (s: Starts)
    requires i < |ks|
    ensures s.p <= s.q <= i
  {
    PeerGroupWithinPartition(ks, i);
    Starts(PartitionStart(ks, i), PeerStart(ks, i), DenseRank(ks, i))
  }

  function EndsAt(ks: seq<Keyed>, i: nat): (b: Ends)
    requires i < |ks|
    ensures i < b.g <= b.e <= |ks|
  {
    PeerGroupWithinPartition(ks, i);
    Ends(PartitionEnd(ks, i), PeerEnd(ks, i))
  }

  /** The value of row i computed from its starts and ends alone. */
  function Cell(func: WindowFunc, i: nat, s: Starts, b: Ends): Value
    requires s.p <= s.q <= i < b.g <= b.e
  {
    match func
    case RowNumberFn => Int(i - s.p + 1)
    case RankFn => Int(s.q - s.p + 1)
    case DenseRankFn => Int(s.d)
    case PercentRankFn => Float(if b.e - s.p == 1 then 0.0 else Ratio(s.q - s.p, b.e - s.p - 1))
    case CumeDistFn => Float(Ratio(b.g - s.p, b.e - s.p))
  }

  /** Row i's starts and ends are positions in the order Cell needs. */
  predicate Consistent(i: nat, s: Starts, b: Ends) {
    s.p <= s.q <= i < b.g <= b.e
  }

  /** The values of the rows whose starts and ends the two passes found.
      The passes always report consistent positions (ColumnIsFnValue); the
      check keeps Cell's requirement local. */
  function Cells(func: WindowFunc, f: seq<Starts>, b: seq<Ends>): seq<Value>
    requires |f| == |b|
  {
    seq(|f|, i requires 0 <= i < |f| =>
      if Consistent(i, f[i], b[i]) then Cell(func, i, f[i], b[i]) else Null)
  }

  /** The column the operator appends, computed from one pass in each
      direction over the sorted keys. */
  function Column(func: WindowFunc, ks: seq<Keyed>): seq<Value> {
    Cells(func, Forward(ks, 0, Starts(0, 0, 0)), Backward(ks, 0))
  }

  /** Starting from the right values, a step gives the right values. */
  lemma NextStartsTracks(ks: seq<Keyed>, i: nat, s: Starts)
    requires i < |ks| && (0 < i ==> s == StartsAt(ks, i - 1))
    ensures NextStarts(ks, i, s) == StartsAt(ks, i)
  {
  }

  lemma {:induction false} ForwardFrom(ks: seq<Keyed>, i: nat, s: Starts, m: nat)
    requires i <= m < |ks| && (0 < i ==> s == StartsAt(ks, i - 1))
    ensures Forward(ks, i, s)[m - i] == StartsAt(ks, m)
    decreases m - i
  {
    var s' := NextStarts(ks, i, s);
    assert s' == StartsAt(ks, i) by { NextStartsTracks(ks, i, s); }
    if m > i {
      assert Forward(ks, i, s)[m - i] == Forward(ks, i + 1, s')[m - (i + 1)] by { ForwardTail(ks, i, s); }
      ForwardFrom(ks, i + 1, s', m);
    }
  }

  lemma ForwardTail(ks: seq<Keyed>, i: nat, s: Starts)
    requires i < |ks|
    ensures Forward(ks, i, s)[1..] == Forward(ks, i + 1, NextStarts(ks, i, s))
  {
  }

  /** The left-to-right pass finds every row's partition start, peer group
      start and dense rank. */
  lemma ForwardTracks(ks: seq<Keyed>)
    ensures forall i :: 0 <= i < |ks| ==> Forward(ks, 0, Starts(0, 0, 0))[i] == StartsAt(ks, i)
  {
    forall i | 0 <= i < |ks|
      ensures Forward(ks, 0, Starts(0, 0, 0))[i] == StartsAt(ks, i)
    {
      ForwardFrom(ks, 0, Starts(0, 0, 0), i);
    }
  }

  lemma {:induction false} BackwardHead(ks: seq<Keyed>, i: nat)
    requires i < |ks|
    ensures Backward(ks, i)[0] == EndsAt(ks, i)
    decreases |ks| - i
  {
    if i + 1 < |ks| {
      BackwardHead(ks, i + 1);
    }
  }

  lemma BackwardTail(ks: seq<Keyed>, i: nat)
    requires i < |ks|
    ensures Backward(ks, i)[1..] == Backward(ks, i + 1)
  {
  }

  lemma {:induction false} BackwardFrom(ks: seq<Keyed>, i: nat, m: nat)
    requires i <= m < |ks|
    ensures Backward(ks, i)[m - i] == Backward(ks, m)[0]
    decreases m - i
  {
    if m > i {
      assert Backward(ks, i)[m - i] == Backward(ks, i + 1)[m - (i + 1)] by { BackwardTail(ks, i); }
      BackwardFrom(ks, i + 1, m);
    }
  }

  /** The right-to-left pass finds every row's partition end and peer group end. */
  lemma BackwardTracks(ks: seq<Keyed>)
    ensures forall i :: 0 <= i < |ks| ==> Backward(ks, 0)[i] == EndsAt(ks, i)
  {
    forall i | 0 <= i < |ks|
      ensures Backward(ks, 0)[i] == EndsAt(ks, i)
    {
      BackwardFrom(ks, 0, i);
      BackwardHead(ks, i);
    }
  }

  /** A row's starts and ends determine its value. */
  lemma CellIsFnValue(func: WindowFunc, ks: seq<Keyed>, i: nat)
    requires i < |ks|
    ensures Cell(func, i, StartsAt(ks, i), EndsAt(ks, i)) == FnValue(func, ks, i)
  {
  }

  /** The column computed by the two passes is the window function's value
      on every row. */
  lemma ColumnIsFnValue(func: WindowFunc, ks: seq<Keyed>)
    ensures Column(func, ks) == Values(func, ks)
  {
    ForwardTracks(ks);
    BackwardTracks(ks);
    forall i | 0 <= i < |ks|
      ensures Column(func, ks)[i] == FnValue(func, ks, i)
    {
      CellIsFnValue(func, ks, i);
    }
  }

  /** So the windower's output is the input with the two-pass column appended. */
  lemma WindowerByColumn(spec: WindowerSpec, width: nat, rows: seq<Row>, ks: seq<Keyed>, col: seq<Value>)
    requires ValidSpec(spec, width, rows)
    requires KeysOf(spec, width, rows) == ks && Column(spec.windowFns[0].func, ks) == col
    ensures |col| == |rows| && Windower(spec, width, rows) == Assemble(rows, col)
  {
    ColumnIsFnValue(spec.windowFns[0].func, ks);
  }
}
