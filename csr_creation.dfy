/** The CSR builder of src/core/functions/scalar/csr_creation.cpp: the three one-shot phase
    initializers and the two row-batch entry points, with rows processed one after another. */
module CsrCreation {
  import opened CsrLayout
  import opened CompressedSparseRow
  import opened PgqState

  /** The exceptions the builder raises, apart from allocation failure. */
  datatype CsrError = ConstraintViolation | NotImplemented

  datatype Result<T> = Ok(value: T) | Err(error: CsrError)

  /** The physical type of the weight column. */
  datatype PhysicalType = Int64Type | DoubleType | OtherType

  /** The optional weight column of an edge batch: the registered overloads take either no
      weight, a BIGINT weight or a DOUBLE weight. */
  datatype WeightColumn =
    | NoWeights
    | Int64Weights(ints: seq<int>)
    | DoubleWeights(doubles: seq<Double>)
  {
    predicate AlignedWith(n: int)
    {
      match this
      case NoWeights => true
      case Int64Weights(ints) => |ints| == n
      case DoubleWeights(doubles) => |doubles| == n
    }

    /** The weights the n rows of a batch carry into the CSR's weight history. */
    function Logged(n: nat): (log: seq<RowWeight>)
      ensures AlignedWith(n) ==> |log| == n
    {
      match this
      case NoWeights => seq(n, _ => NoWeight)
      case Int64Weights(ints) => seq(|ints|, k requires 0 <= k < |ints| => IntWeight(ints[k]))
      case DoubleWeights(doubles) => seq(|doubles|, k requires 0 <= k < |doubles| => DoubleWeight(doubles[k]))
    }
  }

  /** The values an edge batch returns, one per row: 1 for an unweighted row, the weight
      converted to the INTEGER result type for a BIGINT weight, and the weight itself for a
      DOUBLE weight. */
  datatype EdgeResults = Ones(ones: seq<int>) | Int32Weights(ints: seq<int>) | Unconverted(doubles: seq<Double>)

  /** The conversion of a 64-bit value to the builder's INTEGER result type: two's-complement
      wrap-around to 32 bits. */
  function Int32(x: int): int
  {
    (x + 0x8000_0000) % 0x1_0000_0000 - 0x8000_0000
  }

  /** The converted value is a 32-bit integer congruent to the original modulo 2^32. */
  lemma {:induction false} Int32Wraps(x: int)
    ensures -0x8000_0000 <= Int32(x) < 0x8000_0000
    ensures (x - Int32(x)) % 0x1_0000_0000 == 0
  {
  }

  /** A value that already fits in 32 bits is returned as it is. */
  lemma {:induction false} Int32Fits(x: int)
    requires -0x8000_0000 <= x < 0x8000_0000
    ensures Int32(x) == x
  {
  }

  /** CsrInitializeVertex: if the id already maps to a CSR with an offset array, nothing
      changes; otherwise the id maps to a fresh CSR whose offset array holds vSize + 2 zeros. */
  method InitializeVertex(context: DuckPgqState, id: int, vSize: int)
    requires vSize >= 0
    modifies context`csrList
    ensures id in context.csrList
    ensures old(id in context.csrList && context.csrList[id].initializedV) ==>
      context.csrList == old(context.csrList)
    ensures !old(id in context.csrList && context.csrList[id].initializedV) ==>
      var csr := context.csrList[id];
      && context.csrList == old(context.csrList)[id := csr]
      && fresh(csr) && fresh(csr.v) && fresh(csr.e) && fresh(csr.edgeIds) && fresh(csr.w) && fresh(csr.wDouble)
      && csr.Valid()
      && csr.initializedV && !csr.initializedE && !csr.initializedW
      && csr.vsize == vSize + 2 && csr.v[..] == Zeros(vSize + 2)
      && csr.e.Length == 0 && csr.w.Length == 0 && csr.wDouble.Length == 0
  {
    if id in context.csrList && context.csrList[id].initializedV {
      return;
    }
    var csr := new CSR();
    var offsets := ZeroOffsets(vSize + 2);
    csr.v := offsets;
    csr.vsize := vSize + 2;
    csr.initializedV := true;
    context.csrList := context.csrList[id := csr];
  }

  /** The allocation of the offset array followed by the loop that zeroes every entry. */
  method ZeroOffsets(n: nat) returns (offsets: array<int>)
    ensures fresh(offsets) && offsets[..] == Zeros(n)
  {
    offsets := new int[n];
    var i := 0;
    while i < n
      invariant 0 <= i <= n
      invariant forall j :: 0 <= j < i ==> offsets[j] == 0
      modifies offsets
    {
      offsets[i] := 0;
      i := i + 1;
    }
    assert offsets[..] == Zeros(n);
  }

  /** CsrInitializeEdge: once per id, sizes e and edgeIds to eSize zeros and turns the
      degrees in v into their inclusive running sum; a later call changes nothing. */
  method InitializeEdge(context: DuckPgqState, id: int, vSize: int, eSize: int)
    requires id in context.csrList
    requires context.csrList[id].Valid() && context.csrList[id].initializedV
    requires !context.csrList[id].initializedE ==> context.csrList[id].vsize == vSize + 2
    requires eSize >= 0
    requires !context.csrList[id].initializedE ==>
      var degrees := context.csrList[id].v[2..];
      NonNegative(degrees) && Sum(degrees) <= eSize
    modifies (context.csrList[id] as CSR)`e, (context.csrList[id] as CSR)`edgeIds, (context.csrList[id] as CSR)`degrees
    modifies (context.csrList[id] as CSR)`inserted, (context.csrList[id] as CSR)`initializedE, context.csrList[id].v
    ensures var csr := context.csrList[id];
      csr.Valid() && csr.initializedE
    ensures old(context.csrList[id].initializedE) ==>
      var csr := context.csrList[id];
      && csr.e == old(csr.e) && csr.edgeIds == old(csr.edgeIds)
      && csr.degrees == old(csr.degrees) && csr.inserted == old(csr.inserted)
      && unchanged(csr.v)
    ensures !old(context.csrList[id].initializedE) ==>
      var csr := context.csrList[id];
      && fresh(csr.e) && fresh(csr.edgeIds)
      && csr.e[..] == Zeros(eSize) && csr.edgeIds[..] == Zeros(eSize)
      && csr.v[..] == RunningSum(old(csr.v[..]))
      && csr.degrees == old(csr.v[2..]) && csr.inserted == []
  {
    var csr := context.csrList[id];
    if csr.initializedE {
      return;
    }
    StartEdgePhase(csr, eSize);
  }

  /** The allocation and prefix-sum part of CsrInitializeEdge on a CSR whose edge phase has
      not run: e and edgeIds become eSize zeros, v becomes the inclusive running sum of its
      contents, and the degrees recorded are the ones v held behind its two pads. */
  method StartEdgePhase(csr: CSR, eSize: int)
    requires csr.Valid() && csr.initializedV && !csr.initializedE
    requires eSize >= 0 && NonNegative(csr.v[2..]) && Sum(csr.v[2..]) <= eSize
    modifies csr`e, csr`edgeIds, csr`degrees, csr`inserted, csr`initializedE, csr.v
    ensures csr.Valid() && csr.initializedE
    ensures fresh(csr.e) && fresh(csr.edgeIds)
    ensures csr.e[..] == Zeros(eSize) && csr.edgeIds[..] == Zeros(eSize)
    ensures csr.v[..] == RunningSum(old(csr.v[..]))
    ensures csr.degrees == old(csr.v[2..]) && csr.inserted == []
  {
    ghost var d0 := csr.degrees;
    AllocateEdges(csr, eSize);
    ghost var before := csr.v[..];
    RunningSumInPlace(csr.v);
    csr.degrees, csr.inserted := before[2..], [];
    csr.initializedE := true;
    EdgePhaseStarted(csr, before);
    WeightsFitNoRows(d0, csr.weightLog, csr.w[..], csr.wDouble[..], csr.initializedW, csr.degrees, eSize);
  }

  /** The two `resize(eSize, 0)` calls of CsrInitializeEdge: fresh zeroed edge and edge-id
      vectors, which share nothing with the weight vectors. */
  method AllocateEdges(csr: CSR, eSize: nat)
    requires csr.Weights()
    modifies csr`e, csr`edgeIds
    ensures csr.Weights() && fresh(csr.e) && fresh(csr.edgeIds) && csr.e != csr.edgeIds
    ensures csr.e[..] == Zeros(eSize) && csr.edgeIds[..] == Zeros(eSize)
  {
    var e := ZeroArray(eSize);
    var edgeIds := ZeroArray(eSize);
    csr.e, csr.edgeIds := e, edgeIds;
  }

  /** The offset invariant right after the prefix sum: v holds the running sum of the padded
      degrees it held before, the edge vectors are zeros, and nothing is inserted yet. */
  lemma {:induction false} EdgePhaseStarted(csr: CSR, before: seq<int>)
    requires csr.v != null && csr.initializedV && csr.initializedE && csr.vsize == csr.v.Length
    requires |before| >= 2 && before[0] == 0 && before[1] == 0
    requires NonNegative(before[2..]) && Sum(before[2..]) <= csr.e.Length
    requires csr.v[..] == RunningSum(before)
    requires csr.e.Length == csr.edgeIds.Length && csr.e != csr.edgeIds
    requires csr.v != csr.e && csr.v != csr.edgeIds
    requires csr.e[..] == Zeros(csr.e.Length) && csr.edgeIds[..] == Zeros(csr.e.Length)
    requires csr.degrees == before[2..] && csr.inserted == []
    ensures csr.Offsets() && csr.Building()
  {
    EmptyBuild(before, csr.e.Length);
  }

  /** A fresh vector of n zeros, as `resize(n, 0)` leaves an empty one. */
  method ZeroArray(n: nat) returns (a: array<int>)
    ensures fresh(a) && a[..] == Zeros(n)
  {
    a := new int[n](_ => 0);
    assert a[..] == Zeros(n);
  }

  /** The loop of CsrInitializeEdge: `v[i] += v[i - 1]` for i from 1 upward, leaving the
      inclusive running sum of the old contents. */
  method RunningSumInPlace(v: array<int>)
    modifies v
    ensures v[..] == RunningSum(old(v[..]))
  {
    ghost var before := v[..];
    if v.Length == 0 {
      return;
    }
    var i := 1;
    while i < v.Length
      invariant 1 <= i <= v.Length
      invariant v[..i] == RunningSum(before[..i])
      invariant v[i..] == before[i..]
    {
      RunningSumSnoc(before, i);
      v[i] := v[i] + v[i - 1];
      assert v[..i + 1] == v[..i] + [v[i]];
      i := i + 1;
    }
    assert v[..] == v[..v.Length];
    assert before == before[..v.Length];
  }

  /** CsrInitializeWeight on `csr`, the registry's entry for id: once per id, sizes exactly
      one weight vector to eSize zeros, the integer one for INT64 and the double one for
      DOUBLE; any other type is refused with NotImplemented and leaves the CSR as it was. */
  method InitializeWeight(context: DuckPgqState, id: int, csr: CSR, eSize: int, weightType: PhysicalType)
    returns (outcome: Result<()>)
    requires id in context.csrList && context.csrList[id] == csr && csr.Valid()
    requires eSize >= 0
    modifies csr`w, csr`wDouble, csr`initializedW
    ensures csr.Valid()
    ensures old(csr.initializedW) ==>
      outcome == Ok(()) && csr.initializedW && csr.w == old(csr.w) && csr.wDouble == old(csr.wDouble)
    ensures !old(csr.initializedW) ==>
      match weightType
      case Int64Type =>
        && outcome == Ok(()) && csr.initializedW
        && fresh(csr.w) && csr.w[..] == Zeros(eSize) && csr.wDouble == old(csr.wDouble)
      case DoubleType =>
        && outcome == Ok(()) && csr.initializedW
        && fresh(csr.wDouble) && csr.wDouble[..] == DoubleZeros(eSize) && csr.w == old(csr.w)
      case OtherType =>
        && outcome == Err(NotImplemented) && !csr.initializedW
        && csr.w == old(csr.w) && csr.wDouble == old(csr.wDouble)
  {
    if csr.initializedW {
      return Ok(());
    }
    if weightType == OtherType {
      return Err(NotImplemented);
    }
    AllocateWeights(csr, eSize, weightType == Int64Type);
    return Ok(());
  }

  /** The `resize(eSize, 0)` of CsrInitializeWeight on the weight vector of its type, and
      the flag that marks the weight phase done. */
  method AllocateWeights(csr: CSR, eSize: nat, integer: bool)
    requires csr.Valid() && !csr.initializedW
    modifies csr`w, csr`wDouble, csr`initializedW
    ensures csr.Valid() && csr.initializedW
    ensures integer ==> fresh(csr.w) && csr.w[..] == Zeros(eSize) && csr.wDouble == old(csr.wDouble)
    ensures !integer ==> fresh(csr.wDouble) && csr.wDouble[..] == DoubleZeros(eSize) && csr.w == old(csr.w)
  {
    WeightsArrive(csr.degrees, csr.inserted, csr.weightLog, csr.e.Length, csr.w[..], csr.wDouble[..], eSize);
    if integer {
      csr.w := ZeroArray(eSize);
    } else {
      csr.wDouble := new Double[eSize](_ => PositiveZero);
      assert csr.wDouble[..] == DoubleZeros(eSize);
    }
    csr.initializedW := true;
  }

  /** The degree lambda of CreateCsrVertexFunction applied to a batch, after the vertex phase
      has been made sure of: every row stores its degree at v[src + 2], and the results are
      the degrees themselves. */
  method CreateCsrVertex(context: DuckPgqState, id: int, inputSize: int, rows: seq<DegreeRow>)
    returns (result: seq<int>)
    requires inputSize >= 0
    requires id in context.csrList ==> context.csrList[id].Valid()
    requires id in context.csrList && context.csrList[id].initializedV ==> !context.csrList[id].initializedE
    requires var vertices := if id in context.csrList && context.csrList[id].initializedV
                             then context.csrList[id].vsize - 2 else inputSize;
      forall k :: 0 <= k < |rows| ==> 0 <= rows[k].src < vertices
    modifies context`csrList, if id in context.csrList then {context.csrList[id].v} else {}
    ensures id in context.csrList
    ensures context.csrList == old(context.csrList)[id := context.csrList[id]]
    ensures var csr := context.csrList[id];
      csr.Valid() && csr.initializedV && !csr.initializedE
    ensures |result| == |rows| && forall k :: 0 <= k < |rows| ==> result[k] == rows[k].degree
    ensures old(id in context.csrList && context.csrList[id].initializedV) ==>
      && context.csrList[id] == old(context.csrList[id])
      && context.csrList[id].vsize == old(context.csrList[id].vsize)
      && context.csrList[id].v[..] == WriteDegrees(old(context.csrList[id].v[..]), rows)
    ensures !old(id in context.csrList && context.csrList[id].initializedV) ==>
      var csr := context.csrList[id];
      && fresh(csr) && fresh(csr.v) && fresh(csr.e) && fresh(csr.edgeIds) && fresh(csr.w) && fresh(csr.wDouble)
      && !csr.initializedW && csr.vsize == inputSize + 2
      && csr.e.Length == 0 && csr.w.Length == 0 && csr.wDouble.Length == 0
      && csr.v[..] == WriteDegrees(Zeros(inputSize + 2), rows)
  {
    if id !in context.csrList {
      InitializeVertex(context, id, inputSize);
    } else if !context.csrList[id].initializedV {
      InitializeVertex(context, id, inputSize);
    }
    result := ApplyDegreeRows(context.csrList[id], rows);
  }

  /** The executor loop of CreateCsrVertexFunction: the degree lambda on every row in turn. */
  method ApplyDegreeRows(csr: CSR, rows: seq<DegreeRow>) returns (result: seq<int>)
    requires csr.Valid() && csr.initializedV && !csr.initializedE
    requires forall k :: 0 <= k < |rows| ==> 0 <= rows[k].src < csr.vsize - 2
    modifies csr.v
    ensures csr.Valid()
    ensures csr.v[..] == WriteDegrees(old(csr.v[..]), rows)
    ensures |result| == |rows| && forall k :: 0 <= k < |rows| ==> result[k] == rows[k].degree
  {
    ghost var start := csr.v[..];
    result := [];
    var k := 0;
    while k < |rows|
      invariant 0 <= k <= |rows|
      invariant csr.Valid()
      invariant csr.v[..] == WriteDegrees(start, rows[..k])
      invariant |result| == k && forall j :: 0 <= j < k ==> result[j] == rows[j].degree
      modifies csr.v
    {
      var edgeCount := csr.SetDegree(rows[k].src, rows[k].degree);
      result := result + [edgeCount];
      assert rows[..k + 1][..k] == rows[..k];
      k := k + 1;
    }
    assert rows[..|rows|] == rows;
  }

  /** The state of an edge loop after the first k rows of a batch, on top of the rows
      `done` that were inserted before it carrying the weights `doneLog`: the build
      invariant holds with exactly those rows inserted, the weight history has grown by the
      weights `logs` of those rows, and the whole batch fits within the degrees. */
  ghost predicate RowsProgress(csr: CSR, done: seq<EdgeRow>, doneLog: seq<RowWeight>,
                               rows: seq<EdgeRow>, logs: seq<RowWeight>, k: int)
    reads csr, csr.v, csr.e, csr.edgeIds, csr.w, csr.wDouble
  {
    && 0 <= k <= |rows| && |logs| == |rows|
    && csr.Valid() && csr.initializedE
    && csr.inserted == done + rows[..k]
    && csr.weightLog == doneLog + logs[..k]
    && SourcesIn(Sources(rows), |csr.degrees|)
    && WithinDegrees(Sources(done + rows), csr.degrees)
    && SourcesIn(Sources(done + rows[..k]), |csr.degrees|)
    && WithinDegrees(Sources(done + rows[..k]), csr.degrees)
    && Sum(csr.degrees) <= csr.e.Length
  }

  /** The facts every edge loop starts from. */
  lemma {:induction false} RowsStart(csr: CSR, rows: seq<EdgeRow>, logs: seq<RowWeight>)
    requires csr.Valid() && csr.initializedE && |logs| == |rows|
    requires SourcesIn(Sources(rows), csr.vsize - 2)
    requires WithinDegrees(Sources(csr.inserted + rows), csr.degrees)
    ensures RowsProgress(csr, csr.inserted, csr.weightLog, rows, logs, 0)
  {
    assert rows[..0] == [] && logs[..0] == [];
    assert csr.inserted + [] == csr.inserted;
    assert csr.weightLog + [] == csr.weightLog;
  }

  /** Row k of a batch: it names a vertex below its degree, and the rows up to it still fit. */
  lemma {:induction false} RowFits<T>(csr: CSR, done: seq<EdgeRow>, doneLog: seq<RowWeight>, rows: seq<EdgeRow>,
                                      logs: seq<RowWeight>, k: int, a: seq<T>, vals: seq<T>)
    requires RowsProgress(csr, done, doneLog, rows, logs, k) && k < |rows|
    requires |vals| == |rows| && csr.e.Length <= |a|
    ensures 0 <= rows[k].src < |csr.degrees| && rows[..k + 1] == rows[..k] + [rows[k]]
    ensures Count(Sources(csr.inserted), rows[k].src) < csr.degrees[rows[k].src]
    ensures vals[..k + 1] == vals[..k] + [vals[k]] && logs[..k + 1] == logs[..k] + [logs[k]]
    ensures doneLog + logs[..k + 1] == csr.weightLog + [logs[k]]
    ensures SourcesIn(Sources(done + rows[..k + 1]), |csr.degrees|)
    ensures WithinDegrees(Sources(done + rows[..k + 1]), csr.degrees)
    ensures var p := Cursors(Layout(csr.degrees), Sources(done + rows[..k]))[rows[k].src + 1];
      && 0 <= p < Sum(csr.degrees)
      && Scatter(a, BatchSlots(csr.degrees, done, rows[..k + 1]), vals[..k + 1])
         == Scatter(a, BatchSlots(csr.degrees, done, rows[..k]), vals[..k])[p := vals[k]]
  {
    assert Sources(rows)[k] == rows[k].src;
    BatchRowFits(done, rows, csr.degrees, k);
    assert rows[..k + 1] == rows[..k] + [rows[k]];
    assert vals[..k + 1] == vals[..k] + [vals[k]];
    assert logs[..k + 1] == logs[..k] + [logs[k]];
    BatchStep(csr.degrees, done, rows[..k], rows[k], a, vals[..k], vals[k]);
  }

  /** The executor loop of the unweighted edge path: InsertEdge on every row in turn. The
      batch is appended to the inserted rows, which by the build invariant fixes v, e and
      edgeIds; no row carries a weight, and every row yields 1. */
  method InsertUnweightedRows(csr: CSR, rows: seq<EdgeRow>) returns (markers: seq<int>)
    requires csr.Valid() && csr.initializedE
    requires SourcesIn(Sources(rows), csr.vsize - 2)
    requires WithinDegrees(Sources(csr.inserted + rows), csr.degrees)
    modifies csr`inserted, csr`weightLog, csr.v, csr.e, csr.edgeIds
    ensures csr.Valid() && csr.initializedE
    ensures csr.v == old(csr.v) && csr.e == old(csr.e) && csr.w == old(csr.w) && csr.wDouble == old(csr.wDouble)
    ensures csr.degrees == old(csr.degrees) && csr.initializedW == old(csr.initializedW)
    ensures csr.inserted == old(csr.inserted) + rows
    ensures csr.weightLog == old(csr.weightLog) + NoWeights.Logged(|rows|)
    ensures markers == seq(|rows|, _ => 1)
  {
    ghost var done, doneLog := csr.inserted, csr.weightLog;
    ghost var logs := NoWeights.Logged(|rows|);
    RowsStart(csr, rows, logs);
    markers := [];
    var k := 0;
    while k < |rows|
      invariant RowsProgress(csr, done, doneLog, rows, logs, k)
      invariant markers == seq(k, _ => 1)
      modifies csr`inserted, csr`weightLog, csr.v, csr.e, csr.edgeIds
    {
      var marker := InsertUnweightedRow(csr, done, doneLog, rows, logs, k);
      markers := markers + [marker];
      k := k + 1;
    }
    assert rows[..|rows|] == rows && logs[..|rows|] == logs;
  }

  /** One row of the unweighted loop: InsertEdge on row k, which advances the loop state. */
  method InsertUnweightedRow(csr: CSR, ghost done: seq<EdgeRow>, ghost doneLog: seq<RowWeight>,
                             rows: seq<EdgeRow>, ghost logs: seq<RowWeight>, k: int)
    returns (marker: int)
    requires RowsProgress(csr, done, doneLog, rows, logs, k) && k < |rows|
    requires logs[k] == NoWeight
    modifies csr`inserted, csr`weightLog, csr.v, csr.e, csr.edgeIds
    ensures RowsProgress(csr, done, doneLog, rows, logs, k + 1)
    ensures marker == 1
  {
    RowFits(csr, done, doneLog, rows, logs, k, csr.e[..], Targets(rows));
    marker := csr.InsertEdge(rows[k].src, rows[k].dst, rows[k].edgeId);
  }

  /** The executor loop of the INT64-weighted edge path: InsertEdgeInt on every row in turn.
      Each weight lands in w at the slot its row claimed and joins the weight history, and
      each row yields its weight converted to the 32-bit result type. */
  method InsertInt64Rows(csr: CSR, rows: seq<EdgeRow>, ints: seq<int>) returns (results: seq<int>)
    requires csr.Valid() && csr.initializedE
    requires |ints| == |rows| && csr.e.Length <= csr.w.Length
    requires SourcesIn(Sources(rows), csr.vsize - 2)
    requires WithinDegrees(Sources(csr.inserted + rows), csr.degrees)
    modifies csr`inserted, csr`weightLog, csr.v, csr.e, csr.edgeIds, csr.w
    ensures csr.Valid() && csr.initializedE
    ensures csr.v == old(csr.v) && csr.e == old(csr.e) && csr.w == old(csr.w) && csr.wDouble == old(csr.wDouble)
    ensures csr.degrees == old(csr.degrees) && csr.initializedW == old(csr.initializedW)
    ensures csr.inserted == old(csr.inserted) + rows
    ensures csr.weightLog == old(csr.weightLog) + Int64Weights(ints).Logged(|rows|)
    ensures SourcesIn(Sources(old(csr.inserted) + rows), |csr.degrees|)
    ensures csr.w[..] == Scatter(old(csr.w[..]), BatchSlots(csr.degrees, old(csr.inserted), rows), ints)
    ensures results == seq(|ints|, k requires 0 <= k < |ints| => Int32(ints[k]))
    ensures csr.wDouble[..] == old(csr.wDouble[..])
  {
    ghost var done, doneLog := csr.inserted, csr.weightLog;
    ghost var logs := Int64Weights(ints).Logged(|rows|);
    ghost var w0 := csr.w[..];
    RowsStart(csr, rows, logs);
    var k := 0;
    while k < |rows|
      invariant RowsProgress(csr, done, doneLog, rows, logs, k)
      invariant csr.e.Length <= csr.w.Length && |w0| == csr.w.Length
      invariant csr.w[..] == Scatter(w0, BatchSlots(csr.degrees, done, rows[..k]), ints[..k])
      modifies csr`inserted, csr`weightLog, csr.v, csr.e, csr.edgeIds, csr.w
    {
      InsertInt64Row(csr, done, doneLog, rows, logs, k, w0, ints);
      k := k + 1;
    }
    assert rows[..|rows|] == rows && logs[..|rows|] == logs;
    assert ints[..|rows|] == ints;
    results := seq(|ints|, j requires 0 <= j < |ints| => Int32(ints[j]));
  }

  /** One row of the INT64 loop: InsertEdgeInt on row k, which advances the loop state. */
  method InsertInt64Row(csr: CSR, ghost done: seq<EdgeRow>, ghost doneLog: seq<RowWeight>,
                        rows: seq<EdgeRow>, ghost logs: seq<RowWeight>, k: int,
                        ghost w0: seq<int>, ints: seq<int>)
    requires RowsProgress(csr, done, doneLog, rows, logs, k) && k < |rows| && |ints| == |rows|
    requires logs[k] == IntWeight(ints[k])
    requires csr.e.Length <= csr.w.Length && |w0| == csr.w.Length
    requires csr.w[..] == Scatter(w0, BatchSlots(csr.degrees, done, rows[..k]), ints[..k])
    modifies csr`inserted, csr`weightLog, csr.v, csr.e, csr.edgeIds, csr.w
    ensures RowsProgress(csr, done, doneLog, rows, logs, k + 1)
    ensures csr.e.Length <= csr.w.Length
    ensures csr.w[..] == Scatter(w0, BatchSlots(csr.degrees, done, rows[..k + 1]), ints[..k + 1])
  {
    RowFits(csr, done, doneLog, rows, logs, k, w0, ints);
    csr.InsertEdgeInt(rows[k].src, rows[k].dst, rows[k].edgeId, ints[k]);
  }

  /** The executor loop of the DOUBLE-weighted edge path: InsertEdgeDouble on every row in
      turn. Each weight lands in wDouble at the slot its row claimed and joins the weight
      history. */
  method InsertDoubleRows(csr: CSR, rows: seq<EdgeRow>, doubles: seq<Double>)
    requires csr.Valid() && csr.initializedE
    requires |doubles| == |rows| && csr.e.Length <= csr.wDouble.Length
    requires SourcesIn(Sources(rows), csr.vsize - 2)
    requires WithinDegrees(Sources(csr.inserted + rows), csr.degrees)
    modifies csr`inserted, csr`weightLog, csr.v, csr.e, csr.edgeIds, csr.wDouble
    ensures csr.Valid() && csr.initializedE
    ensures csr.v == old(csr.v) && csr.e == old(csr.e) && csr.w == old(csr.w) && csr.wDouble == old(csr.wDouble)
    ensures csr.degrees == old(csr.degrees) && csr.initializedW == old(csr.initializedW)
    ensures csr.inserted == old(csr.inserted) + rows
    ensures csr.weightLog == old(csr.weightLog) + DoubleWeights(doubles).Logged(|rows|)
    ensures SourcesIn(Sources(old(csr.inserted) + rows), |csr.degrees|)
    ensures csr.wDouble[..] == Scatter(old(csr.wDouble[..]), BatchSlots(csr.degrees, old(csr.inserted), rows), doubles)
    ensures csr.w[..] == old(csr.w[..])
  {
    ghost var done, doneLog := csr.inserted, csr.weightLog;
    ghost var logs := DoubleWeights(doubles).Logged(|rows|);
    ghost var w0 := csr.wDouble[..];
    RowsStart(csr, rows, logs);
    var k := 0;
    while k < |rows|
      invariant RowsProgress(csr, done, doneLog, rows, logs, k)
      invariant csr.e.Length <= csr.wDouble.Length && |w0| == csr.wDouble.Length
      invariant csr.wDouble[..] == Scatter(w0, BatchSlots(csr.degrees, done, rows[..k]), doubles[..k])
      modifies csr`inserted, csr`weightLog, csr.v, csr.e, csr.edgeIds, csr.wDouble
    {
      InsertDoubleRow(csr, done, doneLog, rows, logs, k, w0, doubles);
      k := k + 1;
    }
    assert rows[..|rows|] == rows && logs[..|rows|] == logs;
    assert doubles[..|rows|] == doubles;
  }

  /** One row of the DOUBLE loop: InsertEdgeDouble on row k, which advances the loop state. */
  method InsertDoubleRow(csr: CSR, ghost done: seq<EdgeRow>, ghost doneLog: seq<RowWeight>,
                         rows: seq<EdgeRow>, ghost logs: seq<RowWeight>, k: int,
                         ghost w0: seq<Double>, doubles: seq<Double>)
    requires RowsProgress(csr, done, doneLog, rows, logs, k) && k < |rows| && |doubles| == |rows|
    requires logs[k] == DoubleWeight(doubles[k])
    requires csr.e.Length <= csr.wDouble.Length && |w0| == csr.wDouble.Length
    requires csr.wDouble[..] == Scatter(w0, BatchSlots(csr.degrees, done, rows[..k]), doubles[..k])
    modifies csr`inserted, csr`weightLog, csr.v, csr.e, csr.edgeIds, csr.wDouble
    ensures RowsProgress(csr, done, doneLog, rows, logs, k + 1)
    ensures csr.e.Length <= csr.wDouble.Length
    ensures csr.wDouble[..] == Scatter(w0, BatchSlots(csr.degrees, done, rows[..k + 1]), doubles[..k + 1])
  {
    RowFits(csr, done, doneLog, rows, logs, k, w0, doubles);
    csr.InsertEdgeDouble(rows[k].src, rows[k].dst, rows[k].edgeId, doubles[k]);
  }

  /** What an edge batch leaves behind besides the inserted rows: its per-row results, the
      weights its rows carry appended to the weight history `log0` it had before, and, for
      a weighted batch, the weight vector of its type written through the batch's claims on
      top of the contents `ints0` or `doubles0` it had before. */
  ghost predicate BatchWritten(csr: CSR, rows: seq<EdgeRow>, weights: WeightColumn,
                               result: Result<EdgeResults>, before: seq<EdgeRow>, log0: seq<RowWeight>,
                               ints0: seq<int>, doubles0: seq<Double>)
    reads csr, csr.w, csr.wDouble
    requires SourcesIn(Sources(before + rows), |csr.degrees|)
  {
    && csr.weightLog == log0 + weights.Logged(|rows|)
    && match weights
       case NoWeights =>
         result == Ok(Ones(seq(|rows|, _ => 1)))
       case Int64Weights(ints) =>
         && result == Ok(Int32Weights(seq(|ints|, k requires 0 <= k < |ints| => Int32(ints[k]))))
         && csr.initializedW && |ints| == |rows|
         && csr.w[..] == Scatter(ints0, BatchSlots(csr.degrees, before, rows), ints)
       case DoubleWeights(doubles) =>
         && result == Ok(Unconverted(doubles))
         && csr.initializedW && |doubles| == |rows|
         && csr.wDouble[..] == Scatter(doubles0, BatchSlots(csr.degrees, before, rows), doubles)
  }

  /** The weight state an edge batch leaves alone, against the flag `initW0`, the vectors
      `w0` and `wDouble0` and their contents `ints0` and `doubles0` from before it: an
      unweighted batch touches no weight state, a BIGINT batch leaves the double vector, and
      a DOUBLE batch leaves the integer vector. */
  ghost predicate WeightsKept(csr: CSR, weights: WeightColumn, initW0: bool, w0: array<int>,
                              wDouble0: array<Double>, ints0: seq<int>, doubles0: seq<Double>)
    reads csr, csr.w, csr.wDouble
  {
    match weights
    case NoWeights =>
      && csr.initializedW == initW0 && csr.w == w0 && csr.wDouble == wDouble0
      && csr.w[..] == ints0 && csr.wDouble[..] == doubles0
    case Int64Weights(_) =>
      csr.wDouble == wDouble0 && csr.wDouble[..] == doubles0
    case DoubleWeights(_) =>
      csr.w == w0 && csr.w[..] == ints0
  }

  /** CreateCsrEdgeFunction on one batch. When the edge count computed over all vertices
      differs from the edge table's size, the id is marked for deletion and the batch fails
      with a constraint violation, leaving the registered CSR and its vectors as they were.
      Otherwise the edge phase is made sure of, the weight vector of the batch's type is made
      sure of, and every row claims the next slot of its source: the rows are appended to
      the inserted ones, which by the build invariant fix v, e and edgeIds, each weight
      lands in the weight vector at its row's slot, and the other weight state is kept. */
  method CreateCsrEdge(context: DuckPgqState, id: int, vertexSize: int, edgeSize: int,
                       edgeSizeCount: int, rows: seq<EdgeRow>, weights: WeightColumn)
    returns (result: Result<EdgeResults>)
    requires weights.AlignedWith(|rows|)
    requires edgeSize == edgeSizeCount ==>
      id in context.csrList && context.csrList[id].AcceptsEdges(vertexSize, edgeSize, Sources(rows))
    requires edgeSize == edgeSizeCount && weights.Int64Weights? && context.csrList[id].initializedW ==>
      context.csrList[id].w.Length >= edgeSize
    requires edgeSize == edgeSizeCount && weights.DoubleWeights? && context.csrList[id].initializedW ==>
      context.csrList[id].wDouble.Length >= edgeSize
    modifies context`csrToDelete
    modifies if id in context.csrList then
      var csr := context.csrList[id];
      {csr, csr.v, csr.e, csr.edgeIds, csr.w, csr.wDouble}
    else {}
    ensures edgeSize != edgeSizeCount ==>
      && result == Err(ConstraintViolation)
      && context.csrToDelete == old(context.csrToDelete) + {id}
      && (id in context.csrList ==>
            var csr := context.csrList[id];
            && unchanged(csr) && unchanged(csr.e, csr.edgeIds, csr.w, csr.wDouble)
            && (csr.v != null ==> unchanged(csr.v)))
    ensures edgeSize == edgeSizeCount ==>
      var csr := context.csrList[id];
      var before := if old(csr.initializedE) then old(csr.inserted) else [];
      && context.csrToDelete == old(context.csrToDelete)
      && csr.Valid() && csr.initializedE && csr.e.Length == edgeSize && csr.v == old(csr.v)
      && csr.degrees == (if old(csr.initializedE) then old(csr.degrees) else old(csr.v[2..]))
      && csr.inserted == before + rows
      && SourcesIn(Sources(before + rows), |csr.degrees|)
      && BatchWritten(csr, rows, weights, result, before, old(csr.weightLog),
           if old(csr.initializedW) then old(csr.w[..]) else Zeros(edgeSize),
           if old(csr.initializedW) then old(csr.wDouble[..]) else DoubleZeros(edgeSize))
      && WeightsKept(csr, weights, old(csr.initializedW), old(csr.w), old(csr.wDouble),
           old(csr.w[..]), old(csr.wDouble[..]))
      && (old(csr.initializedE) ==> csr.e == old(csr.e) && csr.edgeIds == old(csr.edgeIds))
      && (!old(csr.initializedE) ==> fresh(csr.e) && fresh(csr.edgeIds))
      && (csr.w == old(csr.w) || fresh(csr.w)) && (csr.wDouble == old(csr.wDouble) || fresh(csr.wDouble))
  {
    if edgeSize != edgeSizeCount {
      context.csrToDelete := context.csrToDelete + {id};
      return Err(ConstraintViolation);
    }
    result := InsertBatch(context, id, context.csrList[id], vertexSize, edgeSize, rows, weights);
  }

  /** CreateCsrEdgeFunction on a batch whose edge count matched, for `csr`, the registry's
      entry for id: the edge phase runs if it has not, then the rows are inserted. */
  method InsertBatch(context: DuckPgqState, id: int, csr: CSR, vertexSize: int, edgeSize: int,
                     rows: seq<EdgeRow>, weights: WeightColumn)
    returns (result: Result<EdgeResults>)
    requires weights.AlignedWith(|rows|)
    requires id in context.csrList && context.csrList[id] == csr
    requires csr.AcceptsEdges(vertexSize, edgeSize, Sources(rows))
    requires weights.Int64Weights? && csr.initializedW ==> csr.w.Length >= edgeSize
    requires weights.DoubleWeights? && csr.initializedW ==> csr.wDouble.Length >= edgeSize
    modifies csr`e, csr`edgeIds, csr`degrees, csr`inserted, csr`weightLog, csr`initializedE
    modifies csr`w, csr`wDouble, csr`initializedW, csr.v, csr.e, csr.edgeIds, csr.w, csr.wDouble
    ensures
      var before := if old(csr.initializedE) then old(csr.inserted) else [];
      && csr.Valid() && csr.initializedE && csr.e.Length == edgeSize && csr.v == old(csr.v)
      && csr.degrees == (if old(csr.initializedE) then old(csr.degrees) else old(csr.v[2..]))
      && csr.inserted == before + rows
      && SourcesIn(Sources(before + rows), |csr.degrees|)
      && BatchWritten(csr, rows, weights, result, before, old(csr.weightLog),
           if old(csr.initializedW) then old(csr.w[..]) else Zeros(edgeSize),
           if old(csr.initializedW) then old(csr.wDouble[..]) else DoubleZeros(edgeSize))
      && WeightsKept(csr, weights, old(csr.initializedW), old(csr.w), old(csr.wDouble),
           old(csr.w[..]), old(csr.wDouble[..]))
    ensures old(csr.initializedE) ==> csr.e == old(csr.e) && csr.edgeIds == old(csr.edgeIds)
    ensures !old(csr.initializedE) ==> fresh(csr.e) && fresh(csr.edgeIds)
    ensures (csr.w == old(csr.w) || fresh(csr.w)) && (csr.wDouble == old(csr.wDouble) || fresh(csr.wDouble))
  {
    EnsureEdgePhase(context, id, csr, vertexSize, edgeSize, rows);
    result := FillEdges(context, id, csr, edgeSize, rows, weights);
  }

  /** The edge-phase guard of CreateCsrEdgeFunction on `csr`, the registry's entry for id:
      CsrInitializeEdge runs unless the edge phase already has, and afterwards the batch
      fits the degrees on top of the rows inserted so far. */
  method EnsureEdgePhase(context: DuckPgqState, id: int, csr: CSR, vertexSize: int, edgeSize: int,
                         rows: seq<EdgeRow>)
    requires id in context.csrList && context.csrList[id] == csr
    requires csr.AcceptsEdges(vertexSize, edgeSize, Sources(rows))
    modifies csr`e, csr`edgeIds, csr`degrees, csr`inserted, csr`initializedE, csr.v
    ensures csr.Valid() && csr.initializedE && csr.e.Length == edgeSize
    ensures csr.inserted == (if old(csr.initializedE) then old(csr.inserted) else [])
    ensures csr.degrees == (if old(csr.initializedE) then old(csr.degrees) else old(csr.v[2..]))
    ensures SourcesIn(Sources(rows), csr.vsize - 2)
    ensures WithinDegrees(Sources(csr.inserted + rows), csr.degrees)
    ensures old(csr.initializedE) ==> csr.e == old(csr.e) && csr.edgeIds == old(csr.edgeIds)
    ensures !old(csr.initializedE) ==> fresh(csr.e) && fresh(csr.edgeIds)
  {
    if !csr.initializedE {
      assert WithinDegrees(Sources(rows), csr.v[2..]);
      InitializeEdge(context, id, vertexSize, edgeSize);
      assert csr.inserted + rows == rows;
    } else {
      SourcesConcat(csr.inserted, rows);
    }
  }

  /** The row path of CreateCsrEdgeFunction once the edge phase has run on `csr`, the
      registry's entry for id: the weight vector of the batch's type is made sure of, then
      the executor loop of that type runs. */
  method FillEdges(context: DuckPgqState, id: int, csr: CSR, edgeSize: int, rows: seq<EdgeRow>,
                   weights: WeightColumn)
    returns (result: Result<EdgeResults>)
    requires weights.AlignedWith(|rows|) && edgeSize >= 0
    requires id in context.csrList && context.csrList[id] == csr
    requires csr.Valid() && csr.initializedE && csr.e.Length == edgeSize
    requires SourcesIn(Sources(rows), csr.vsize - 2)
    requires WithinDegrees(Sources(csr.inserted + rows), csr.degrees)
    requires weights.Int64Weights? && csr.initializedW ==> csr.w.Length >= edgeSize
    requires weights.DoubleWeights? && csr.initializedW ==> csr.wDouble.Length >= edgeSize
    modifies csr`w, csr`wDouble, csr`initializedW, csr`inserted, csr`weightLog
    modifies csr.v, csr.e, csr.edgeIds, csr.w, csr.wDouble
    ensures csr.Valid() && csr.initializedE && csr.e.Length == edgeSize
    ensures csr.v == old(csr.v) && csr.degrees == old(csr.degrees)
    ensures csr.inserted == old(csr.inserted) + rows
    ensures SourcesIn(Sources(old(csr.inserted) + rows), |csr.degrees|)
    ensures BatchWritten(csr, rows, weights, result, old(csr.inserted), old(csr.weightLog),
              if old(csr.initializedW) then old(csr.w[..]) else Zeros(edgeSize),
              if old(csr.initializedW) then old(csr.wDouble[..]) else DoubleZeros(edgeSize))
    ensures WeightsKept(csr, weights, old(csr.initializedW), old(csr.w), old(csr.wDouble),
              old(csr.w[..]), old(csr.wDouble[..]))
    ensures (csr.w == old(csr.w) || fresh(csr.w)) && (csr.wDouble == old(csr.wDouble) || fresh(csr.wDouble))
  {
    match weights
    case NoWeights =>
      var ones := InsertUnweightedRows(csr, rows);
      SourcesConcat(old(csr.inserted), rows);
      return Ok(Ones(ones));
    case Int64Weights(ints) =>
      var converted := FillInt64(context, id, csr, edgeSize, rows, ints);
      return Ok(Int32Weights(converted));
    case DoubleWeights(doubles) =>
      FillDouble(context, id, csr, edgeSize, rows, doubles);
      return Ok(Unconverted(doubles));
  }

  /** The BIGINT-weighted row path: w is made sure of, then the INT64 loop runs. */
  method FillInt64(context: DuckPgqState, id: int, csr: CSR, edgeSize: int, rows: seq<EdgeRow>,
                   ints: seq<int>)
    returns (converted: seq<int>)
    requires |ints| == |rows| && edgeSize >= 0
    requires id in context.csrList && context.csrList[id] == csr
    requires csr.Valid() && csr.initializedE && csr.e.Length == edgeSize
    requires SourcesIn(Sources(rows), csr.vsize - 2)
    requires WithinDegrees(Sources(csr.inserted + rows), csr.degrees)
    requires csr.initializedW ==> csr.w.Length >= edgeSize
    modifies csr`w, csr`wDouble, csr`initializedW, csr`inserted, csr`weightLog
    modifies csr.v, csr.e, csr.edgeIds, csr.w
    ensures csr.Valid() && csr.initializedE && csr.initializedW && csr.e.Length == edgeSize
    ensures csr.v == old(csr.v) && csr.degrees == old(csr.degrees)
    ensures csr.inserted == old(csr.inserted) + rows
    ensures csr.weightLog == old(csr.weightLog) + Int64Weights(ints).Logged(|rows|)
    ensures SourcesIn(Sources(old(csr.inserted) + rows), |csr.degrees|)
    ensures csr.wDouble == old(csr.wDouble) && csr.wDouble[..] == old(csr.wDouble[..])
    ensures csr.w == old(csr.w) || fresh(csr.w)
    ensures csr.w[..] == Scatter(if old(csr.initializedW) then old(csr.w[..]) else Zeros(edgeSize),
                                 BatchSlots(csr.degrees, old(csr.inserted), rows), ints)
    ensures converted == seq(|ints|, k requires 0 <= k < |ints| => Int32(ints[k]))
  {
    PrepareInt64Weights(context, id, csr, edgeSize);
    converted := InsertInt64Rows(csr, rows, ints);
  }

  /** The DOUBLE-weighted row path: wDouble is made sure of, then the DOUBLE loop runs. */
  method FillDouble(context: DuckPgqState, id: int, csr: CSR, edgeSize: int, rows: seq<EdgeRow>,
                    doubles: seq<Double>)
    requires |doubles| == |rows| && edgeSize >= 0
    requires id in context.csrList && context.csrList[id] == csr
    requires csr.Valid() && csr.initializedE && csr.e.Length == edgeSize
    requires SourcesIn(Sources(rows), csr.vsize - 2)
    requires WithinDegrees(Sources(csr.inserted + rows), csr.degrees)
    requires csr.initializedW ==> csr.wDouble.Length >= edgeSize
    modifies csr`w, csr`wDouble, csr`initializedW, csr`inserted, csr`weightLog
    modifies csr.v, csr.e, csr.edgeIds, csr.wDouble
    ensures csr.Valid() && csr.initializedE && csr.initializedW && csr.e.Length == edgeSize
    ensures csr.v == old(csr.v) && csr.degrees == old(csr.degrees)
    ensures csr.inserted == old(csr.inserted) + rows
    ensures csr.weightLog == old(csr.weightLog) + DoubleWeights(doubles).Logged(|rows|)
    ensures SourcesIn(Sources(old(csr.inserted) + rows), |csr.degrees|)
    ensures csr.w == old(csr.w) && csr.w[..] == old(csr.w[..])
    ensures csr.wDouble == old(csr.wDouble) || fresh(csr.wDouble)
    ensures csr.wDouble[..] == Scatter(if old(csr.initializedW) then old(csr.wDouble[..]) else DoubleZeros(edgeSize),
                                       BatchSlots(csr.degrees, old(csr.inserted), rows), doubles)
  {
    PrepareDoubleWeights(context, id, csr, edgeSize);
    InsertDoubleRows(csr, rows, doubles);
  }

  /** The weight guard of the BIGINT path: CsrInitializeWeight runs unless w is already
      sized, and afterwards w holds its old contents or edgeSize zeros. */
  method PrepareInt64Weights(context: DuckPgqState, id: int, csr: CSR, edgeSize: int)
    requires edgeSize >= 0 && id in context.csrList && context.csrList[id] == csr
    requires csr.Valid() && csr.e.Length == edgeSize
    requires csr.initializedW ==> csr.w.Length >= edgeSize
    modifies csr`w, csr`wDouble, csr`initializedW
    ensures csr.Valid() && csr.initializedW && csr.e.Length <= csr.w.Length
    ensures csr.wDouble == old(csr.wDouble) && (csr.w == old(csr.w) || fresh(csr.w))
    ensures csr.w[..] == if old(csr.initializedW) then old(csr.w[..]) else Zeros(edgeSize)
  {
    if !csr.initializedW {
      var _ := InitializeWeight(context, id, csr, edgeSize, Int64Type);
    }
  }

  /** The weight guard of the DOUBLE path: CsrInitializeWeight runs unless wDouble is
      already sized, and afterwards wDouble holds its old contents or edgeSize zeros. */
  method PrepareDoubleWeights(context: DuckPgqState, id: int, csr: CSR, edgeSize: int)
    requires edgeSize >= 0 && id in context.csrList && context.csrList[id] == csr
    requires csr.Valid() && csr.e.Length == edgeSize
    requires csr.initializedW ==> csr.wDouble.Length >= edgeSize
    modifies csr`w, csr`wDouble, csr`initializedW
    ensures csr.Valid() && csr.initializedW && csr.e.Length <= csr.wDouble.Length
    ensures csr.w == old(csr.w) && (csr.wDouble == old(csr.wDouble) || fresh(csr.wDouble))
    ensures csr.wDouble[..] == if old(csr.initializedW) then old(csr.wDouble[..]) else DoubleZeros(edgeSize)
  {
    if !csr.initializedW {
      var _ := InitializeWeight(context, id, csr, edgeSize, DoubleType);
    }
  }
}
