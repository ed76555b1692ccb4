/** The CSR record of src/include/duckpgq/core/utils/compressed_sparse_row.hpp and the
    per-row steps of the builder that fill it in place. */
module CompressedSparseRow {
  import opened CsrLayout

  /** A double-precision weight, kept as its IEEE-754 bit pattern: weights are only copied. */
  datatype Double = Double(bits: bv64)

  const PositiveZero: Double := Double(0)

  function DoubleZeros(n: nat): seq<Double>
  {
    seq(n, _ => PositiveZero)
  }

  /** The weight an edge row carried: none for an unweighted batch, else a BIGINT or a
      DOUBLE weight. */
  datatype RowWeight = NoWeight | IntWeight(intValue: int) | DoubleWeight(doubleValue: Double)
  {
    /** What the row leaves in w at its slot: its BIGINT weight, or the fill value 0. */
    function IntPart(): int
    {
      if IntWeight? then intValue else 0
    }

    /** What the row leaves in wDouble at its slot: its DOUBLE weight, or the fill value. */
    function DoublePart(): Double
    {
      if DoubleWeight? then doubleValue else PositiveZero
    }
  }

  function IntWeightsOf(log: seq<RowWeight>): seq<int>
  {
    seq(|log|, k requires 0 <= k < |log| => log[k].IntPart())
  }

  function DoubleWeightsOf(log: seq<RowWeight>): seq<Double>
  {
    seq(|log|, k requires 0 <= k < |log| => log[k].DoublePart())
  }

  class CSR {
    /** Vertex offsets: degrees, then range boundaries, then insertion cursors; null until
        the vertex phase allocates it. */
    var v: array?<int>
    var vsize: int
    /** Destination vertex and original edge id of each edge, index-aligned. */
    var e: array<int>
    var edgeIds: array<int>
    /** Integer or double weights; at most one of them is ever allocated. */
    var w: array<int>
    var wDouble: array<Double>

    var initializedV: bool
    var initializedE: bool
    var initializedW: bool

    /** The degrees the edge phase found in v[2..], and the edge rows inserted since then,
        in the order they were processed. */
    ghost var degrees: seq<int>
    ghost var inserted: seq<EdgeRow>
    /** The weight each inserted row carried, index-aligned with `inserted`. */
    ghost var weightLog: seq<RowWeight>

    /** The build invariant once the edge phase has run: v, e and edgeIds are exactly what
        the inserted rows, claimed one after another on top of the prefix sum of the degrees,
        produce from zero-filled edge arrays. */
    ghost predicate Building()
      reads this`v, this`e, this`edgeIds, this`degrees, this`inserted, v, e, edgeIds
      requires v != null
    {
      var srcs := Sources(inserted);
      && v.Length == |degrees| + 2
      && SourcesIn(srcs, |degrees|)
      && WithinDegrees(srcs, degrees)
      && Sum(degrees) <= e.Length
      && v[..] == Cursors(Layout(degrees), srcs)
      && var slots := ClaimedSlots(Layout(degrees), srcs);
      && e[..] == Scatter(Zeros(e.Length), slots, Targets(inserted))
      && edgeIds[..] == Scatter(Zeros(e.Length), slots, EdgeIds(inserted))
    }

    /** The offset and edge vectors: v exists once the vertex phase has run and holds two zero
        pads until the edge phase runs, after which the build invariant holds. */
    ghost predicate Offsets()
      reads this`v, this`vsize, this`e, this`edgeIds, this`initializedV, this`initializedE
      reads this`degrees, this`inserted, v, e, edgeIds
    {
      && (v == null <==> !initializedV)
      && vsize == (if v == null then 0 else v.Length)
      && e.Length == edgeIds.Length && e != edgeIds
      && (v != null ==> v != e && v != edgeIds)
      && (!initializedE ==> e.Length == 0 && inserted == [])
      && (initializedE ==> initializedV)
      && (v != null && !initializedE ==> v.Length >= 2 && v[0] == 0 && v[1] == 0)
      && (v != null && initializedE ==> Building())
    }

    /** The weight vectors: empty until the weight phase runs, at most one of them ever
        allocated, and never shared with the offset or edge vectors. */
    ghost predicate Weights()
      reads this`v, this`e, this`edgeIds, this`w, this`wDouble, this`initializedW
    {
      && w != e && w != edgeIds && (v != null ==> v != w)
      && (!initializedW ==> w.Length == 0 && wDouble.Length == 0)
      && (w.Length == 0 || wDouble.Length == 0)
    }

    /** The weight contents, as WeightsFit states them for the current rows and vectors. */
    ghost predicate WeightsWritten()
      reads this`e, this`w, this`wDouble, this`initializedW, this`degrees, this`inserted
      reads this`weightLog, w, wDouble
    {
      WeightsFit(degrees, inserted, weightLog, e.Length, w[..], wDouble[..], initializedW)
    }

    ghost predicate Valid()
      reads this, v, e, edgeIds, w, wDouble
    {
      Offsets() && Weights() && WeightsWritten()
    }

    /** What an edge batch with sources `srcs` needs: every source is one of the vertices
        the offsets were allocated for, and, counting the rows already inserted, no source
        exceeds its degree while the degrees sum to at most edgeSize; edge arrays already
        allocated hold edgeSize entries. Before the edge phase, whose prefix sum runs over
        vertexSize + 2 offsets, the offsets hold that many entries and the degrees are v[2..]. */
    ghost predicate AcceptsEdges(vertexSize: int, edgeSize: int, srcs: seq<int>)
      reads this, v, e, edgeIds, w, wDouble
    {
      && Valid() && initializedV && edgeSize >= 0
      && SourcesIn(srcs, vsize - 2)
      && (initializedE ==> e.Length == edgeSize && WithinDegrees(Sources(inserted) + srcs, degrees))
      && (!initializedE ==>
            && vsize == vertexSize + 2
            && NonNegative(v[2..]) && Sum(v[2..]) <= edgeSize && WithinDegrees(srcs, v[2..]))
    }

    /** A fresh record: no offset array, empty edge and weight vectors, no phase done. */
    constructor ()
      ensures Valid()
      ensures v == null && vsize == 0
      ensures e.Length == 0 && edgeIds.Length == 0 && w.Length == 0 && wDouble.Length == 0
      ensures !initializedV && !initializedE && !initializedW
      ensures fresh(e) && fresh(edgeIds) && fresh(w) && fresh(wDouble)
    {
      v := null;
      vsize := 0;
      e := new int[0];
      edgeIds := new int[0];
      w := new int[0];
      wDouble := new Double[0];
      initializedV, initializedE, initializedW := false, false, false;
      degrees, inserted, weightLog := [], [], [];
    }

    /** The degree row `(src, cnt)`: stores cnt at v[src + 2], touching no other offset, and
        passes cnt through as the row's result. */
    method SetDegree(src: int, cnt: int) returns (edgeCount: int)
      requires Valid() && initializedV && !initializedE
      requires 0 <= src < vsize - 2
      modifies v
      ensures Valid()
      ensures v[..] == old(v[..])[src + 2 := cnt]
      ensures edgeCount == cnt
    {
      edgeCount := 0;
      v[src + 2] := cnt;
      edgeCount := edgeCount + cnt;
    }

    /** The unweighted edge row: `pos := ++v[src + 1]`, then dst and the edge id go to slot
        pos - 1 of e and edgeIds. Only v[src + 1] moves, by one; the row's result is 1. */
    method InsertEdge(src: int, dst: int, edgeId: int) returns (marker: int)
      requires Valid() && initializedE
      requires 0 <= src < vsize - 2
      requires Count(Sources(inserted), src) < degrees[src]
      modifies this`inserted, this`weightLog, v, e, edgeIds
      ensures Valid()
      ensures inserted == old(inserted) + [EdgeRow(src, dst, edgeId)]
      ensures weightLog == old(weightLog) + [NoWeight]
      ensures var pos := old(v[src + 1]);
        0 <= pos < e.Length &&
        v[..] == old(v[..])[src + 1 := pos + 1] &&
        e[..] == old(e[..])[pos := dst] &&
        edgeIds[..] == old(edgeIds[..])[pos := edgeId]
      ensures marker == 1
    {
      ghost var d, rows, log, ints, doubles := degrees, inserted, weightLog, w[..], wDouble[..];
      var pos := ClaimEdge(src, dst, edgeId);
      weightLog := weightLog + [NoWeight];
      WeightsFitStep(d, rows, log, e.Length, ints, doubles, initializedW,
                     EdgeRow(src, dst, edgeId), NoWeight, pos - 1);
      assert w[..] == ints && wDouble[..] == doubles;
      assert inserted == rows + [EdgeRow(src, dst, edgeId)] && weightLog == log + [NoWeight];
      marker := 1;
    }

    /** The INT64-weighted edge row: as InsertEdge, and the weight goes to the same slot of w. */
    method InsertEdgeInt(src: int, dst: int, edgeId: int, weight: int)
      requires Valid() && initializedE
      requires 0 <= src < vsize - 2
      requires Count(Sources(inserted), src) < degrees[src]
      requires e.Length <= w.Length
      modifies this`inserted, this`weightLog, v, e, edgeIds, w
      ensures Valid()
      ensures inserted == old(inserted) + [EdgeRow(src, dst, edgeId)]
      ensures weightLog == old(weightLog) + [IntWeight(weight)]
      ensures var pos := old(v[src + 1]);
        0 <= pos < e.Length &&
        v[..] == old(v[..])[src + 1 := pos + 1] &&
        e[..] == old(e[..])[pos := dst] &&
        edgeIds[..] == old(edgeIds[..])[pos := edgeId] &&
        w[..] == old(w[..])[pos := weight]
    {
      ghost var d, rows, log, ints, doubles := degrees, inserted, weightLog, w[..], wDouble[..];
      var pos := ClaimEdge(src, dst, edgeId);
      PutIntWeight(pos - 1, weight);
      weightLog := weightLog + [IntWeight(weight)];
      WeightsFitStep(d, rows, log, e.Length, ints, doubles, initializedW,
                     EdgeRow(src, dst, edgeId), IntWeight(weight), pos - 1);
      assert w[..] == ints[pos - 1 := weight] && wDouble[..] == doubles;
      assert inserted == rows + [EdgeRow(src, dst, edgeId)] && weightLog == log + [IntWeight(weight)];
    }

    /** The DOUBLE-weighted edge row: as InsertEdge, and the weight goes to the same slot
        of wDouble. */
    method InsertEdgeDouble(src: int, dst: int, edgeId: int, weight: Double)
      requires Valid() && initializedE
      requires 0 <= src < vsize - 2
      requires Count(Sources(inserted), src) < degrees[src]
      requires e.Length <= wDouble.Length
      modifies this`inserted, this`weightLog, v, e, edgeIds, wDouble
      ensures Valid()
      ensures inserted == old(inserted) + [EdgeRow(src, dst, edgeId)]
      ensures weightLog == old(weightLog) + [DoubleWeight(weight)]
      ensures var pos := old(v[src + 1]);
        0 <= pos < e.Length &&
        v[..] == old(v[..])[src + 1 := pos + 1] &&
        e[..] == old(e[..])[pos := dst] &&
        edgeIds[..] == old(edgeIds[..])[pos := edgeId] &&
        wDouble[..] == old(wDouble[..])[pos := weight]
    {
      ghost var d, rows, log, ints, doubles := degrees, inserted, weightLog, w[..], wDouble[..];
      var pos := ClaimEdge(src, dst, edgeId);
      PutDoubleWeight(pos - 1, weight);
      weightLog := weightLog + [DoubleWeight(weight)];
      WeightsFitStep(d, rows, log, e.Length, ints, doubles, initializedW,
                     EdgeRow(src, dst, edgeId), DoubleWeight(weight), pos - 1);
      assert w[..] == ints && wDouble[..] == doubles[pos - 1 := weight];
      assert inserted == rows + [EdgeRow(src, dst, edgeId)] && weightLog == log + [DoubleWeight(weight)];
    }

    /** `w[i] = weight`: the offset and edge vectors are untouched. */
    method PutIntWeight(i: int, weight: int)
      requires Offsets() && Weights() && 0 <= i < w.Length
      modifies w
      ensures Offsets() && Weights()
      ensures w[..] == old(w[..])[i := weight]
    {
      w[i] := weight;
    }

    /** `w_double[i] = weight`: the offset and edge vectors are untouched. */
    method PutDoubleWeight(i: int, weight: Double)
      requires Offsets() && Weights() && 0 <= i < wDouble.Length
      modifies wDouble
      ensures Offsets() && Weights()
      ensures wDouble[..] == old(wDouble[..])[i := weight]
    {
      wDouble[i] := weight;
    }

    /** The claim shared by the three edge rows: the pre-incremented cursor and the writes
        to e and edgeIds. */
    method ClaimEdge(src: int, dst: int, edgeId: int) returns (pos: int)
      requires Valid() && initializedE
      requires 0 <= src < vsize - 2
      requires Count(Sources(inserted), src) < degrees[src]
      modifies this`inserted, v, e, edgeIds
      ensures Offsets() && Weights()
      ensures inserted == old(inserted) + [EdgeRow(src, dst, edgeId)]
      ensures pos == old(v[src + 1]) + 1 && 0 < pos <= e.Length
      ensures v[..] == old(v[..])[src + 1 := pos]
      ensures e[..] == old(e[..])[pos - 1 := dst]
      ensures edgeIds[..] == old(edgeIds[..])[pos - 1 := edgeId]
    {
      ClaimRow(degrees, inserted, EdgeRow(src, dst, edgeId), e.Length);
      assert v[src + 1] == v[..][src + 1];
      pos := v[src + 1] + 1;
      v[src + 1] := pos;
      e[pos - 1] := dst;
      edgeIds[pos - 1] := edgeId;
      inserted := inserted + [EdgeRow(src, dst, edgeId)];
    }
  }

  /** The weight contents a build has reached, for rows `rows` carrying the weights `log`,
      claimed on top of the layout of degrees d with eLen edge slots: no row carries a
      weight before the weight phase (`weighted`), and each weight vector long enough to
      hold every edge carries, at the slot each row claimed, that row's weight, and the fill
      value everywhere else. */
  ghost predicate WeightsFit(d: seq<int>, rows: seq<EdgeRow>, log: seq<RowWeight>, eLen: int,
                             ints: seq<int>, doubles: seq<Double>, weighted: bool)
  {
    && |log| == |rows|
    && (!weighted ==> forall k :: 0 <= k < |log| ==> log[k] == NoWeight)
    && SourcesIn(Sources(rows), |d|)
    && var slots := ClaimedSlots(Layout(d), Sources(rows));
    && (eLen <= |ints| ==> ints == Scatter(Zeros(|ints|), slots, IntWeightsOf(log)))
    && (eLen <= |doubles| ==> doubles == Scatter(DoubleZeros(|doubles|), slots, DoubleWeightsOf(log)))
  }

  /** One more edge row r carrying `weight`, while r's source is below its degree: it claims
      slot p, the cursor of its source, and once the part of its weight that a vector stores
      is written there, the weight contents fit the extended rows and log. An unweighted
      row writes nothing, which fits because p still holds the fill value. */
  lemma {:induction false} WeightsFitStep(d: seq<int>, rows: seq<EdgeRow>, log: seq<RowWeight>, eLen: int,
                                          ints: seq<int>, doubles: seq<Double>, weighted: bool,
                                          r: EdgeRow, weight: RowWeight, p: int)
    requires WeightsFit(d, rows, log, eLen, ints, doubles, weighted)
    requires WithinDegrees(Sources(rows), d) && Sum(d) <= eLen
    requires 0 <= r.src < |d| && Count(Sources(rows), r.src) < d[r.src]
    requires p == Cursors(Layout(d), Sources(rows))[r.src + 1]
    requires weight.IntWeight? ==> weighted && eLen <= |ints|
    requires weight.DoubleWeight? ==> weighted && eLen <= |doubles|
    ensures 0 <= p < eLen
    ensures WeightsFit(d, rows + [r], log + [weight], eLen,
              if weight.IntWeight? then ints[p := weight.intValue] else ints,
              if weight.DoubleWeight? then doubles[p := weight.doubleValue] else doubles,
              weighted)
  {
    RowsAppend(rows, r);
    ClaimStep(d, Sources(rows), r.src);
    WeightsOfAppend(log, weight);
    if eLen <= |ints| {
      ClaimWrite(d, rows, r, Zeros(|ints|), IntWeightsOf(log), weight.IntPart());
      if !weight.IntWeight? {
        assert ints[p := 0] == ints;
      }
    }
    if eLen <= |doubles| {
      ClaimWrite(d, rows, r, DoubleZeros(|doubles|), DoubleWeightsOf(log), weight.DoublePart());
      if !weight.DoubleWeight? {
        assert doubles[p := PositiveZero] == doubles;
      }
    }
  }

  lemma {:induction false} WeightsOfAppend(log: seq<RowWeight>, weight: RowWeight)
    ensures IntWeightsOf(log + [weight]) == IntWeightsOf(log) + [weight.IntPart()]
    ensures DoubleWeightsOf(log + [weight]) == DoubleWeightsOf(log) + [weight.DoublePart()]
  {
  }

  /** A log of rows that carried no weight leaves both weight vectors at their fill value,
      whatever slots the rows claimed. */
  lemma {:induction false} NothingWeighted(slots: seq<int>, log: seq<RowWeight>, n: nat)
    requires |slots| == |log|
    requires forall k :: 0 <= k < |log| ==> log[k] == NoWeight
    ensures Scatter(Zeros(n), slots, IntWeightsOf(log)) == Zeros(n)
    ensures Scatter(DoubleZeros(n), slots, DoubleWeightsOf(log)) == DoubleZeros(n)
  {
    if log != [] {
      var m := |log| - 1;
      assert IntWeightsOf(log)[..m] == IntWeightsOf(log[..m]);
      assert DoubleWeightsOf(log)[..m] == DoubleWeightsOf(log[..m]);
      NothingWeighted(slots[..m], log[..m], n);
      var p := slots[m];
      if 0 <= p < n {
        assert Zeros(n)[p := 0] == Zeros(n);
        assert DoubleZeros(n)[p := PositiveZero] == DoubleZeros(n);
      }
    }
  }

  /** Before any row is inserted, the weight contents do not depend on the degrees or on
      the number of edge slots: both weight vectors hold only their fill value. */
  lemma {:induction false} WeightsFitNoRows(d: seq<int>, log: seq<RowWeight>, ints: seq<int>,
                                            doubles: seq<Double>, weighted: bool, d2: seq<int>, eLen2: int)
    requires WeightsFit(d, [], log, 0, ints, doubles, weighted)
    ensures log == [] && ints == Zeros(|ints|) && doubles == DoubleZeros(|doubles|)
    ensures WeightsFit(d2, [], log, eLen2, ints, doubles, weighted)
  {
    assert Sources([]) == [];
    assert IntWeightsOf([]) == [] && DoubleWeightsOf([]) == [];
  }

  /** The weight phase: while no row carries a weight, a weight vector replaced by n fill
      values still fits the rows inserted so far, now that rows may carry weights. */
  lemma {:induction false} WeightsArrive(d: seq<int>, rows: seq<EdgeRow>, log: seq<RowWeight>, eLen: int,
                                         ints: seq<int>, doubles: seq<Double>, n: nat)
    requires WeightsFit(d, rows, log, eLen, ints, doubles, false)
    ensures WeightsFit(d, rows, log, eLen, Zeros(n), doubles, true)
    ensures WeightsFit(d, rows, log, eLen, ints, DoubleZeros(n), true)
  {
    NothingWeighted(ClaimedSlots(Layout(d), Sources(rows)), log, n);
  }

  /** The header's reading of a finished CSR: once every vertex has received exactly its
      degree in edges, v[i] is the number of edges of the vertices before i, and vertex s's
      edges are e[v[s]] to e[v[s + 1] - 1], holding the targets and edge ids of the rows
      whose source is s, in the order they were inserted; a weight vector that holds every
      edge carries those rows' weights over the same range. */
  lemma {:induction false} FinishedAdjacency(csr: CSR, s: int)
    requires csr.Valid() && csr.initializedE
    requires Complete(Sources(csr.inserted), csr.degrees)
    requires 0 <= s < |csr.degrees|
    ensures csr.v[s] == Sum(csr.degrees[..s]) && csr.v[|csr.degrees|] == Sum(csr.degrees)
    ensures 0 <= csr.v[s] <= csr.v[s + 1] <= csr.e.Length
    ensures csr.e[csr.v[s]..csr.v[s + 1]] == Select(Sources(csr.inserted), Targets(csr.inserted), s)
    ensures csr.edgeIds[csr.v[s]..csr.v[s + 1]] == Select(Sources(csr.inserted), EdgeIds(csr.inserted), s)
    ensures csr.e.Length <= csr.w.Length ==>
      csr.w[csr.v[s]..csr.v[s + 1]] == Select(Sources(csr.inserted), IntWeightsOf(csr.weightLog), s)
    ensures csr.e.Length <= csr.wDouble.Length ==>
      csr.wDouble[csr.v[s]..csr.v[s + 1]] == Select(Sources(csr.inserted), DoubleWeightsOf(csr.weightLog), s)
  {
    var d, srcs := csr.degrees, Sources(csr.inserted);
    var n := csr.e.Length;
    FinalOffsets(d, srcs, s);
    FinalOffsets(d, srcs, |d|);
    assert d[..|d|] == d;
    RangeHoldsSource(d, srcs, Targets(csr.inserted), Zeros(n), s);
    RangeHoldsSource(d, srcs, EdgeIds(csr.inserted), Zeros(n), s);
    var c := Cursors(Layout(d), srcs);
    assert csr.e[c[s]..c[s + 1]] == csr.e[..][c[s]..c[s + 1]];
    assert csr.edgeIds[c[s]..c[s + 1]] == csr.edgeIds[..][c[s]..c[s + 1]];
    if n <= csr.w.Length {
      RangeHoldsSource(d, srcs, IntWeightsOf(csr.weightLog), Zeros(csr.w.Length), s);
      assert csr.w[c[s]..c[s + 1]] == csr.w[..][c[s]..c[s + 1]];
    }
    if n <= csr.wDouble.Length {
      RangeHoldsSource(d, srcs, DoubleWeightsOf(csr.weightLog), DoubleZeros(csr.wDouble.Length), s);
      assert csr.wDouble[c[s]..c[s + 1]] == csr.wDouble[..][c[s]..c[s + 1]];
    }
  }
}
