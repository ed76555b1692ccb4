/** Arithmetic of a CSR build, stated on plain sequences.

    The offset array is first filled with per-vertex degrees behind two zero pads, then
    turned into an inclusive running sum (the layout), and finally used as a set of
    insertion cursors: every edge row performs `pos := ++v[src + 1]` and writes its data at
    slot `pos - 1`. This module says what a sequential execution of those steps produces
    and proves the correctness story of the scheme: the claimed slots stay inside the
    source's range, never collide, and once every source has been inserted exactly its
    degree times each cursor has reached the start of the next vertex's range. */
module CsrLayout {

  /** One row of the degree phase: a source vertex and its out-degree. */
  datatype DegreeRow = DegreeRow(src: int, degree: int)

  /** One row of the edge phase: source vertex, destination vertex, original edge id. */
  datatype EdgeRow = EdgeRow(src: int, dst: int, edgeId: int)

  function Sources(rows: seq<EdgeRow>): seq<int>
  {
    seq(|rows|, k requires 0 <= k < |rows| => rows[k].src)
  }

  function Targets(rows: seq<EdgeRow>): seq<int>
  {
    seq(|rows|, k requires 0 <= k < |rows| => rows[k].dst)
  }

  function EdgeIds(rows: seq<EdgeRow>): seq<int>
  {
    seq(|rows|, k requires 0 <= k < |rows| => rows[k].edgeId)
  }

  function Zeros(n: nat): seq<int>
  {
    seq(n, _ => 0)
  }

  predicate NonNegative(d: seq<int>)
  {
    forall s :: 0 <= s < |d| ==> d[s] >= 0
  }

  /** Every source names a vertex in [0, n). */
  predicate SourcesIn(srcs: seq<int>, n: int)
  {
    forall k :: 0 <= k < |srcs| ==> 0 <= srcs[k] < n
  }

  // ---------------------------------------------------------------------------
  // Degree phase

  /** The offsets after the degree rows, in order, have each stored `degree` at `v[src + 2]`. */
  function WriteDegrees(v: seq<int>, rows: seq<DegreeRow>): (r: seq<int>)
    requires forall k :: 0 <= k < |rows| ==> 0 <= rows[k].src && rows[k].src + 2 < |v|
    ensures |r| == |v|
  {
    if rows == [] then v
    else
      var last := rows[|rows| - 1];
      WriteDegrees(v, rows[..|rows| - 1])[last.src + 2 := last.degree]
  }

  /** A degree row whose source no other row repeats leaves its degree at `v[src + 2]`. */
  lemma {:induction false} WriteDegreesHit(v: seq<int>, rows: seq<DegreeRow>, k: int)
    requires forall j :: 0 <= j < |rows| ==> 0 <= rows[j].src && rows[j].src + 2 < |v|
    requires forall i, j :: 0 <= i < j < |rows| ==> rows[i].src != rows[j].src
    requires 0 <= k < |rows|
    ensures WriteDegrees(v, rows)[rows[k].src + 2] == rows[k].degree
  {
    if k < |rows| - 1 {
      WriteDegreesHit(v, rows[..|rows| - 1], k);
    }
  }

  /** An offset that no degree row targets keeps its value. */
  lemma {:induction false} WriteDegreesMiss(v: seq<int>, rows: seq<DegreeRow>, i: int)
    requires forall j :: 0 <= j < |rows| ==> 0 <= rows[j].src && rows[j].src + 2 < |v|
    requires 0 <= i < |v|
    requires forall j :: 0 <= j < |rows| ==> rows[j].src + 2 != i
    ensures WriteDegrees(v, rows)[i] == v[i]
  {
    if rows != [] {
      WriteDegreesMiss(v, rows[..|rows| - 1], i);
    }
  }

  // ---------------------------------------------------------------------------
  // Prefix sum

  /** Sum of all elements, accumulated from the right. */
  function Sum(s: seq<int>): int
  {
    if s == [] then 0 else Sum(s[..|s| - 1]) + s[|s| - 1]
  }

  /** Inclusive running sum computed left to right, one addition per element, as the edge
      phase does in place with `v[i] += v[i - 1]`. */
  function RunningSum(s: seq<int>): (r: seq<int>)
    ensures |r| == |s|
  {
    if |s| == 0 then []
    else
      var r := RunningSum(s[..|s| - 1]);
      r + [(if |s| == 1 then 0 else r[|s| - 2]) + s[|s| - 1]]
  }

  /** The left-to-right scan computes, at every index, the sum of the prefix ending there. */
  lemma {:induction false} RunningSumAt(s: seq<int>, i: int)
    requires 0 <= i < |s|
    ensures RunningSum(s)[i] == Sum(s[..i + 1])
  {
    var n := |s|;
    var p := s[..n - 1];
    if i < n - 1 {
      RunningSumAt(p, i);
      assert p[..i + 1] == s[..i + 1];
    } else {
      if n > 1 {
        RunningSumAt(p, n - 2);
        assert p[..n - 1] == p;
      }
      assert s[..n] == s;
    }
  }

  /** One step of the left-to-right scan: extending the prefix by s[i] appends the previous
      running total plus s[i]. */
  lemma {:induction false} RunningSumSnoc(s: seq<int>, i: int)
    requires 1 <= i < |s|
    ensures RunningSum(s[..i + 1]) == RunningSum(s[..i]) + [RunningSum(s[..i])[i - 1] + s[i]]
  {
    assert s[..i + 1][..i] == s[..i];
  }

  /** The offsets right after the prefix sum, for vertex degrees `d`. */
  function Layout(d: seq<int>): (offsets: seq<int>)
    ensures |offsets| == |d| + 2
  {
    RunningSum([0, 0] + d)
  }

  lemma {:induction false} SumPadded(d: seq<int>, k: int)
    requires 0 <= k <= |d|
    ensures Sum(([0, 0] + d)[..k + 2]) == Sum(d[..k])
  {
    var p := [0, 0] + d;
    if k == 0 {
      assert p[..2] == [0, 0];
      assert p[..2][..1] == [0];
      assert p[..2][..1][..0] == [];
      assert d[..0] == [];
    } else {
      SumPadded(d, k - 1);
      assert p[..k + 2][..k + 1] == p[..k + 1];
      assert d[..k][..k - 1] == d[..k - 1];
    }
  }

  /** After the prefix sum, offset 0 is 0 and offset i >= 1 is the total degree of the
      vertices before i - 1: vertex s's range runs from `Layout(d)[s + 1]` to `Layout(d)[s + 2]`. */
  lemma {:induction false} LayoutAt(d: seq<int>, i: int)
    requires 0 <= i < |d| + 2
    ensures |Layout(d)| == |d| + 2
    ensures Layout(d)[i] == if i == 0 then 0 else Sum(d[..i - 1])
  {
    RunningSumAt([0, 0] + d, i);
    if i == 0 {
      assert ([0, 0] + d)[..1] == [0];
      assert ([0, 0] + d)[..1][..0] == [];
    } else {
      SumPadded(d, i - 1);
    }
  }

  /** The width of vertex s's range after the prefix sum is its degree. */
  lemma {:induction false} RangeWidth(d: seq<int>, s: int)
    requires 0 <= s < |d|
    ensures |Layout(d)| == |d| + 2
    ensures Layout(d)[s + 2] - Layout(d)[s + 1] == d[s]
  {
    LayoutAt(d, s + 1);
    LayoutAt(d, s + 2);
    assert d[..s + 1][..s] == d[..s];
  }

  lemma {:induction false} SumNonDecreasing(d: seq<int>, i: int, j: int)
    requires NonNegative(d)
    requires 0 <= i <= j <= |d|
    ensures 0 <= Sum(d[..i]) <= Sum(d[..j])
    decreases j
  {
    if i < j {
      SumNonDecreasing(d, i, j - 1);
      assert d[..j][..j - 1] == d[..j - 1];
    } else if 0 < i {
      SumNonDecreasing(d, i - 1, i - 1);
      assert d[..i][..i - 1] == d[..i - 1];
    } else {
      assert d[..0] == [];
    }
  }

  /** With non-negative degrees the offsets after the prefix sum are non-negative and
      non-decreasing, and none exceeds the total degree. */
  lemma {:induction false} LayoutMonotone(d: seq<int>, i: int, j: int)
    requires NonNegative(d)
    requires 0 <= i <= j < |d| + 2
    ensures |Layout(d)| == |d| + 2
    ensures 0 <= Layout(d)[i] <= Layout(d)[j] <= Sum(d)
  {
    LayoutAt(d, i);
    LayoutAt(d, j);
    SumNonDecreasing(d, if i == 0 then 0 else i - 1, if j == 0 then 0 else j - 1);
    SumNonDecreasing(d, if j == 0 then 0 else j - 1, |d|);
    assert d[..|d|] == d;
  }

  // ---------------------------------------------------------------------------
  // Insertion cursors

  /** Number of rows whose source is s. */
  function Count(srcs: seq<int>, s: int): (n: nat)
    ensures n <= |srcs|
  {
    if srcs == [] then 0
    else Count(srcs[..|srcs| - 1], s) + (if srcs[|srcs| - 1] == s then 1 else 0)
  }

  lemma {:induction false} CountStep(srcs: seq<int>, k: int, s: int)
    requires 0 <= k < |srcs|
    ensures Count(srcs[..k + 1], s) == Count(srcs[..k], s) + (if srcs[k] == s then 1 else 0)
  {
    assert srcs[..k + 1][..k] == srcs[..k];
  }

  lemma {:induction false} CountPrefix(srcs: seq<int>, j: int, s: int)
    requires 0 <= j <= |srcs|
    ensures Count(srcs[..j], s) <= Count(srcs, s)
    decreases |srcs| - j
  {
    if j < |srcs| {
      CountStep(srcs, j, s);
      CountPrefix(srcs, j + 1, s);
    } else {
      assert srcs[..j] == srcs;
    }
  }

  /** Rows of source s that come before row k, when row k has source s, are fewer than all
      rows of source s. */
  lemma {:induction false} CountBefore(srcs: seq<int>, k: int)
    requires 0 <= k < |srcs|
    ensures Count(srcs[..k], srcs[k]) < Count(srcs, srcs[k])
  {
    CountStep(srcs, k, srcs[k]);
    CountPrefix(srcs, k + 1, srcs[k]);
  }

  /** The offsets after each row in turn has performed `pos := ++v[src + 1]`. */
  function Cursors(v: seq<int>, srcs: seq<int>): (c: seq<int>)
    requires SourcesIn(srcs, |v| - 2)
    ensures |c| == |v|
  {
    if srcs == [] then v
    else
      var c := Cursors(v, srcs[..|srcs| - 1]);
      var s := srcs[|srcs| - 1];
      c[s + 1 := c[s + 1] + 1]
  }

  /** The slot `pos - 1` handed to each row by that same sequence of increments. */
  function ClaimedSlots(v: seq<int>, srcs: seq<int>): (slots: seq<int>)
    requires SourcesIn(srcs, |v| - 2)
    ensures |slots| == |srcs|
  {
    if srcs == [] then []
    else
      var p := srcs[..|srcs| - 1];
      ClaimedSlots(v, p) + [Cursors(v, p)[srcs[|srcs| - 1] + 1]]
  }

  /** Each cursor has moved by exactly the number of rows that named its vertex; offset 0
      never moves. */
  lemma {:induction false} CursorsAt(v: seq<int>, srcs: seq<int>, i: int)
    requires SourcesIn(srcs, |v| - 2)
    requires 0 <= i < |v|
    ensures Cursors(v, srcs)[i] == v[i] + (if i == 0 then 0 else Count(srcs, i - 1))
  {
    if srcs != [] {
      CursorsAt(v, srcs[..|srcs| - 1], i);
    }
  }

  /** Row k claims its source's start offset plus the number of earlier rows of that source. */
  lemma {:induction false} ClaimedSlotAt(v: seq<int>, srcs: seq<int>, k: int)
    requires SourcesIn(srcs, |v| - 2)
    requires 0 <= k < |srcs|
    ensures ClaimedSlots(v, srcs)[k] == v[srcs[k] + 1] + Count(srcs[..k], srcs[k])
  {
    var p := srcs[..|srcs| - 1];
    if k == |srcs| - 1 {
      CursorsAt(v, p, srcs[k] + 1);
      assert srcs[..k] == p;
    } else {
      ClaimedSlotAt(v, p, k);
      assert p[..k] == srcs[..k];
    }
  }

  /** No source has been inserted more often than its degree. */
  predicate WithinDegrees(srcs: seq<int>, d: seq<int>)
  {
    forall s :: 0 <= s < |d| ==> Count(srcs, s) <= d[s]
  }

  /** A claim by source s, while s has had fewer inserts than its degree, lands inside s's
      range and hence inside [0, total degree). */
  lemma {:induction false} ClaimInRange(d: seq<int>, srcs: seq<int>, s: int)
    requires NonNegative(d) && SourcesIn(srcs, |d|)
    requires 0 <= s < |d| && Count(srcs, s) < d[s]
    ensures |Layout(d)| == |d| + 2
    ensures Layout(d)[s + 1] <= Cursors(Layout(d), srcs)[s + 1] < Layout(d)[s + 2]
    ensures 0 <= Cursors(Layout(d), srcs)[s + 1] < Sum(d)
  {
    LayoutAt(d, 0);
    CursorsAt(Layout(d), srcs, s + 1);
    RangeWidth(d, s);
    LayoutMonotone(d, s + 1, s + 2);
    LayoutMonotone(d, s + 2, |d| + 1);
  }

  /** Every row's claimed slot lies in its source's range [Layout(d)[s + 1], Layout(d)[s + 2]). */
  lemma {:induction false} ClaimedSlotInRange(d: seq<int>, srcs: seq<int>, k: int)
    requires SourcesIn(srcs, |d|) && WithinDegrees(srcs, d)
    requires 0 <= k < |srcs|
    ensures |Layout(d)| == |d| + 2
    ensures Layout(d)[srcs[k] + 1] <= ClaimedSlots(Layout(d), srcs)[k] < Layout(d)[srcs[k] + 2]
    ensures 0 <= ClaimedSlots(Layout(d), srcs)[k] < Sum(d)
  {
    var s := srcs[k];
    LayoutAt(d, 0);
    ClaimedSlotAt(Layout(d), srcs, k);
    CountBefore(srcs, k);
    RangeWidth(d, s);
    LayoutMonotone(d, s + 1, s + 2);
    LayoutMonotone(d, s + 2, |d| + 1);
  }

  /** Two rows of the same source claim different slots: the later one has seen one more
      earlier row of that source. */
  lemma {:induction false} SameSourceClaimsDistinct(v: seq<int>, srcs: seq<int>, k1: int, k2: int)
    requires SourcesIn(srcs, |v| - 2)
    requires 0 <= k1 < k2 < |srcs| && srcs[k1] == srcs[k2]
    ensures ClaimedSlots(v, srcs)[k1] < ClaimedSlots(v, srcs)[k2]
  {
    var s := srcs[k1];
    ClaimedSlotAt(v, srcs, k1);
    ClaimedSlotAt(v, srcs, k2);
    CountStep(srcs, k1, s);
    CountPrefix(srcs[..k2], k1 + 1, s);
    assert srcs[..k2][..k1 + 1] == srcs[..k1 + 1];
  }

  /** Rows of different sources claim slots in the order of their sources, because their
      ranges are disjoint and laid out in vertex order. */
  lemma {:induction false} OtherSourceClaimsOrdered(d: seq<int>, srcs: seq<int>, k1: int, k2: int)
    requires SourcesIn(srcs, |d|) && WithinDegrees(srcs, d)
    requires 0 <= k1 < |srcs| && 0 <= k2 < |srcs| && srcs[k1] < srcs[k2]
    ensures ClaimedSlots(Layout(d), srcs)[k1] < ClaimedSlots(Layout(d), srcs)[k2]
  {
    var L, slots := Layout(d), ClaimedSlots(Layout(d), srcs);
    ClaimedSlotInRange(d, srcs, k1);
    assert slots[k1] < L[srcs[k1] + 2];
    ClaimedSlotInRange(d, srcs, k2);
    assert L[srcs[k2] + 1] <= slots[k2];
    LayoutMonotone(d, srcs[k1] + 2, srcs[k2] + 1);
  }

  /** Two different rows never claim the same slot. */
  lemma {:induction false} ClaimsDistinct(d: seq<int>, srcs: seq<int>, k1: int, k2: int)
    requires SourcesIn(srcs, |d|) && WithinDegrees(srcs, d)
    requires 0 <= k1 < k2 < |srcs|
    ensures ClaimedSlots(Layout(d), srcs)[k1] != ClaimedSlots(Layout(d), srcs)[k2]
  {
    if srcs[k1] == srcs[k2] {
      SameSourceClaimsDistinct(Layout(d), srcs, k1, k2);
    } else if srcs[k1] < srcs[k2] {
      OtherSourceClaimsOrdered(d, srcs, k1, k2);
    } else {
      OtherSourceClaimsOrdered(d, srcs, k2, k1);
    }
  }

  /** One more row of source s, while s is below its degree: the step an edge row performs.
      Its claim is in range, the other cursors stay put, and the bound still holds. */
  lemma {:induction false} ClaimStep(d: seq<int>, srcs: seq<int>, s: int)
    requires SourcesIn(srcs, |d|) && WithinDegrees(srcs, d)
    requires 0 <= s < |d| && Count(srcs, s) < d[s]
    ensures SourcesIn(srcs + [s], |d|) && WithinDegrees(srcs + [s], d)
    ensures var c := Cursors(Layout(d), srcs);
      0 <= c[s + 1] < Sum(d) &&
      Cursors(Layout(d), srcs + [s]) == c[s + 1 := c[s + 1] + 1] &&
      ClaimedSlots(Layout(d), srcs + [s]) == ClaimedSlots(Layout(d), srcs) + [c[s + 1]]
  {
    WithinDegreesStep(d, srcs, s);
    assert NonNegative(d) by {
      forall t | 0 <= t < |d|
        ensures d[t] >= 0
      {
        assert Count(srcs, t) <= d[t];
      }
    }
    ClaimInRange(d, srcs, s);
    CursorsAppend(Layout(d), srcs, s);
  }

  /** Appending a row of source s moves only cursor s + 1 and claims its old value. */
  lemma {:induction false} CursorsAppend(v: seq<int>, srcs: seq<int>, s: int)
    requires SourcesIn(srcs, |v| - 2) && 0 <= s < |v| - 2
    ensures SourcesIn(srcs + [s], |v| - 2)
    ensures var c := Cursors(v, srcs);
      && Cursors(v, srcs + [s]) == c[s + 1 := c[s + 1] + 1]
      && ClaimedSlots(v, srcs + [s]) == ClaimedSlots(v, srcs) + [c[s + 1]]
  {
    var t := srcs + [s];
    assert t[..|t| - 1] == srcs && t[|t| - 1] == s;
    assert SourcesIn(t, |v| - 2) by {
      forall k | 0 <= k < |t|
        ensures 0 <= t[k] < |v| - 2
      {
        if k < |srcs| {
          assert t[k] == srcs[k];
        }
      }
    }
    var c := Cursors(v, srcs);
    assert Cursors(v, t) == c[s + 1 := c[s + 1] + 1];
    assert ClaimedSlots(v, t) == ClaimedSlots(v, srcs) + [c[s + 1]];
  }

  /** The build invariant's step for one more edge row r, while r's source is below its
      degree: the row claims the cursor of its source, which lies inside [0, Sum(d)), that
      cursor alone moves on by one, and the edge arrays gain r's target and edge id there. */
  lemma {:induction false} ClaimRow(d: seq<int>, rows: seq<EdgeRow>, r: EdgeRow, n: nat)
    requires SourcesIn(Sources(rows), |d|) && WithinDegrees(Sources(rows), d)
    requires 0 <= r.src < |d| && Count(Sources(rows), r.src) < d[r.src] && Sum(d) <= n
    ensures SourcesIn(Sources(rows + [r]), |d|) && WithinDegrees(Sources(rows + [r]), d)
    ensures var c := Cursors(Layout(d), Sources(rows));
      var p := c[r.src + 1];
      var slots := ClaimedSlots(Layout(d), Sources(rows));
      var next := ClaimedSlots(Layout(d), Sources(rows + [r]));
      && 0 <= p < Sum(d)
      && Cursors(Layout(d), Sources(rows + [r])) == c[r.src + 1 := p + 1]
      && Scatter(Zeros(n), next, Targets(rows + [r])) == Scatter(Zeros(n), slots, Targets(rows))[p := r.dst]
      && Scatter(Zeros(n), next, EdgeIds(rows + [r])) == Scatter(Zeros(n), slots, EdgeIds(rows))[p := r.edgeId]
  {
    RowsAppend(rows, r);
    ClaimStep(d, Sources(rows), r.src);
    var p := Cursors(Layout(d), Sources(rows))[r.src + 1];
    var slots := ClaimedSlots(Layout(d), Sources(rows));
    ScatterStep(Zeros(n), slots, Targets(rows), p, r.dst);
    ScatterStep(Zeros(n), slots, EdgeIds(rows), p, r.edgeId);
  }

  /** One more row r, while r's source is below its degree, claims a slot p in [0, |a|) that
      no earlier row claimed: an array written through the earlier rows' claims still holds
      its initial value there, and writing x there gives the array written through the
      claims including r's. */
  lemma {:induction false} ClaimWrite<T>(d: seq<int>, rows: seq<EdgeRow>, r: EdgeRow, a: seq<T>, vals: seq<T>, x: T)
    requires SourcesIn(Sources(rows), |d|) && WithinDegrees(Sources(rows), d)
    requires 0 <= r.src < |d| && Count(Sources(rows), r.src) < d[r.src]
    requires Sum(d) <= |a| && |vals| == |rows|
    ensures SourcesIn(Sources(rows + [r]), |d|)
    ensures var p := Cursors(Layout(d), Sources(rows))[r.src + 1];
      var slots := ClaimedSlots(Layout(d), Sources(rows));
      && 0 <= p < |a|
      && Scatter(a, slots, vals)[p] == a[p]
      && Scatter(a, ClaimedSlots(Layout(d), Sources(rows + [r])), vals + [x]) == Scatter(a, slots, vals)[p := x]
  {
    var srcs := Sources(rows);
    RowsAppend(rows, r);
    ClaimStep(d, srcs, r.src);
    var p := Cursors(Layout(d), srcs)[r.src + 1];
    var slots := ClaimedSlots(Layout(d), srcs);
    var next := ClaimedSlots(Layout(d), srcs + [r.src]);
    assert next == slots + [p];
    forall k | 0 <= k < |slots|
      ensures slots[k] != p
    {
      ClaimsDistinct(d, srcs + [r.src], k, |slots|);
      assert next[k] == slots[k] && next[|slots|] == p;
    }
    ScatterMiss(a, slots, vals, p);
    ScatterStep(a, slots, vals, p, x);
  }

  /** A row of source s below its degree keeps every source within its degree. */
  lemma {:induction false} WithinDegreesStep(d: seq<int>, srcs: seq<int>, s: int)
    requires SourcesIn(srcs, |d|) && WithinDegrees(srcs, d)
    requires 0 <= s < |d| && Count(srcs, s) < d[s]
    ensures SourcesIn(srcs + [s], |d|) && WithinDegrees(srcs + [s], d)
  {
    assert (srcs + [s])[..|srcs|] == srcs;
    forall t | 0 <= t < |d|
      ensures Count(srcs + [s], t) <= d[t]
    {
      assert Count(srcs + [s], t) == Count(srcs, t) + (if s == t then 1 else 0);
    }
  }

  /** A batch that fits within the degrees as a whole fits row by row: before row k, its
      source is still below its degree. */
  lemma {:induction false} BatchRowFits(done: seq<EdgeRow>, rows: seq<EdgeRow>, d: seq<int>, k: int)
    requires WithinDegrees(Sources(done + rows), d)
    requires 0 <= k < |rows| && 0 <= rows[k].src < |d|
    ensures Count(Sources(done + rows[..k]), rows[k].src) < d[rows[k].src]
  {
    var all := Sources(done + rows);
    assert Sources(done + rows[..k]) == all[..|done| + k];
    assert all[|done| + k] == rows[k].src;
    CountBefore(all, |done| + k);
  }

  /** The slots claimed by the rows of a batch that follows the rows `done`. */
  function BatchSlots(d: seq<int>, done: seq<EdgeRow>, batch: seq<EdgeRow>): (slots: seq<int>)
    requires SourcesIn(Sources(done + batch), |d|)
    ensures |slots| == |batch|
  {
    ClaimedSlots(Layout(d), Sources(done + batch))[|done|..]
  }

  /** One more row r in a batch, while r's source is below its degree: the bound still holds,
      and the array written through the batch's claims gains r's value at the cursor of r's
      source, a slot inside [0, Sum(d)). */
  lemma {:induction false} BatchStep<T>(d: seq<int>, done: seq<EdgeRow>, batch: seq<EdgeRow>, r: EdgeRow,
                     a: seq<T>, vals: seq<T>, x: T)
    requires SourcesIn(Sources(done + batch), |d|) && WithinDegrees(Sources(done + batch), d)
    requires 0 <= r.src < |d| && Count(Sources(done + batch), r.src) < d[r.src]
    requires |vals| == |batch| && Sum(d) <= |a|
    ensures SourcesIn(Sources(done + (batch + [r])), |d|)
    ensures WithinDegrees(Sources(done + (batch + [r])), d)
    ensures var p := Cursors(Layout(d), Sources(done + batch))[r.src + 1];
      && 0 <= p < Sum(d)
      && Scatter(a, BatchSlots(d, done, batch + [r]), vals + [x])
         == Scatter(a, BatchSlots(d, done, batch), vals)[p := x]
  {
    var all := done + batch;
    assert done + (batch + [r]) == all + [r];
    RowsAppend(all, r);
    ClaimStep(d, Sources(all), r.src);
    var p := Cursors(Layout(d), Sources(all))[r.src + 1];
    var before := ClaimedSlots(Layout(d), Sources(all));
    assert (before + [p])[|done|..] == before[|done|..] + [p];
    ScatterStep(a, BatchSlots(d, done, batch), vals, p, x);
  }

  // ---------------------------------------------------------------------------
  // Edge arrays

  /** The array after `vals[k]` has been written at `slots[k]`, for each k in order; a slot
      outside the array writes nothing. */
  function Scatter<T>(a: seq<T>, slots: seq<int>, vals: seq<T>): (r: seq<T>)
    requires |slots| == |vals|
    ensures |r| == |a|
  {
    if slots == [] then a
    else
      var r := Scatter(a, slots[..|slots| - 1], vals[..|vals| - 1]);
      var p := slots[|slots| - 1];
      if 0 <= p < |r| then r[p := vals[|vals| - 1]] else r
  }

  /** Right after the prefix sum, with no edge inserted yet: the running sum of the padded
      degrees is the cursor vector of the empty batch, and the zeroed edge vectors are what
      scattering nothing into zeros gives. */
  lemma {:induction false} EmptyBuild(before: seq<int>, n: nat)
    requires |before| >= 2 && before[0] == 0 && before[1] == 0
    requires NonNegative(before[2..]) && Sum(before[2..]) <= n
    ensures var d := before[2..];
      && SourcesIn(Sources([]), |d|) && WithinDegrees(Sources([]), d)
      && RunningSum(before) == Cursors(Layout(d), Sources([]))
      && Zeros(n) == Scatter(Zeros(n), ClaimedSlots(Layout(d), Sources([])), Targets([]))
      && Zeros(n) == Scatter(Zeros(n), ClaimedSlots(Layout(d), Sources([])), EdgeIds([]))
  {
    var d := before[2..];
    assert before == [0, 0] + d;
    assert Sources([]) == [] && Targets([]) == [] && EdgeIds([]) == [];
  }

  /** When slots are pairwise distinct, slot k ends up holding value k. */
  lemma {:induction false} ScatterAt<T>(a: seq<T>, slots: seq<int>, vals: seq<T>, k: int)
    requires |slots| == |vals| && 0 <= k < |slots| && 0 <= slots[k] < |a|
    requires forall i, j :: 0 <= i < j < |slots| ==> slots[i] != slots[j]
    ensures Scatter(a, slots, vals)[slots[k]] == vals[k]
  {
    if k < |slots| - 1 {
      ScatterAt(a, slots[..|slots| - 1], vals[..|vals| - 1], k);
    }
  }

  /** A position that no slot names keeps its value. */
  lemma {:induction false} ScatterMiss<T>(a: seq<T>, slots: seq<int>, vals: seq<T>, p: int)
    requires |slots| == |vals| && 0 <= p < |a|
    requires forall k :: 0 <= k < |slots| ==> slots[k] != p
    ensures Scatter(a, slots, vals)[p] == a[p]
  {
    if slots != [] {
      ScatterMiss(a, slots[..|slots| - 1], vals[..|vals| - 1], p);
    }
  }

  lemma {:induction false} ScatterStep<T>(a: seq<T>, slots: seq<int>, vals: seq<T>, p: int, x: T)
    requires |slots| == |vals| && 0 <= p < |a|
    ensures Scatter(a, slots + [p], vals + [x]) == Scatter(a, slots, vals)[p := x]
  {
    assert (slots + [p])[..|slots|] == slots;
    assert (vals + [x])[..|vals|] == vals;
  }

  lemma {:induction false} RowsAppend(rows: seq<EdgeRow>, r: EdgeRow)
    ensures Sources(rows + [r]) == Sources(rows) + [r.src]
    ensures Targets(rows + [r]) == Targets(rows) + [r.dst]
    ensures EdgeIds(rows + [r]) == EdgeIds(rows) + [r.edgeId]
  {
  }

  lemma {:induction false} SourcesConcat(rows: seq<EdgeRow>, more: seq<EdgeRow>)
    ensures Sources(rows + more) == Sources(rows) + Sources(more)
  {
  }

  /** The values of the rows whose source is s, in row order. */
  function Select<T>(srcs: seq<int>, vals: seq<T>, s: int): (r: seq<T>)
    requires |srcs| == |vals|
    ensures |r| == Count(srcs, s)
  {
    if srcs == [] then []
    else
      var r := Select(srcs[..|srcs| - 1], vals[..|vals| - 1], s);
      if srcs[|srcs| - 1] == s then r + [vals[|vals| - 1]] else r
  }

  /** Row k is the j-th row of its source, j counting the earlier rows of that source. */
  lemma {:induction false} SelectAt<T>(srcs: seq<int>, vals: seq<T>, k: int)
    requires |srcs| == |vals| && 0 <= k < |srcs|
    ensures Count(srcs[..k], srcs[k]) < |Select(srcs, vals, srcs[k])|
    ensures Select(srcs, vals, srcs[k])[Count(srcs[..k], srcs[k])] == vals[k]
  {
    var n := |srcs| - 1;
    CountBefore(srcs, k);
    if k == n {
      assert srcs[..k] == srcs[..n];
    } else {
      SelectAt(srcs[..n], vals[..n], k);
      assert srcs[..n][..k] == srcs[..k];
    }
  }

  /** The j-th row of source s exists for every j below the number of such rows. */
  lemma {:induction false} Occurrence(srcs: seq<int>, s: int, j: int) returns (k: int)
    requires 0 <= j < Count(srcs, s)
    ensures 0 <= k < |srcs| && srcs[k] == s && Count(srcs[..k], s) == j
  {
    var n := |srcs| - 1;
    if j < Count(srcs[..n], s) {
      k := Occurrence(srcs[..n], s, j);
      assert srcs[..n][..k] == srcs[..k];
    } else {
      k := n;
      assert srcs[..k] == srcs[..n];
    }
  }

  // ---------------------------------------------------------------------------
  // The finished structure

  /** Every source inserted exactly its degree times. */
  predicate Complete(srcs: seq<int>, d: seq<int>)
  {
    forall s :: 0 <= s < |d| ==> Count(srcs, s) == d[s]
  }

  /** Cursor convergence: once every source has been inserted exactly its degree times, the
      cursor of vertex s (offset s + 1) has reached the boundary the prefix sum put at
      offset s + 2, and the offsets are the header's form, with vertex i's edges at
      offsets [i, i + 1). */
  lemma {:induction false} FinalOffsets(d: seq<int>, srcs: seq<int>, i: int)
    requires SourcesIn(srcs, |d|) && Complete(srcs, d)
    requires 0 <= i < |d| + 2
    ensures |Layout(d)| == |d| + 2
    ensures i < |d| ==> Cursors(Layout(d), srcs)[i + 1] == Layout(d)[i + 2]
    ensures Cursors(Layout(d), srcs)[i] == if i <= |d| then Sum(d[..i]) else Sum(d)
  {
    LayoutAt(d, i);
    CursorsAt(Layout(d), srcs, i);
    if i < |d| {
      RangeWidth(d, i);
      CursorsAt(Layout(d), srcs, i + 1);
    }
    if 0 < i <= |d| {
      assert d[..i][..i - 1] == d[..i - 1];
    } else if i == 0 {
      assert d[..0] == [];
    } else {
      assert Count(srcs, |d|) == 0 by {
        if Count(srcs, |d|) > 0 {
          var k := Occurrence(srcs, |d|, 0);
        }
      }
      assert d[..|d|] == d;
    }
  }

  /** After complete insertion, vertex s's range starts where the prefix sum put it. */
  lemma {:induction false} RangeStart(d: seq<int>, srcs: seq<int>, s: int)
    requires SourcesIn(srcs, |d|) && Complete(srcs, d)
    requires 0 <= s < |d|
    ensures Cursors(Layout(d), srcs)[s] == Layout(d)[s + 1]
  {
    FinalOffsets(d, srcs, s);
    LayoutAt(d, s + 1);
    if s > 0 {
      assert d[..s][..s - 1] == d[..s - 1];
    } else {
      assert d[..0] == [];
    }
  }

  /** The j-th slot of vertex s's range holds the value of the j-th row of source s. */
  lemma {:induction false} RangeSlot<T>(d: seq<int>, srcs: seq<int>, vals: seq<T>, a: seq<T>, s: int, j: int)
    requires SourcesIn(srcs, |d|) && Complete(srcs, d)
    requires |vals| == |srcs| && Sum(d) <= |a|
    requires 0 <= s < |d| && 0 <= j < d[s]
    ensures 0 <= Layout(d)[s + 1] + j < |a|
    ensures Scatter(a, ClaimedSlots(Layout(d), srcs), vals)[Layout(d)[s + 1] + j]
         == Select(srcs, vals, s)[j]
  {
    var slots := ClaimedSlots(Layout(d), srcs);
    forall i1, i2 | 0 <= i1 < i2 < |slots|
      ensures slots[i1] != slots[i2]
    {
      ClaimsDistinct(d, srcs, i1, i2);
    }
    var k := Occurrence(srcs, s, j);
    ClaimedSlotAt(Layout(d), srcs, k);
    ClaimedSlotInRange(d, srcs, k);
    ScatterAt(a, slots, vals, k);
    SelectAt(srcs, vals, k);
  }

  /** Once every source has been inserted exactly its degree times, vertex s's range of the
      array written through the claimed slots holds exactly the values of the rows whose
      source is s, in the order the rows were processed. */
  lemma {:induction false} RangeHoldsSource<T>(d: seq<int>, srcs: seq<int>, vals: seq<T>, a: seq<T>, s: int)
    requires SourcesIn(srcs, |d|) && Complete(srcs, d)
    requires |vals| == |srcs| && Sum(d) <= |a|
    requires 0 <= s < |d|
    ensures var c := Cursors(Layout(d), srcs);
      0 <= c[s] <= c[s + 1] <= |a| &&
      Scatter(a, ClaimedSlots(Layout(d), srcs), vals)[c[s]..c[s + 1]] == Select(srcs, vals, s)
  {
    var c := Cursors(Layout(d), srcs);
    var r := Scatter(a, ClaimedSlots(Layout(d), srcs), vals);
    var sel := Select(srcs, vals, s);
    RangeStart(d, srcs, s);
    FinalOffsets(d, srcs, s);
    RangeWidth(d, s);
    LayoutMonotone(d, s + 1, s + 2);
    LayoutMonotone(d, s + 2, |d| + 1);
    forall j | 0 <= j < d[s]
      ensures r[c[s] + j] == sel[j]
    {
      RangeSlot(d, srcs, vals, a, s, j);
    }
  }

  /** The prefix sum on degrees [2, 1] and [2, 1, 0]: the padded offsets [0, 0, 2, 1] become
      [0, 0, 2, 3], and [0, 0, 2, 1, 0] become [0, 0, 2, 3, 3]. */
  lemma ExampleLayout()
    ensures RunningSum([0, 0, 2, 1]) == Layout([2, 1]) == [0, 0, 2, 3]
    ensures RunningSum([0, 0, 2, 1, 0]) == Layout([2, 1, 0]) == [0, 0, 2, 3, 3]
  {
    var padded := [0, 0, 2, 1, 0];
    assert [0, 0] + [2, 1, 0] == padded && [0, 0] + [2, 1] == [0, 0, 2, 1];
    assert RunningSum(padded[..1]) == [0] by {
      assert padded[..1] == [0] && [0][..0] == [];
    }
    RunningSumSnoc(padded, 1);
    RunningSumSnoc(padded, 2);
    RunningSumSnoc(padded, 3);
    assert padded[..4] == [0, 0, 2, 1] && RunningSum(padded[..4]) == [0, 0, 2, 3];
    RunningSumSnoc(padded, 4);
    assert padded[..5] == padded;
  }

  /** The row with source 0, on any layout v: cursor 1 moves on by one and the row claims
      v[1]. */
  lemma {:induction false} CursorsZero(v: seq<int>)
    requires |v| >= 4
    ensures SourcesIn([0], |v| - 2)
    ensures Cursors(v, [0]) == v[1 := v[1] + 1]
    ensures ClaimedSlots(v, [0]) == [v[1]]
  {
    assert Cursors(v, []) == v && ClaimedSlots(v, []) == [];
    CursorsAppend(v, [], 0);
    assert [] + [0] == [0];
  }

  /** The rows with sources 0 and 0, on any layout v: cursor 1 moves on by two, and the
      rows claim v[1] and v[1] + 1. */
  lemma {:induction false} CursorsZeroZero(v: seq<int>)
    requires |v| >= 4
    ensures SourcesIn([0, 0], |v| - 2)
    ensures Cursors(v, [0, 0]) == v[1 := v[1] + 2]
    ensures ClaimedSlots(v, [0, 0]) == [v[1], v[1] + 1]
  {
    CursorsZero(v);
    CursorsAppend(v, [0], 0);
    assert [0] + [0] == [0, 0];
    assert v[1 := v[1] + 1][1 := v[1] + 2] == v[1 := v[1] + 2];
  }

  /** The rows with sources 0, 0 and 1, on any layout v: cursor 1 moves on by two and
      cursor 2 by one, and the rows claim v[1], v[1] + 1 and v[2]. */
  lemma {:induction false} CursorsZeroZeroOne(v: seq<int>)
    requires |v| >= 4
    ensures SourcesIn([0, 0, 1], |v| - 2)
    ensures Cursors(v, [0, 0, 1]) == v[1 := v[1] + 2][2 := v[2] + 1]
    ensures ClaimedSlots(v, [0, 0, 1]) == [v[1], v[1] + 1, v[2]]
  {
    CursorsZeroZero(v);
    CursorsAppend(v, [0, 0], 1);
    assert [0, 0] + [1] == [0, 0, 1];
  }

  /** Inserting rows with sources 0, 0 and 1 claims slots 0, 1 and 2 on both layouts, and
      moves the cursors to [0, 2, 3, 3] and [0, 2, 3, 3, 3], the header's form. */
  lemma ExampleCursors()
    ensures SourcesIn([0, 0, 1], 2) && SourcesIn([0, 0, 1], 3)
    ensures Cursors([0, 0, 2, 3], [0, 0, 1]) == [0, 2, 3, 3]
    ensures ClaimedSlots([0, 0, 2, 3], [0, 0, 1]) == [0, 1, 2]
    ensures Cursors([0, 0, 2, 3, 3], [0, 0, 1]) == [0, 2, 3, 3, 3]
    ensures ClaimedSlots([0, 0, 2, 3, 3], [0, 0, 1]) == [0, 1, 2]
  {
    CursorsZeroZeroOne([0, 0, 2, 3]);
    CursorsZeroZeroOne([0, 0, 2, 3, 3]);
  }

  /** Writing three values through slots 0, 1 and 2 of three zeros gives those values. */
  lemma {:induction false} ScatterInOrder(x: int, y: int, z: int)
    ensures Scatter(Zeros(3), [0, 1, 2], [x, y, z]) == [x, y, z]
  {
    assert [0, 1, 2][..2] == [0, 1] && [0, 1][..1] == [0] && [0][..0] == [];
    assert [x, y, z][..2] == [x, y] && [x, y][..1] == [x] && [x][..0] == [];
    assert Zeros(3) == [0, 0, 0];
    assert Scatter(Zeros(3), [0], [x]) == [x, 0, 0];
    assert Scatter(Zeros(3), [0, 1], [x, y]) == [x, y, 0];
  }

  /** The trace written beside the edge-row lambda: edges (1 -> 2), (1 -> 3) and (2 -> 3)
      over the two vertices numbered 1 and 2, which index the offsets as 0 and 1. Their
      degrees [2, 1] give the offsets [0, 0, 2, 3] after the prefix sum; the three inserts
      increment v[1], v[1] and v[2], claim slots 0, 1 and 2, and leave v at [0, 2, 3, 3]
      (not at [0, 0, 2, 3], the final value the trace states), with e = [2, 3, 3]. */
  lemma TwoVertexExample()
    ensures RunningSum([0, 0, 2, 1]) == Layout([2, 1]) == [0, 0, 2, 3]
    ensures SourcesIn([0, 0, 1], 2)
    ensures Cursors(Layout([2, 1]), [0, 0, 1]) == [0, 2, 3, 3]
    ensures ClaimedSlots(Layout([2, 1]), [0, 0, 1]) == [0, 1, 2]
    ensures Scatter(Zeros(3), ClaimedSlots(Layout([2, 1]), [0, 0, 1]), [2, 3, 3]) == [2, 3, 3]
  {
    ExampleLayout();
    ExampleCursors();
    ScatterInOrder(2, 3, 3);
  }

  /** The whole build on degrees [2, 1, 0]: offsets [0, 0, 2, 1, 0] become [0, 0, 2, 3, 3]
      after the prefix sum and [0, 2, 3, 3, 3] after the inserts (0 -> 1), (0 -> 2) and
      (1 -> 2), and e is [1, 2, 2]. */
  lemma ThreeVertexExample()
    ensures RunningSum([0, 0, 2, 1, 0]) == Layout([2, 1, 0]) == [0, 0, 2, 3, 3]
    ensures SourcesIn([0, 0, 1], 3)
    ensures Cursors(Layout([2, 1, 0]), [0, 0, 1]) == [0, 2, 3, 3, 3]
    ensures Scatter(Zeros(3), ClaimedSlots(Layout([2, 1, 0]), [0, 0, 1]), [1, 2, 2]) == [1, 2, 2]
  {
    ExampleLayout();
    ExampleCursors();
    ScatterInOrder(1, 2, 2);
  }
}
