# CSR builder of the DuckPGQ extension

This project models how DuckPGQ builds the compressed sparse row (CSR) form of a property
graph's edge tables. DuckPGQ does this in three phases, each run once per CSR id and guarded
by an `initialized_*` flag, and the model proves what each phase leaves behind.

- **Vertex phase.** `CsrInitializeVertex` allocates the offset array `v` with `v_size + 2`
  zero entries. Each degree row `(src, cnt)` of `create_csr_vertex` then stores `cnt` at
  `v[src + 2]`.
- **Edge phase.** `CsrInitializeEdge` sizes `e` and `edge_ids` to `e_size` zeros. It then
  turns `v` into its inclusive running sum in place. Each edge row of `create_csr_edge`
  claims a slot with `pos = ++v[src + 1]` and writes its destination and edge id, plus a
  weight if the batch has one, at `pos - 1`.
- **Weight phase.** `CsrInitializeWeight` sizes exactly one of `w` (BIGINT weights) or
  `w_double` (DOUBLE weights).

The registry of the session state is a class `DuckPgqState`. It holds `csrList`, a map from
ids to CSR objects, and `csrToDelete`, the ids whose edge count failed validation.

The CSR record is a class whose methods update it in place. It carries three ghost fields:

- `degrees`, the degrees the edge phase found in `v[2..]`;
- `inserted`, the edge rows processed since then;
- `weightLog`, the weight each of those rows carried (none, BIGINT or DOUBLE).

Its invariant `Valid()` ties `v`, `e` and `edgeIds` to pure functions of the first two fields,
defined in module `CsrLayout`. It ties `w` and `w_double` to the weight history through
`WeightsFit`:

- `Layout(d)` is the running sum of the padded degrees.
- `Cursors(Layout(d), srcs)` is the offsets after the rows with sources `srcs` have claimed
  their slots.
- `Scatter(zeros, ClaimedSlots(...), values)` is the edge arrays after those claims.
- Each weight vector that holds every edge is the scatter of the weights its rows carried.
  Before the weight phase, no row carries a weight.

The lemmas about these functions carry the correctness argument:

- the prefix sum puts vertex `s`'s range at `[v[s + 1], v[s + 2])` and gives it width `d[s]`;
- every claim lands in its source's range;
- no two rows claim the same slot;
- once every vertex has received exactly its degree in edges, each cursor has reached the
  next vertex's boundary. At that point the offsets take the form the header describes: vertex
  `i`'s edges are `e[v[i]] .. e[v[i + 1] - 1]`, in insertion order.

The header describes that range (`compressed_sparse_row.hpp:32`), but it holds only after all
inserts. Right after the prefix sum, vertex `s`'s range is `v[s + 1] .. v[s + 2] - 1`.
`FinishedAdjacency` states the finished form and `LayoutAt` the earlier one.

The comment at `csr_creation.cpp:181-201` traces a build of the edges (1→2), (1→3) and (2→3).
`TwoVertexExample` proves that build, with vertices 1 and 2 numbered 0 and 1:

1. The degrees `[2, 1]` give the offsets `[0, 0, 2, 3]` after the prefix sum.
2. The three inserts claim slots 0, 1 and 2 and leave `e = [2, 3, 3]`, as the comment says.
3. They leave `v = [0, 2, 3, 3]`. The comment's final `v = [0, 0, 2, 3]` is the value before
   the inserts: it leaves out the three increments.

`ThreeVertexExample` is the same build on a different input: degrees `[2, 1, 0]` and the edges
(0→1), (0→2) and (1→2). The padded offsets `[0, 0, 2, 1, 0]` become `[0, 0, 2, 3, 3]` after
the prefix sum, and the inserts leave `v = [0, 2, 3, 3, 3]` and `e = [1, 2, 2]`.

Rows are processed one after another. The atomic `++` in the source is modelled as read, add
one, write.

Files:

- `csr_layout.dfy` (module `CsrLayout`): row datatypes, the pure offset, cursor and scatter
  functions, and the lemmas about them.
- `csr.dfy` (module `CompressedSparseRow`): the `CSR` class, its invariant and its per-row
  methods.
- `duckpgq_state.dfy` (module `PgqState`): the CSR registry.
- `csr_creation.dfy` (module `CsrCreation`): the three initializers, the vertex and edge
  scalar functions, and their executor loops.

## Model

| member | source | states |
|---|---|---|
| PgqState.DuckPgqState.constructor | src/include/duckpgq_state.hpp:12 | a new session state holds no CSR and marks no id for deletion |
| CompressedSparseRow.CSR.constructor | src/include/duckpgq/core/utils/compressed_sparse_row.hpp:27-43 | a new CSR has no offset array, vsize 0, empty e, edge_ids, w and w_double, all three flags false, and satisfies the invariant |
| CompressedSparseRow.CSR.SetDegree | src/core/functions/scalar/csr_creation.cpp:111-115 | a degree row sets v[src + 2] to cnt, changes no other offset, and returns cnt |
| CompressedSparseRow.CSR.ClaimEdge | src/core/functions/scalar/csr_creation.cpp:145-147 | pos is the old v[src + 1] plus one and lies in 1..e.Length; only v[src + 1] moves; only slot pos - 1 of e and edge_ids changes; the offset and edge invariant still holds with the row appended (the caller then records the row's weight) |
| CompressedSparseRow.CSR.InsertEdge | src/core/functions/scalar/csr_creation.cpp:144-148 | the unweighted edge row moves only v[src + 1], by one, writes dst and the edge id at the old cursor value, records that the row carried no weight, keeps the invariant (weights included), and returns 1 |
| CompressedSparseRow.CSR.InsertEdgeInt | src/core/functions/scalar/csr_creation.cpp:163-169 | as InsertEdge, and the weight goes to the same slot of w, which changes nowhere else, and joins the weight history |
| CompressedSparseRow.CSR.PutIntWeight | src/core/functions/scalar/csr_creation.cpp:168 | the store `w[pos - 1] = weight` changes that one slot of w and leaves the offset and edge invariant intact |
| CompressedSparseRow.CSR.InsertEdgeDouble | src/core/functions/scalar/csr_creation.cpp:180-206 | as InsertEdge, and the weight goes to the same slot of w_double, which changes nowhere else, and joins the weight history |
| CompressedSparseRow.CSR.PutDoubleWeight | src/core/functions/scalar/csr_creation.cpp:205 | the store `w_double[pos - 1] = weight` changes that one slot of w_double and leaves the offset and edge invariant intact |
| CompressedSparseRow.WeightsFitStep | src/core/functions/scalar/csr_creation.cpp:163-169 | one more row below its source's degree claims a slot in [0, e_size); writing its BIGINT or DOUBLE weight there (nothing for an unweighted row) keeps the weight vectors equal to the scatter of the extended weight history |
| CompressedSparseRow.NothingWeighted | src/core/functions/scalar/csr_creation.cpp:79-81 | rows that carried no weight leave both weight vectors at all zeros, whatever slots they claimed |
| CompressedSparseRow.WeightsArrive | src/core/functions/scalar/csr_creation.cpp:78-90 | while no row carries a weight, a weight vector replaced by e_size zeros still fits the rows inserted so far, now that rows may carry weights |
| CompressedSparseRow.WeightsFitNoRows | src/core/functions/scalar/csr_creation.cpp:51-67 | before any edge row, the weight history is empty and both weight vectors are all zeros, so the weight invariant holds for any degrees and edge count the edge phase sets |
| CompressedSparseRow.FinishedAdjacency | src/include/duckpgq/core/utils/compressed_sparse_row.hpp:32-35 | once every vertex has received exactly its degree in edges, v[s] is the number of edges of the vertices before s, v[vertex count] is the total, and e[v[s]..v[s+1]] and edge_ids[v[s]..v[s+1]] hold the targets and edge ids of the rows with source s, in insertion order; a weight vector holding every edge carries those rows' weights over the same range |
| CsrCreation.InitializeVertex | src/core/functions/scalar/csr_creation.cpp:14-41 | if the id already maps to a CSR with an offset array, the registry is unchanged; otherwise only the id is rebound, to a fresh valid CSR whose v and (empty) e, edge_ids, w and w_double are all fresh arrays, v holding v_size + 2 zeros, with vsize = v_size + 2, initialized_v set and the other flags clear |
| CsrCreation.ZeroOffsets | src/core/functions/scalar/csr_creation.cpp:29-34 | the allocation and zero-fill loop yield a fresh array of n zeros |
| CsrCreation.InitializeEdge | src/core/functions/scalar/csr_creation.cpp:44-68 | if the edge phase already ran, nothing changes (so a second call is a no-op, and v_size need not match); otherwise, with v_size + 2 equal to the allocated offset count, e and edge_ids become fresh e_size zeros, v becomes the running sum of its old contents, the degrees recorded are old v[2..], and the invariant holds |
| CsrCreation.StartEdgePhase | src/core/functions/scalar/csr_creation.cpp:51-67 | on a CSR whose edge phase has not run: fresh zeroed edge arrays, v is the running sum of its old contents, initialized_e is set, and the build invariant holds with no row inserted |
| CsrCreation.AllocateEdges | src/core/functions/scalar/csr_creation.cpp:52-54 | e and edge_ids become fresh, distinct arrays of e_size zeros, sharing nothing with the weight vectors |
| CsrCreation.ZeroArray | src/core/functions/scalar/csr_creation.cpp:53 | `resize(n, 0)` of an empty vector yields a fresh array of n zeros |
| CsrCreation.EdgePhaseStarted | src/core/functions/scalar/csr_creation.cpp:59-67 | right after the prefix sum of padded degrees with zeroed edge arrays and nothing inserted, the offset invariant and the build invariant hold |
| CsrCreation.RunningSumInPlace | src/core/functions/scalar/csr_creation.cpp:60-66 | the loop `v[i] += v[i - 1]` leaves v equal to the inclusive running sum of its old contents |
| CsrCreation.InitializeWeight | src/core/functions/scalar/csr_creation.cpp:70-91 | if initialized_w is set, it returns Ok and nothing changes; otherwise INT64 gives a fresh w of e_size zeros, DOUBLE a fresh w_double of e_size zeros, each leaving the other vector alone and returning Ok, and any other type fails with NotImplemented and leaves initialized_w false and both vectors as they were; the invariant, including "at most one weight vector allocated" and the weight invariant, is kept |
| CsrCreation.AllocateWeights | src/core/functions/scalar/csr_creation.cpp:78-90 | the resize of the vector of the weight type to e_size zeros (fresh), the other vector kept, initialized_w set, and the invariant, weights included, kept |
| CsrCreation.CreateCsrVertex | src/core/functions/scalar/csr_creation.cpp:93-117 | the vertex phase is run if needed: a fresh CSR with fresh arrays, v of input_size + 2 zeros, vsize = input_size + 2, initialized_w clear and e, w and w_double empty; an existing CSR keeps its vsize. Then v is the old (or zero) offsets with every degree row applied in order; the results are the rows' degrees; only this id's entry changes |
| CsrCreation.ApplyDegreeRows | src/core/functions/scalar/csr_creation.cpp:110-116 | the executor loop leaves v equal to WriteDegrees of its old contents and returns each row's degree |
| CsrCreation.CreateCsrEdge | src/core/functions/scalar/csr_creation.cpp:120-208 | if edge_size differs from edge_size_count: ConstraintViolation, the id is added to csr_to_delete, and the CSR object and the contents of its v, e, edge_ids, w and w_double are unchanged; otherwise csr_to_delete is unchanged, the edge phase has run, v is the same array, the batch is appended to the inserted rows (which by the invariant fixes v, e and edge_ids), its weights are appended to the weight history, the weight vector of its type and the results are as BatchWritten says, and the other weight state is kept (WeightsKept: an unweighted batch touches no weight flag, vector or content; a BIGINT batch keeps w_double; a DOUBLE batch keeps w); e and edge_ids are the old arrays when the edge phase had run and fresh ones when this batch ran it, and w and w_double are each the old array or a fresh one, so a later batch writes into the same vectors |
| CsrCreation.InsertBatch | src/core/functions/scalar/csr_creation.cpp:136-207 | after a matching edge count: the edge phase is run if it has not been, then every row is inserted; the degrees are old v[2..] on the first batch and unchanged after it; the weight history, weight vectors and kept weight state are as in CreateCsrEdge; e and edge_ids are the old arrays or, on the first batch, fresh ones, and each weight vector is the old array or a fresh one |
| CsrCreation.EnsureEdgePhase | src/core/functions/scalar/csr_creation.cpp:137-140 | the edge phase is run unless it already has: the invariant holds with the edge phase done and e_size edge slots; the inserted rows and degrees are the old ones, or none and old v[2..] when it just ran; e and edge_ids are the old arrays or fresh ones accordingly; the batch's sources are vertices and, with the rows inserted so far, within the degrees |
| CsrCreation.FillEdges | src/core/functions/scalar/csr_creation.cpp:141-207 | dispatch on the weight column: unweighted rows return 1 each and touch no weight state; BIGINT rows write w, keep w_double and return each weight wrapped to 32 bits; DOUBLE rows write w_double and keep w; every weight lands at the slot its row claimed and joins the weight history; each weight vector is the old array or a fresh one |
| CsrCreation.InsertUnweightedRows | src/core/functions/scalar/csr_creation.cpp:141-150 | the executor loop appends the batch to the inserted rows and a "no weight" per row to the weight history, keeps the invariant and both weight vectors, and returns a 1 per row |
| CsrCreation.InsertUnweightedRow | src/core/functions/scalar/csr_creation.cpp:144-148 | one unweighted row advances the loop state by one row and yields 1 |
| CsrCreation.PrepareInt64Weights | src/core/functions/scalar/csr_creation.cpp:152-155 | after the weight guard of the BIGINT path, w is sized and holds its old contents, or e_size zeros when it was just allocated; w_double is unchanged |
| CsrCreation.PrepareDoubleWeights | src/core/functions/scalar/csr_creation.cpp:152-155 | after the weight guard of the DOUBLE path, w_double is sized and holds its old contents, or e_size zeros when it was just allocated; w is unchanged |
| CsrCreation.FillInt64 | src/core/functions/scalar/csr_creation.cpp:152-171 | BIGINT path: w is Scatter of its old contents (or zeros) through the batch's claimed slots; results are the weights wrapped to 32 bits; w_double unchanged; w is the old array or a fresh one |
| CsrCreation.InsertInt64Rows | src/core/functions/scalar/csr_creation.cpp:156-171 | the INT64 executor loop appends the batch and its weights to the weight history, writes each weight at its row's slot of w, keeps w_double, and returns Int32 of each weight |
| CsrCreation.InsertInt64Row | src/core/functions/scalar/csr_creation.cpp:163-169 | one INT64 row advances the loop state and adds its weight at its claimed slot |
| CsrCreation.FillDouble | src/core/functions/scalar/csr_creation.cpp:174-207 | DOUBLE path: w_double is Scatter of its old contents (or zeros) through the batch's claimed slots; w unchanged; w_double is the old array or a fresh one |
| CsrCreation.InsertDoubleRows | src/core/functions/scalar/csr_creation.cpp:174-207 | the DOUBLE executor loop appends the batch and its weights to the weight history, writes each weight at its row's slot of w_double, and keeps w |
| CsrCreation.InsertDoubleRow | src/core/functions/scalar/csr_creation.cpp:180-206 | one DOUBLE row advances the loop state and adds its weight at its claimed slot |
| CsrCreation.RowsStart | src/core/functions/scalar/csr_creation.cpp:141-144 | an edge loop starts from a valid CSR with none of the batch inserted and the whole batch within the degrees |
| CsrCreation.RowFits | src/core/functions/scalar/csr_creation.cpp:145-147 | before row k of a batch that fits the degrees, its source is below its degree, its claim lies in [0, total degree), and the scattered array gains that row's value exactly there |
| CsrCreation.Int32Wraps | src/core/functions/scalar/csr_creation.cpp:157-169 | the INTEGER result of a BIGINT row is a 32-bit value congruent to the weight modulo 2^32 |
| CsrCreation.Int32Fits | src/core/functions/scalar/csr_creation.cpp:157-169 | a weight that fits in 32 bits is returned unchanged |
| CsrLayout.WriteDegreesHit | src/core/functions/scalar/csr_creation.cpp:113 | with distinct sources, each degree row's cnt ends up at v[src + 2] |
| CsrLayout.WriteDegreesMiss | src/core/functions/scalar/csr_creation.cpp:113 | an offset that no degree row targets keeps its value |
| CsrLayout.RunningSumAt | src/core/functions/scalar/csr_creation.cpp:60-66 | after the left-to-right scan, entry i is the sum of old entries 0..i |
| CsrLayout.RunningSumSnoc | src/core/functions/scalar/csr_creation.cpp:65 | one step of the scan appends the previous total plus the next entry |
| CsrLayout.SumPadded | src/core/functions/scalar/csr_creation.cpp:29-34 | the two zero pads add nothing to a prefix sum |
| CsrLayout.LayoutAt | src/core/functions/scalar/csr_creation.cpp:60-66 | after the prefix sum of degrees written at v[s + 2], v[0] = 0 and v[i] = sum of d[0..i-2], so v[s + 1] = sum d[0..s-1] and v[s + 2] = sum d[0..s] |
| CsrLayout.RangeWidth | src/core/functions/scalar/csr_creation.cpp:60-66 | vertex s's range [v[s + 1], v[s + 2]) has width d[s] |
| CsrLayout.SumNonDecreasing | src/core/functions/scalar/csr_creation.cpp:60-66 | with non-negative degrees, prefix sums are non-negative and non-decreasing |
| CsrLayout.LayoutMonotone | src/core/functions/scalar/csr_creation.cpp:60-66 | with non-negative degrees the offsets after the prefix sum are non-negative, non-decreasing, and at most the total degree |
| CsrLayout.CursorsAt | src/core/functions/scalar/csr_creation.cpp:145 | each offset has moved by exactly the number of rows whose source it tracks; v[0] never moves |
| CsrLayout.ClaimedSlotAt | src/core/functions/scalar/csr_creation.cpp:145-147 | row k claims its source's start offset plus the number of earlier rows of that source |
| CsrLayout.CountBefore | src/core/functions/scalar/csr_creation.cpp:145 | rows of a source before row k are fewer than all rows of that source |
| CsrLayout.ClaimInRange | src/core/functions/scalar/csr_creation.cpp:145-147 | a claim by s while s is below its degree lands in [v[s + 1], v[s + 2]) and in [0, total degree) |
| CsrLayout.ClaimedSlotInRange | src/core/functions/scalar/csr_creation.cpp:145-147 | every claimed slot lies in its source's range and in [0, total degree) |
| CsrLayout.SameSourceClaimsDistinct | src/core/functions/scalar/csr_creation.cpp:145-147 | successive rows of one source claim strictly increasing slots |
| CsrLayout.OtherSourceClaimsOrdered | src/core/functions/scalar/csr_creation.cpp:145-147 | the ranges of different sources are disjoint and laid out in vertex order |
| CsrLayout.ClaimsDistinct | src/core/functions/scalar/csr_creation.cpp:145-147 | no two rows claim the same slot |
| CsrLayout.ClaimStep | src/core/functions/scalar/csr_creation.cpp:145 | one more row of s below its degree keeps every source within its degree, moves only cursor s + 1 by one, and claims its old value, which lies in [0, total degree) |
| CsrLayout.CursorsAppend | src/core/functions/scalar/csr_creation.cpp:145 | appending a row of s moves only cursor s + 1, by one, and claims its old value |
| CsrLayout.WithinDegreesStep | src/core/functions/scalar/csr_creation.cpp:145 | a row of s while s is below its degree keeps every source within its degree |
| CsrLayout.ClaimRow | src/core/functions/scalar/csr_creation.cpp:145-147 | the build invariant's step for one row: the cursor of its source is claimed and moves by one, and e and edge_ids gain the row's target and edge id at that slot only |
| CsrLayout.ClaimWrite | src/core/functions/scalar/csr_creation.cpp:146-147 | the slot a row below its degree claims lies in the array and was claimed by no earlier row, so it still holds its initial value, and writing a value there gives the scatter through the extended claims |
| CsrLayout.BatchRowFits | src/core/functions/scalar/csr_creation.cpp:141-147 | a batch that fits the degrees as a whole fits row by row |
| CsrLayout.BatchStep | src/core/functions/scalar/csr_creation.cpp:165-168 | one more row in a batch keeps it within the degrees, and the weight array written through the batch's claims gains that row's weight at its claimed slot only |
| CsrLayout.EmptyBuild | src/core/functions/scalar/csr_creation.cpp:53-66 | right after the prefix sum with no rows inserted, v is the cursor vector of the empty batch and the zeroed edge arrays are what scattering nothing gives |
| CsrLayout.ScatterAt | src/core/functions/scalar/csr_creation.cpp:146-147 | with pairwise distinct slots, slot k of the written array holds value k |
| CsrLayout.ScatterMiss | src/core/functions/scalar/csr_creation.cpp:146-147 | a slot no row claimed keeps its old value |
| CsrLayout.ScatterStep | src/core/functions/scalar/csr_creation.cpp:146-147 | writing one more value extends the scatter by a single-slot update |
| CsrLayout.SelectAt | src/include/duckpgq/core/utils/compressed_sparse_row.hpp:32-35 | row k is the j-th value of its source's row list, j counting earlier rows of that source |
| CsrLayout.Occurrence | src/include/duckpgq/core/utils/compressed_sparse_row.hpp:32-35 | the j-th row of source s exists for every j below the number of such rows |
| CsrLayout.FinalOffsets | src/core/functions/scalar/csr_creation.cpp:145-147 | once every source has been inserted exactly its degree times, cursor v[s + 1] equals the pre-insertion v[s + 2], and v[i] is the total degree of the vertices before i |
| CsrLayout.RangeStart | src/include/duckpgq/core/utils/compressed_sparse_row.hpp:32 | after complete insertion, v[s] equals the start that the prefix sum gave vertex s |
| CsrLayout.RangeSlot | src/include/duckpgq/core/utils/compressed_sparse_row.hpp:32-35 | after complete insertion, slot j of vertex s's range holds the j-th row of source s |
| CsrLayout.RangeHoldsSource | src/include/duckpgq/core/utils/compressed_sparse_row.hpp:32-35 | after complete insertion, array[v[s]..v[s + 1]] is exactly the values of the rows of source s, in row order |
| CsrLayout.ExampleLayout | src/core/functions/scalar/csr_creation.cpp:60-66 | degrees [2, 1]: padded offsets [0, 0, 2, 1] become [0, 0, 2, 3]; degrees [2, 1, 0]: [0, 0, 2, 1, 0] become [0, 0, 2, 3, 3] |
| CsrLayout.CursorsZero | src/core/functions/scalar/csr_creation.cpp:145-147 | a row of source 0 moves only v[1], by one, and claims the old v[1] |
| CsrLayout.CursorsZeroZero | src/core/functions/scalar/csr_creation.cpp:145-147 | two rows of source 0 move only v[1], by two, and claim v[1] and v[1] + 1 |
| CsrLayout.CursorsZeroZeroOne | src/core/functions/scalar/csr_creation.cpp:145-147 | rows of sources 0, 0 and 1 move v[1] by two and v[2] by one, and claim v[1], v[1] + 1 and v[2] |
| CsrLayout.ExampleCursors | src/core/functions/scalar/csr_creation.cpp:145-147 | inserting sources 0, 0, 1 on the layouts [0, 0, 2, 3] and [0, 0, 2, 3, 3] claims slots 0, 1, 2 and leaves v = [0, 2, 3, 3] and [0, 2, 3, 3, 3] |
| CsrLayout.ScatterInOrder | src/core/functions/scalar/csr_creation.cpp:146 | writing three values through slots 0, 1, 2 of three zeros gives exactly those values |
| CsrLayout.TwoVertexExample | src/core/functions/scalar/csr_creation.cpp:181-201 | the build the comment traces: degrees [2, 1] give [0, 0, 2, 3]; the inserts claim 0, 1, 2, give e = [2, 3, 3], and leave v = [0, 2, 3, 3], not the comment's [0, 0, 2, 3] |
| CsrLayout.ThreeVertexExample | src/core/functions/scalar/csr_creation.cpp:145-147 | the same build on other input, degrees [2, 1, 0] and targets [1, 2, 2]: offsets [0, 0, 2, 3, 3], then v = [0, 2, 3, 3, 3] and e = [1, 2, 2] |

## Left out

- Concurrency. The `csr_lock` mutex, the lock guards, the unlocked flag reads before each initializer call, and `std::atomic` semantics are not modelled. Rows run one after another in batch order, and `++v[src + 1]` is read, add one, write.
- Allocation failure (`std::bad_alloc` and the INTERNAL exception it becomes) is not modelled. The raw `new[]`/`delete[]` lifetime of `v` is not modelled either: `v` is an `array?<int>`, null until the vertex phase.
- Integer width. Offsets, degrees, ids and weights are unbounded integers, so int64 overflow of the offsets is not modelled. Two narrow types are not modelled either. The CSR id parameters are `int32_t` (`csr_creation.cpp:14,44,70`), and the model's ids are unbounded. The prefix-sum loop counter `auto i = 1` is a 32-bit `int` (`csr_creation.cpp:60`) compared against the int64 bound `v_size + 2`, so for `v_size >= 2^31 - 1` the source's `i++` overflows, which is undefined behaviour. `RunningSumInPlace` scans all of `v` for any size. The INTEGER result of a BIGINT-weighted row is modelled, as `Int32`, with 32-bit wrap-around.
- FillDouble: the INTEGER result of a DOUBLE-weighted row, a double-to-int32 conversion, is returned unconverted (`Unconverted(doubles)`), because `w_double` is an opaque bit pattern on which the model does no arithmetic.
- DuckDB plumbing is replaced by sequences of row tuples and plain parameters. This covers the Binary/Ternary/Quaternary executors, `GetValue(0)`, the bind data `CSRFunctionData`, and function-set registration (`csr_creation.cpp:210-256`).
- Registry deletion, `GetCSR` and `QueryEnd` are not part of this model. Their bodies are outside the files this model covers. `CsrInitializeVertex`, `CsrInitializeEdge`, `CsrInitializeWeight` and the two scalar functions never consult `csr_to_delete`, and the model adds no such check.
- A failed edge-count check does not remove the CSR from `csr_list`. The code only inserts the id into `csr_to_delete`, and the model does the same. Whatever later drops marked ids is not part of this model.
- The CTE and subquery builder declarations and `ToString` in the header are not modelled. Their bodies are outside the files this model covers.
- Preconditions the code assumes but does not check are `requires` clauses:
  - the entry exists when the edge or weight phase runs;
  - `v_size >= 0` and `e_size >= 0`;
  - every source is a vertex id below the vertex count the offsets were allocated for (`input_size` on the batch that allocates them);
  - the `vertex_size` given to the batch that runs the edge phase matches the allocation. Later batches pass it, but the code no longer reads it, so the model does not require it there. Likewise `input_size` is required only of the degree batch that allocates `v`.
  - the degrees are non-negative and sum to at most `e_size`;
  - no source receives more edges than its degree;
  - an existing weight vector has at least `e_size` entries.
- Phase order is a `requires` clause. Degree rows run before the edge phase, and edge rows after it.
- CreateCsrEdge: the weight column is BIGINT, DOUBLE or absent, as the three registered overloads allow. Another physical type reaches only `InitializeWeight`, which refuses it with NotImplemented. So the row path for "any other type writes `w_double`" is covered only for DOUBLE.
- CreateCsrVertex: the returned edge count is per row (`0 + cnt`), as in the code. The model does not sum the counts across rows.
