# Tropical-semiring BFS on a CSR graph

This project models the core of a breadth-first search that is computed as
repeated sparse matrix-vector products over the tropical (min-plus)
semiring. The graph is stored in compressed sparse row (CSR) form. The core
has four parts, all in `bfs/src/csr.cpp`:

- **Edge ingestion** (`read_csr_graph_from_file`, the record loop). It reads
  vertex-pair records and skips self-loops. Each pair is canonicalised to
  `(min, max)`. A pair equal to the last kept pair is skipped. Otherwise
  `max` is pushed onto `min`'s FIFO bucket and `min` onto `max`'s, and the
  counter grows by 2.
- **CSR assembly** (the tail of `read_csr_graph_from_file`). It drains the
  buckets vertex by vertex into `cols` and records the row offsets in `rows`.
- **Tropical SpMV** (`tropical_csr_mv_mult` and `tropical_iin_csr_mv_mult`).
  For each row `i` the product sets `y[i]` to the minimum of `y[i]` and
  `1 + x[c]` over the neighbours `c` of `i`, seeded with the sentinel
  `nverts`. There are two forms:
  - a scalar form with four strided accumulators;
  - an 8-lane AVX2 form with a signed horizontal reduction.
- **BFS drivers** (`csr_bfs`, `csr_bfs_iin`, `same`). The distance vector is
  seeded with `nverts` everywhere and 0 at the root. The product is then
  iterated until the vector stops changing.

Modules, one per file:

- `Uint32` (`uint32.dfy`): unsigned 32-bit words. It makes the source's
  integer behaviour explicit:
  - `Inc`: the wrapping `1 + x`;
  - `ToI32`/`ToU32`: the signed reinterpretation done by a lane extract and
    by the cast back.
- `EdgeIngest` (`ingest.dfy`): the record loop as a fold of `IngestStep`.
  Its partner is a reference definition: `KeptEdges` (the kept canonical
  edges) and `Incident` (what each vertex receives from them).
- `CsrGraph` (`csr.dfy`):
  - the `Csr` record and its validity predicate;
  - the assembly method `BuildCsr`;
  - `ReadCsrGraph`, which composes ingestion with assembly.
- `TropicalSpmv` (`spmv.dfy`):
  - the reference product `Relax` (row by row: `RowRelax`, a running minimum
    `MinOf`);
  - both implementations, each proved equal to `Relax`.
- `Bfs` (`bfs.dfy`):
  - hop-bounded reachability `ReachWithin`, the reference for distances:
    `v` reaches the root within `k` hops along stored row entries (on the
    symmetric graphs `ReadCsrGraph` builds, the same as the root reaching
    `v`);
  - `Same`;
  - both drivers, each proved to return exactly the hop distances to the
    root. It follows that both drivers return the same vector.

Every vector argument of the product and of the drivers has length
`nverts`, as at every call site in the source.

## Model

| member | source | states |
|---|---|---|
| Uint32.CastsRoundTrip | bfs/src/csr.cpp:103-121 | Reading a lane as signed `int` and casting back to `uint32_t` gives the same word, the other way round too, and both casts preserve the value modulo 2^32 |
| Uint32.SignedMinAgrees | bfs/src/csr.cpp:105-121 | For words below 2^31, the signed `std::min` of the extracted lanes, cast back, equals the unsigned minimum |
| EdgeIngest.Canon | bfs/src/csr.cpp:44-47 | The canonical pair is ordered (`min <= max`) and is the record itself or the record swapped |
| EdgeIngest.IngestStepEffect | bfs/src/csr.cpp:43-53 | A record changes the state exactly when it is not a self-loop and its canonical pair differs from the previous kept pair. A kept record appends `max` to bucket `min` and `min` to bucket `max`, adds 2 to the counter, becomes the previous pair, and leaves every other bucket unchanged |
| EdgeIngest.AddEdgeConsistent | bfs/src/csr.cpp:49-51 | Pushing both directions of an edge between distinct valid vertices keeps the counter equal to the total bucket size, keeps buckets loop-free and in range, and keeps them symmetric |
| EdgeIngest.IngestFromConsistent | bfs/src/csr.cpp:39-54 | From any state whose counter equals the total bucket size and whose buckets are loop-free, in range and symmetric, the record loop over any in-range record sequence ends in a state with the same four properties |
| EdgeIngest.IngestConsistent | bfs/src/csr.cpp:36-54 | From empty buckets, counter 0 and previous pair `(0, 0)`, ingestion ends in a state where the counter is the total bucket size, no bucket holds its own vertex, every entry is a vertex id, and `w` occurs in bucket `v` as often as `v` occurs in bucket `w` |
| EdgeIngest.IngestFromMatchesKept | bfs/src/csr.cpp:39-54 | Run from any state, the loop appends to each bucket exactly the neighbours that the edges kept by the reference filter give that vertex, in arrival order, and adds 2 to the counter per kept edge |
| EdgeIngest.KeptEdgesBuildBuckets | bfs/src/csr.cpp:36-54 | After ingestion the counter is twice the number of kept edges, and bucket `v` is `Incident(v, KeptEdges(records))` |
| EdgeIngest.DedupShape | bfs/src/csr.cpp:43-53 | There are at most as many kept edges as records. Each kept edge has `min < max`. No two consecutive kept edges are equal, and the first one differs from the initial previous pair |
| EdgeIngest.DedupCovers | bfs/src/csr.cpp:43-48 | Every kept edge is the canonical form of some record that is not a self-loop. Conversely, every such record's canonical form is kept or equals the initial previous pair |
| EdgeIngest.DedupAppend | bfs/src/csr.cpp:38-54 | Filtering a concatenation equals filtering the first part, then the second part resumed from the pair the first part left in `prev_min`/`prev_max` |
| EdgeIngest.NonAdjacentDuplicatesKept | bfs/src/csr.cpp:43-53 | Only adjacent duplicates are dropped: two records with the same canonical pair, separated by a record that is not a self-loop with a different pair, both reach the buckets, so that pair is kept at least twice |
| EdgeIngest.FirstRealEdgeKept | bfs/src/csr.cpp:38-48 | The initial previous pair `(0, 0)` never suppresses a record: the first record that is not a self-loop is the first kept edge |
| EdgeIngest.IncidentSymmetric | bfs/src/csr.cpp:49-50 | For any edge list, `w` occurs among `v`'s received neighbours as often as `v` among `w`'s |
| EdgeIngest.IncidentNoSelf | bfs/src/csr.cpp:43-50 | A list of edges without self-loops never gives a vertex itself as a neighbour |
| CsrGraph.DrainBucket | bfs/src/csr.cpp:63-66 | Draining a FIFO bucket appends its entries, front first, to the end of the column array, and the cursor ends at the new length |
| CsrGraph.FlattenRow | bfs/src/csr.cpp:61-68 | In the concatenated buckets, the slice between the running sizes before `v` and before `v + 1` is bucket `v` |
| CsrGraph.AssembledIsValid | bfs/src/csr.cpp:56-68 | Offsets equal to the running bucket sizes, over the concatenated buckets, form a valid CSR graph whose row `v` is bucket `v` |
| CsrGraph.BuildCsr | bfs/src/csr.cpp:56-68 | Assembly yields a valid CSR graph with the given `nverts` and `nedges`: `nverts + 1` non-decreasing offsets from 0 to `nedges`, and `nedges` in-range columns. Row `v` is bucket `v` in FIFO order |
| CsrGraph.ReadCsrGraph | bfs/src/csr.cpp:36-68 | From the record stream, the graph is valid. `nedges` is twice the number of kept edges. Row `v` lists the kept edges' other endpoints at `v` in arrival order, holds no self-loop, and has `w` as often as row `w` has `v` |
| TropicalSpmv.MinOfLeast | bfs/src/csr.cpp:131-143 | The running minimum of an accumulator seeded with `init` over a sequence of terms is below the seed and every term, and equals one of them |
| TropicalSpmv.RowRelaxLeast | bfs/src/csr.cpp:130-143 | The new `y[i]` is at most the old `y[i]`, at most `nverts`, and at most `1 + x[c]` (wrapping) for every stored neighbour `c` of `i`. It equals one of these values |
| TropicalSpmv.RelaxLowers | bfs/src/csr.cpp:128-145 | The product has one entry per vertex, and each entry is the least of the old value, the sentinel and the row's terms |
| TropicalSpmv.FourStep | bfs/src/csr.cpp:133-139 | One pass of the four strided accumulators keeps their combined minimum equal to the running minimum over the row's terms seen so far |
| TropicalSpmv.ScalarBlocks | bfs/src/csr.cpp:131-139 | After the block loop, `j` stops within 3 entries of the row's end, and the combined minimum of `tmp0..tmp3` is the running minimum (seeded with `nverts`) of the row's terms before `j` |
| TropicalSpmv.CleanUp | bfs/src/csr.cpp:122-124 | The tail loop, started from the reduced value at any `j` in the row, ends at the reference `RowRelax` value |
| TropicalSpmv.ScalarRow | bfs/src/csr.cpp:130-143 | One row of the scalar product yields exactly the reference row value |
| TropicalSpmv.TropicalCsrMvMult | bfs/src/csr.cpp:128-145 | The scalar product equals the reference product `Relax` |
| TropicalSpmv.Min8Pointwise | bfs/src/csr.cpp:100 | The minimum over the lanes of a lane-wise minimum is the minimum of the two registers' minima |
| TropicalSpmv.MinOfBlock | bfs/src/csr.cpp:98-101 | Folding a loaded block (in reversed lane order) into the running minimum is the same as extending the running minimum over its eight terms |
| TropicalSpmv.IinBlocks | bfs/src/csr.cpp:96-101 | After the 8-wide block loop, `j` stops within 7 entries of the row's end, every lane is at most `nverts`, and the minimum over the lanes is the running minimum (seeded with `nverts`) of the row's terms before `j` |
| TropicalSpmv.ReduceLanesUnsigned | bfs/src/csr.cpp:103-121 | If every lane is below 2^31, the reduction (signed trees of four lanes, cast back, unsigned minimum) is the unsigned minimum of all eight lanes |
| TropicalSpmv.SignedPairs | bfs/src/csr.cpp:104-121 | A signed `std::min` tree over four lanes below 2^31, cast back to `uint32_t`, is the unsigned minimum of the four |
| TropicalSpmv.ReduceLanesNeedsBound | bfs/src/csr.cpp:103-121 | The bound is needed: with lanes `[2^31, 5, 5, 5, 2^31, 5, 5, 5]` the reduction yields 2^31, not 5 |
| TropicalSpmv.IinRow | bfs/src/csr.cpp:94-125 | When `nverts < 2^31`, one row of the 8-lane product yields exactly the reference row value |
| TropicalSpmv.TropicalIinCsrMvMult | bfs/src/csr.cpp:93-126 | When `nverts < 2^31`, the 8-lane product equals the reference product, and so the scalar one |
| Bfs.Same | bfs/src/csr.cpp:85-91 | `same(d1, d2)` holds exactly when `d1` equals the first `|d1|` entries of `d2`; on equal lengths, exactly when the vectors are equal |
| Bfs.SumBelow | bfs/src/csr.cpp:164-167 | An entrywise lower-or-equal vector has a lower-or-equal sum, and a strictly smaller one when it differs |
| Bfs.StartSound | bfs/src/csr.cpp:160-162 | The seed vector (0 at the root, `nverts` elsewhere) is sound: every entry below `nverts` is backed by a walk of at most that many hops from that vertex to the root |
| Bfs.LoweredReach | bfs/src/csr.cpp:165-166 | Starting from a sound vector, if the product's entry `v` is below `nverts`, `v` reaches the root by a walk of at most that many hops along stored row entries |
| Bfs.Round | bfs/src/csr.cpp:164-167 | One round keeps the vector sound. A round that changes the vector strictly lowers its sum, so the loop terminates |
| Bfs.FixpointClosed | bfs/src/csr.cpp:164-168 | At a fixpoint of the product, no edge can lower an entry: `d[v] <= 1 + d[c]` for every neighbour `c` of `v` |
| Bfs.ClosedComplete | bfs/src/csr.cpp:164-168 | In a closed vector with root 0, every vertex that reaches the root within `k` hops has entry at most `k` |
| Bfs.FixpointIsDistances | bfs/src/csr.cpp:164-168 | A sound fixpoint is the hop-distance vector: for `k < nverts`, `d[v] <= k` exactly when `v` reaches the root within `k` hops along stored row entries; unreached vertices keep `nverts` |
| Bfs.DistancesUnique | bfs/src/csr.cpp:147-169 | At most one vector satisfies the hop-distance characterisation |
| Bfs.CsrBfs | bfs/src/csr.cpp:159-169 | An out-of-range root gives all `nverts`. Otherwise the result is the hop-distance vector to the root and a fixpoint of the product |
| Bfs.CsrBfsIin | bfs/src/csr.cpp:147-157 | The same for the 8-lane driver, when `nverts < 2^31` |
| Bfs.BfsAgree | bfs/src/csr.cpp:147-169 | Any two vectors meeting the drivers' postconditions for the same graph and root are equal, so both drivers return the same distances |

## Left out

- Opening the input file, parsing `SCALE` and `EDGEFACTOR` from its name
  (`bfs/src/csr.cpp:14-35`), the `fread` of each record (line 40) and
  `fclose` (line 55). These are I/O. The model takes the records as a
  sequence, with `nverts` given directly.
- `delete_csr` (`bfs/src/csr.cpp:71-74`): memory release, with no
  observable result in a value model.
- The printing routines (`bfs/src/csr.cpp:76-83`, `171-175`): output only.
- `bfs/src/main.cpp` is not part of this model. It holds the driver
  program, timing and output.
- Undefined behaviour on out-of-range input. The source indexes `edges[min]`
  without checking, so `InRange` requires both ids of every record that is
  not a self-loop to be below `nverts`.
- CsrGraph.ReadCsrGraph: requires twice the number of kept edges to be
  below 2^32. The source's `uint32_t` counter (modelled as an unbounded
  `nat` during ingestion) would wrap past that, and the graph built from a
  wrapped counter is not described.
- `CsrGraph.BuildCsr`, `CsrGraph.ReadCsrGraph`, `Bfs.CsrBfs`: require
  `nverts < 2^32 - 1`. The allocation of `nverts + 1` offsets needs it, and
  without it `1 + nverts` would wrap to 0 and the distance bound would be
  lost.
- `TropicalSpmv.TropicalIinCsrMvMult`, `TropicalSpmv.IinRow`,
  `Bfs.CsrBfsIin`: require `nverts < 2^31`. The horizontal reduction
  compares lanes as signed `int`, so it equals the unsigned minimum only
  when all lanes are below 2^31 (`ReduceLanesNeedsBound` shows the failure
  otherwise). Larger graphs are outside what the 8-lane form computes
  correctly, and the model does not describe them.
- Vectors of length other than `nverts` passed to the product or to `same`
  are not modelled. Every call site passes `nverts`-length vectors.
- Memory layout, alignment and the exact instruction encoding of the AVX2
  intrinsics. Registers are modelled as 8-element sequences of words.
