/**
 CSR assembly (bfs/src/csr.cpp, the tail of `read_csr_graph_from_file`).

 The per-vertex FIFO buckets built by ingestion are drained, vertex by
 vertex, into one column array `cols` of exactly `count` entries, while
 `rows[v]` records where the neighbours of `v` start; `rows[nverts]` closes
 the last row.
 */
module CsrGraph {
  import opened Uint32
  import opened EdgeIngest

  /** A graph in compressed sparse row form: the neighbours of `v` are
      `cols[rows[v] .. rows[v + 1])`. */
  datatype Csr = Csr(nverts: u32, nedges: u32, rows: seq<u32>, cols: seq<u32>)

  /** The shape every graph built here has: `nverts + 1` non-decreasing
      offsets from 0 to `nedges`, and `nedges` valid column ids. */
  ghost predicate Valid(g: Csr) {
    && |g.rows| == g.nverts as int + 1
    && g.rows[0] == 0
    && (forall a, b :: 0 <= a <= b <= g.nverts ==> g.rows[a] <= g.rows[b])
    && g.rows[g.nverts] == g.nedges
    && |g.cols| == g.nedges as int
    && (forall j :: 0 <= j < |g.cols| ==> g.cols[j] < g.nverts)
  }

  /** The neighbours of `v`, in stored order. */
  function Row(g: Csr, v: nat): seq<u32>
    requires Valid(g) && v < g.nverts
  {
    g.cols[g.rows[v]..g.rows[v + 1]]
  }

  /** All buckets laid end to end. */
  function Flatten(buckets: seq<seq<u32>>): seq<u32> {
    if |buckets| == 0 then [] else Flatten(buckets[..|buckets| - 1]) + buckets[|buckets| - 1]
  }

  lemma TotalSizeSnoc(buckets: seq<seq<u32>>, v: nat)
    requires v < |buckets|
    ensures TotalSize(buckets[..v + 1]) == TotalSize(buckets[..v]) + |buckets[v]|
    ensures Flatten(buckets[..v + 1]) == Flatten(buckets[..v]) + buckets[v]
  {
    assert buckets[..v + 1][..v] == buckets[..v];
  }

  lemma {:induction false} FlattenLength(buckets: seq<seq<u32>>)
    ensures |Flatten(buckets)| == TotalSize(buckets)
    decreases |buckets|
  {
    if |buckets| > 0 {
      FlattenLength(buckets[..|buckets| - 1]);
    }
  }

  /** Draining a prefix of the buckets fills a prefix of the column array,
      and offsets taken after longer prefixes are never smaller. */
  lemma {:induction false} FlattenPrefix(buckets: seq<seq<u32>>, a: nat)
    requires a <= |buckets|
    ensures |Flatten(buckets)| == TotalSize(buckets)
    ensures TotalSize(buckets[..a]) <= TotalSize(buckets)
    ensures Flatten(buckets)[..TotalSize(buckets[..a])] == Flatten(buckets[..a])
    decreases |buckets| - a
  {
    FlattenLength(buckets);
    FlattenLength(buckets[..a]);
    if a < |buckets| {
      FlattenPrefix(buckets, a + 1);
      TotalSizeSnoc(buckets, a);
      var f := Flatten(buckets);
      var t := TotalSize(buckets[..a]);
      var t' := TotalSize(buckets[..a + 1]);
      assert f[..t'] == Flatten(buckets[..a]) + buckets[a];
      assert f[..t] == f[..t'][..t];
    } else {
      assert buckets[..a] == buckets;
    }
  }

  lemma TotalSizeMonotone(buckets: seq<seq<u32>>, a: nat, b: nat)
    requires a <= b <= |buckets|
    ensures TotalSize(buckets[..a]) <= TotalSize(buckets[..b])
  {
    FlattenPrefix(buckets[..b], a);
    assert buckets[..b][..a] == buckets[..a];
  }

  /** The slice of the flattened buckets between the offsets of `v` and
      `v + 1` is bucket `v`. */
  lemma FlattenRow(buckets: seq<seq<u32>>, v: nat)
    requires v < |buckets|
    ensures TotalSize(buckets[..v]) <= TotalSize(buckets[..v + 1]) <= |Flatten(buckets)|
    ensures Flatten(buckets)[TotalSize(buckets[..v])..TotalSize(buckets[..v + 1])] == buckets[v]
  {
    FlattenPrefix(buckets, v + 1);
    FlattenLength(buckets);
    FlattenLength(buckets[..v]);
    TotalSizeSnoc(buckets, v);
    var f := Flatten(buckets);
    var t := TotalSize(buckets[..v]);
    var t' := TotalSize(buckets[..v + 1]);
    assert f[t..t'] == f[..t'][t..];
  }

  lemma {:induction false} FlattenBelow(buckets: seq<seq<u32>>, n: nat)
    requires forall v, k :: 0 <= v < |buckets| && 0 <= k < |buckets[v]| ==> buckets[v][k] < n
    ensures forall j :: 0 <= j < |Flatten(buckets)| ==> Flatten(buckets)[j] < n
    decreases |buckets|
  {
    if |buckets| > 0 {
      FlattenBelow(buckets[..|buckets| - 1], n);
    }
  }

  /** The single linear pass that drains the buckets into `rows`/`cols`. The
      result is a valid CSR graph whose row `v` is bucket `v`, in FIFO
      order. */
  method BuildCsr(nverts: u32, count: u32, buckets: seq<seq<u32>>) returns (g: Csr)
    requires nverts < U32_LIMIT - 1
    requires |buckets| == nverts as int
    requires TotalSize(buckets) == count as int
    requires forall v, k :: 0 <= v < |buckets| && 0 <= k < |buckets[v]| ==> buckets[v][k] < nverts
    ensures Valid(g)
    ensures g.nverts == nverts && g.nedges == count
    ensures forall v :: 0 <= v < nverts ==> Row(g, v) == buckets[v]
  {
    var cols: seq<u32> := [];
    var rows: seq<u32> := [];
    var cursor: u32 := 0;
    var v: u32 := 0;
    TotalSizeMonotone(buckets, 0, |buckets|);
    assert buckets[..|buckets|] == buckets;
    while v < nverts
      invariant v <= nverts && |rows| == v as int
      invariant cursor as int == |cols| == TotalSize(buckets[..v]) <= count as int
      invariant cols == Flatten(buckets[..v])
      invariant forall a :: 0 <= a < v ==> rows[a] as int == TotalSize(buckets[..a])
    {
      rows := rows + [cursor];
      TotalSizeSnoc(buckets, v as nat);
      TotalSizeMonotone(buckets, v as nat + 1, |buckets|);
      cursor, cols := DrainBucket(buckets[v], count, cursor, cols);
      v := v + 1;
    }
    rows := rows + [cursor];
    assert buckets[..nverts] == buckets;
    g := Csr(nverts, count, rows, cols);
    AssembledIsValid(buckets, g);
  }

  /** The inner loop of the assembly: bucket `b` is emptied, front first,
      onto the end of the column array while the cursor advances. */
  method DrainBucket(b: seq<u32>, count: u32, cursor0: u32, cols0: seq<u32>) returns (cursor: u32, cols: seq<u32>)
    requires cursor0 as int == |cols0| && |cols0| + |b| <= count as int
    ensures cols == cols0 + b && cursor as int == |cols|
  {
    cursor, cols := cursor0, cols0;
    var k := 0;
    while k < |b|
      invariant k <= |b|
      invariant cols == cols0 + b[..k] && cursor as int == |cols|
    {
      cols := cols + [b[k]];
      assert b[..k + 1] == b[..k] + [b[k]];
      cursor := cursor + 1;
      k := k + 1;
    }
    assert b[..k] == b;
  }

  /** Offsets that are the running bucket sizes over a column array that is
      the flattened buckets make a valid CSR graph whose rows are the
      buckets. */
  lemma AssembledIsValid(buckets: seq<seq<u32>>, g: Csr)
    requires |buckets| == g.nverts as int && |g.rows| == g.nverts as int + 1
    requires forall v, k :: 0 <= v < |buckets| && 0 <= k < |buckets[v]| ==> buckets[v][k] < g.nverts
    requires forall a :: 0 <= a <= g.nverts ==> g.rows[a] as int == TotalSize(buckets[..a])
    requires g.cols == Flatten(buckets) && g.nedges as int == TotalSize(buckets)
    ensures Valid(g)
    ensures forall v :: 0 <= v < g.nverts ==> Row(g, v) == buckets[v]
  {
    assert buckets[..g.nverts] == buckets;
    FlattenLength(buckets);
    FlattenBelow(buckets, g.nverts as nat);
    forall a, b | 0 <= a <= b <= g.nverts
      ensures g.rows[a] <= g.rows[b]
    {
      TotalSizeMonotone(buckets, a as nat, b as nat);
    }
    forall w | 0 <= w < g.nverts
      ensures Row(g, w) == buckets[w]
    {
      FlattenRow(buckets, w as nat);
    }
  }

  /** `read_csr_graph_from_file` from the record stream on: ingestion
      followed by assembly. Row `v` holds exactly the neighbours the kept
      edges give `v`, in arrival order; `nedges` is twice the number of kept
      edges (so even); no row holds its own vertex; and `w` occurs in row `v`
      as often as `v` occurs in row `w`. */
  method ReadCsrGraph(nverts: u32, records: seq<Record>) returns (g: Csr)
    requires nverts < U32_LIMIT - 1
    requires 2 * |KeptEdges(records)| < U32_LIMIT
    requires InRange(nverts as nat, records)
    ensures Valid(g) && g.nverts == nverts
    ensures g.nedges as int == 2 * |KeptEdges(records)| <= 2 * |records|
    ensures forall v :: 0 <= v < nverts ==> Row(g, v) == Incident(v, KeptEdges(records))
    ensures forall v :: 0 <= v < nverts ==> v !in Row(g, v)
    ensures forall v, w :: 0 <= v < nverts && 0 <= w < nverts ==>
              multiset(Row(g, v))[w] == multiset(Row(g, w))[v]
  {
    var st := Ingest(nverts as nat, records);
    IngestConsistent(nverts as nat, records);
    KeptEdgesBuildBuckets(nverts as nat, records);
    DedupShape(records, (0, 0));
    g := BuildCsr(nverts, st.count as u32, st.buckets);
    forall v, w | 0 <= v < nverts && 0 <= w < nverts
      ensures multiset(Row(g, v))[w] == multiset(Row(g, w))[v]
    {
      assert Row(g, v) == st.buckets[v] && Row(g, w) == st.buckets[w];
    }
  }
}
