/**
 Edge ingestion (bfs/src/csr.cpp, the record loop of `read_csr_graph_from_file`).

 The binary edge file is a stream of `(uint32, uint32)` records. Each record
 that is not a self-loop is put in canonical `(min, max)` order; a canonical
 pair equal to the last KEPT pair is suppressed (adjacent-only
 deduplication, starting from the pair `(0, 0)`); every kept pair pushes
 `max` onto the FIFO bucket of `min`, `min` onto the bucket of `max`, and
 adds 2 to the directed-edge counter.

 The file is read as an input sequence; opening and reading it is not
 modelled.
 */
module EdgeIngest {
  import opened Uint32

  /** One raw record of the edge file. */
  type Record = (u32, u32)

  /** An undirected edge in canonical order (smaller id first). */
  type Edge = (u32, u32)

  /** The loop state: per-vertex FIFO buckets, the running counter and the
      last kept canonical pair. */
  datatype IngestState = IngestState(buckets: seq<seq<u32>>, count: nat, prevMin: u32, prevMax: u32)

  function Canon(a: u32, b: u32): (e: Edge)
    ensures e.0 <= e.1
    ensures (e.0 == a && e.1 == b) || (e.0 == b && e.1 == a)
  {
    if a > b then (b, a) else (a, b)
  }

  predicate SelfLoop(rec: Record) {
    rec.0 == rec.1
  }

  /** The source indexes the bucket vector with both ids of every record
      that is not a self-loop (self-loops are skipped before indexing). */
  predicate InRange(nverts: nat, records: seq<Record>) {
    forall k :: 0 <= k < |records| && !SelfLoop(records[k]) ==> records[k].0 < nverts && records[k].1 < nverts
  }

  /** Number of entries over all buckets. */
  function TotalSize(buckets: seq<seq<u32>>): nat {
    if |buckets| == 0 then 0 else TotalSize(buckets[..|buckets| - 1]) + |buckets[|buckets| - 1]|
  }

  /** The state before the first record: empty buckets, counter 0 and the
      previous pair `(0, 0)`. */
  function Initial(nverts: nat): IngestState {
    IngestState(seq(nverts, _ => []), 0, 0, 0)
  }

  /** One iteration of the record loop. */
  function IngestStep(st: IngestState, rec: Record): (r: IngestState)
    requires !SelfLoop(rec) ==> rec.0 < |st.buckets| && rec.1 < |st.buckets|
    ensures |r.buckets| == |st.buckets|
  {
    if SelfLoop(rec) then st
    else
      var e := Canon(rec.0, rec.1);
      if e.0 == st.prevMin && e.1 == st.prevMax then st
      else
        IngestState(st.buckets[e.0 := st.buckets[e.0] + [e.1]][e.1 := st.buckets[e.1] + [e.0]],
                    st.count + 2, e.0, e.1)
  }

  /** The record loop run from state `st` over `records`. */
  function IngestFrom(st: IngestState, records: seq<Record>): (r: IngestState)
    requires InRange(|st.buckets|, records)
    ensures |r.buckets| == |st.buckets|
    decreases |records|
  {
    if |records| == 0 then st
    else IngestFrom(IngestStep(st, records[0]), records[1..])
  }

  /** The whole record loop of the source. */
  function Ingest(nverts: nat, records: seq<Record>): IngestState
    requires InRange(nverts, records)
  {
    IngestFrom(Initial(nverts), records)
  }

  // ---------------------------------------------------------------------
  // Reference definitions: the kept edges, and what each vertex receives.
  // ---------------------------------------------------------------------

  /** The canonical edges the adjacent-duplicate filter lets through, given
      the last kept pair `last`. */
  function Dedup(records: seq<Record>, last: Edge): seq<Edge>
    decreases |records|
  {
    if |records| == 0 then []
    else if SelfLoop(records[0]) then Dedup(records[1..], last)
    else
      var e := Canon(records[0].0, records[0].1);
      if e == last then Dedup(records[1..], last) else [e] + Dedup(records[1..], e)
  }

  function KeptEdges(records: seq<Record>): seq<Edge> {
    Dedup(records, (0, 0))
  }

  /** What edge `e` adds to the bucket of vertex `v`: the other endpoint,
      if `v` is one of its endpoints. */
  function Contribution(v: nat, e: Edge): seq<u32> {
    if e.0 == v then [e.1] else if e.1 == v then [e.0] else []
  }

  /** The neighbours `v` receives from `es`, in order. */
  function Incident(v: nat, es: seq<Edge>): seq<u32>
    decreases |es|
  {
    if |es| == 0 then [] else Contribution(v, es[0]) + Incident(v, es[1..])
  }

  /** `w` occurs in `buckets[v]` as often as `v` occurs in `buckets[w]`. */
  ghost predicate SymmetricBuckets(buckets: seq<seq<u32>>) {
    forall v, w :: 0 <= v < |buckets| && 0 <= w < |buckets| ==>
      multiset(buckets[v])[w] == multiset(buckets[w])[v]
  }

  /** No bucket holds its own vertex, and every entry is a valid id. */
  ghost predicate LoopFreeBuckets(buckets: seq<seq<u32>>) {
    && (forall v :: 0 <= v < |buckets| ==> v !in buckets[v])
    && (forall v, k :: 0 <= v < |buckets| && 0 <= k < |buckets[v]| ==> buckets[v][k] < |buckets|)
  }

  /** The invariant the record loop keeps on its state. */
  ghost predicate Consistent(nverts: nat, st: IngestState) {
    && |st.buckets| == nverts
    && st.count == TotalSize(st.buckets)
    && LoopFreeBuckets(st.buckets)
    && SymmetricBuckets(st.buckets)
  }

  // ---------------------------------------------------------------------
  // One step.
  // ---------------------------------------------------------------------

  /** A record changes the state iff it is not a self-loop and its canonical
      pair differs from the last kept pair; a kept record appends `max` to
      `bucket[min]` and `min` to `bucket[max]`, adds 2 to the counter,
      becomes the last kept pair, and leaves every other bucket alone. */
  lemma IngestStepEffect(st: IngestState, rec: Record)
    requires !SelfLoop(rec) ==> rec.0 < |st.buckets| && rec.1 < |st.buckets|
    ensures var r := IngestStep(st, rec);
            var e := Canon(rec.0, rec.1);
            && (r != st <==> !SelfLoop(rec) && (e.0, e.1) != (st.prevMin, st.prevMax))
            && (r != st ==>
                  && r.buckets[e.0] == st.buckets[e.0] + [e.1]
                  && r.buckets[e.1] == st.buckets[e.1] + [e.0]
                  && r.count == st.count + 2
                  && (r.prevMin, r.prevMax) == e
                  && (forall v :: 0 <= v < |st.buckets| && v != e.0 && v != e.1 ==> r.buckets[v] == st.buckets[v]))
  {
  }

  lemma TotalSizeAppend(buckets: seq<seq<u32>>, i: nat, x: u32)
    requires i < |buckets|
    ensures TotalSize(buckets[i := buckets[i] + [x]]) == TotalSize(buckets) + 1
    decreases |buckets|
  {
    var b' := buckets[i := buckets[i] + [x]];
    var n := |buckets| - 1;
    if i == n {
      assert b'[..n] == buckets[..n];
    } else {
      assert b'[..n] == buckets[..n][i := buckets[i] + [x]];
      TotalSizeAppend(buckets[..n], i, x);
    }
  }

  /** Recording an edge in both directions keeps the buckets symmetric. */
  lemma AddEdgeSymmetric(buckets: seq<seq<u32>>, lo: u32, hi: u32)
    requires lo < |buckets| && hi < |buckets| && lo != hi
    requires SymmetricBuckets(buckets)
    ensures SymmetricBuckets(buckets[lo := buckets[lo] + [hi]][hi := buckets[hi] + [lo]])
  {
    var r := buckets[lo := buckets[lo] + [hi]][hi := buckets[hi] + [lo]];
    forall v, w | 0 <= v < |r| && 0 <= w < |r|
      ensures multiset(r[v])[w] == multiset(r[w])[v]
    {
      AddEdgeCount(buckets, lo, hi, v, w);
      AddEdgeCount(buckets, lo, hi, w, v);
    }
  }

  /** Recording edge `(lo, hi)` adds one `w` to bucket `v` exactly when
      `{v, w}` is `{lo, hi}`. */
  lemma AddEdgeCount(buckets: seq<seq<u32>>, lo: u32, hi: u32, v: nat, w: nat)
    requires lo < |buckets| && hi < |buckets| && lo != hi && v < |buckets|
    ensures multiset(buckets[lo := buckets[lo] + [hi]][hi := buckets[hi] + [lo]][v])[w]
            == multiset(buckets[v])[w] + (if (v == lo && w == hi) || (v == hi && w == lo) then 1 else 0)
  {
    var r := buckets[lo := buckets[lo] + [hi]][hi := buckets[hi] + [lo]];
    if v == lo {
      assert r[v] == buckets[v] + [hi];
    } else if v == hi {
      assert r[v] == buckets[v] + [lo];
    } else {
      assert r[v] == buckets[v];
    }
  }

  /** Recording an edge between two distinct valid ids adds no self-loop
      and no invalid id. */
  lemma AddEdgeLoopFree(buckets: seq<seq<u32>>, lo: u32, hi: u32)
    requires lo < |buckets| && hi < |buckets| && lo != hi
    requires LoopFreeBuckets(buckets)
    ensures LoopFreeBuckets(buckets[lo := buckets[lo] + [hi]][hi := buckets[hi] + [lo]])
  {
    var r := buckets[lo := buckets[lo] + [hi]][hi := buckets[hi] + [lo]];
    forall v | 0 <= v < |r|
      ensures v !in r[v]
    {
      if v == lo {
        assert r[v] == buckets[v] + [hi];
      } else if v == hi {
        assert r[v] == buckets[v] + [lo];
      }
    }
  }

  /** Recording a new edge `(lo, hi)` keeps the loop invariant. */
  lemma AddEdgeConsistent(nverts: nat, st: IngestState, lo: u32, hi: u32)
    requires Consistent(nverts, st)
    requires lo < nverts && hi < nverts && lo != hi
    ensures Consistent(nverts, IngestState(st.buckets[lo := st.buckets[lo] + [hi]][hi := st.buckets[hi] + [lo]],
                                           st.count + 2, lo, hi))
  {
    var b1 := st.buckets[lo := st.buckets[lo] + [hi]];
    var b2 := b1[hi := b1[hi] + [lo]];
    TotalSizeAppend(st.buckets, lo, hi);
    TotalSizeAppend(b1, hi, lo);
    assert TotalSize(b2) == st.count + 2;
    AddEdgeSymmetric(st.buckets, lo, hi);
    AddEdgeLoopFree(st.buckets, lo, hi);
  }

  lemma IngestStepConsistent(nverts: nat, st: IngestState, rec: Record)
    requires Consistent(nverts, st)
    requires !SelfLoop(rec) ==> rec.0 < nverts && rec.1 < nverts
    ensures Consistent(nverts, IngestStep(st, rec))
  {
    if !SelfLoop(rec) {
      var e := Canon(rec.0, rec.1);
      if e.0 != st.prevMin || e.1 != st.prevMax {
        AddEdgeConsistent(nverts, st, e.0, e.1);
      }
    }
  }

  // ---------------------------------------------------------------------
  // The whole loop.
  // ---------------------------------------------------------------------

  /** The loop invariant: the counter equals the total bucket size, no
      bucket holds its own vertex, every entry is a valid id, and
      `w` occurs in `bucket[v]` as often as `v` occurs in `bucket[w]`. */
  lemma {:induction false} IngestFromConsistent(nverts: nat, st: IngestState, records: seq<Record>)
    requires Consistent(nverts, st)
    requires InRange(nverts, records)
    ensures Consistent(nverts, IngestFrom(st, records))
    decreases |records|
  {
    if |records| > 0 {
      IngestStepConsistent(nverts, st, records[0]);
      IngestFromConsistent(nverts, IngestStep(st, records[0]), records[1..]);
    }
  }

  lemma IngestConsistent(nverts: nat, records: seq<Record>)
    requires InRange(nverts, records)
    ensures Consistent(nverts, Ingest(nverts, records))
  {
    var s0 := Initial(nverts);
    assert TotalSize(s0.buckets) == 0 by {
      TotalSizeEmpty(s0.buckets);
    }
    IngestFromConsistent(nverts, s0, records);
  }

  lemma {:induction false} TotalSizeEmpty(buckets: seq<seq<u32>>)
    requires forall v :: 0 <= v < |buckets| ==> buckets[v] == []
    ensures TotalSize(buckets) == 0
    decreases |buckets|
  {
    if |buckets| > 0 {
      TotalSizeEmpty(buckets[..|buckets| - 1]);
    }
  }

  /** The loop, seen through the reference definitions: each bucket grows by
      exactly the neighbours the kept edges give it, in order, and the
      counter grows by two per kept edge. */
  lemma {:induction false} IngestFromMatchesKept(st: IngestState, records: seq<Record>)
    requires InRange(|st.buckets|, records)
    ensures var r := IngestFrom(st, records);
            var kept := Dedup(records, (st.prevMin, st.prevMax));
            && r.count == st.count + 2 * |kept|
            && forall v :: 0 <= v < |st.buckets| ==> r.buckets[v] == st.buckets[v] + Incident(v, kept)
    decreases |records|
  {
    if |records| > 0 {
      var rec := records[0];
      var st' := IngestStep(st, rec);
      IngestFromMatchesKept(st', records[1..]);
      var kept := Dedup(records, (st.prevMin, st.prevMax));
      var kept' := Dedup(records[1..], (st'.prevMin, st'.prevMax));
      var r := IngestFrom(st, records);
      assert r == IngestFrom(st', records[1..]);
      if SelfLoop(rec) || Canon(rec.0, rec.1) == (st.prevMin, st.prevMax) {
        assert st' == st;
        assert kept == kept';
      } else {
        assert kept == [Canon(rec.0, rec.1)] + kept';
        KeptBranch(st, rec, r.buckets, kept');
      }
    }
  }

  /** A kept record grows bucket `v` by exactly what its edge contributes
      to `v`. */
  lemma KeptStepBucket(st: IngestState, rec: Record, v: nat)
    requires !SelfLoop(rec) && rec.0 < |st.buckets| && rec.1 < |st.buckets| && v < |st.buckets|
    requires Canon(rec.0, rec.1) != (st.prevMin, st.prevMax)
    ensures IngestStep(st, rec).buckets[v] == st.buckets[v] + Contribution(v, Canon(rec.0, rec.1))
  {
    var e := Canon(rec.0, rec.1);
    var b1 := st.buckets[e.0 := st.buckets[e.0] + [e.1]];
    assert IngestStep(st, rec).buckets == b1[e.1 := b1[e.1] + [e.0]];
  }

  /** If the rest of the loop appends the neighbours `es` gives to the state
      after a kept record, the whole loop appends those of the record's edge
      followed by `es`. */
  lemma KeptBranch(st: IngestState, rec: Record, rb: seq<seq<u32>>, es: seq<Edge>)
    requires !SelfLoop(rec) && rec.0 < |st.buckets| && rec.1 < |st.buckets|
    requires Canon(rec.0, rec.1) != (st.prevMin, st.prevMax)
    requires |rb| == |st.buckets|
    requires forall v :: 0 <= v < |rb| ==> rb[v] == IngestStep(st, rec).buckets[v] + Incident(v, es)
    ensures forall v :: 0 <= v < |rb| ==> rb[v] == st.buckets[v] + Incident(v, [Canon(rec.0, rec.1)] + es)
  {
    var e := Canon(rec.0, rec.1);
    forall v | 0 <= v < |rb|
      ensures rb[v] == st.buckets[v] + Incident(v, [e] + es)
    {
      KeptStepBucket(st, rec, v);
      IncidentCons(v, e, es);
    }
  }

  lemma IncidentCons(v: nat, e: Edge, es: seq<Edge>)
    ensures Incident(v, [e] + es) == Contribution(v, e) + Incident(v, es)
  {
    assert ([e] + es)[1..] == es;
  }

  lemma KeptEdgesBuildBuckets(nverts: nat, records: seq<Record>)
    requires InRange(nverts, records)
    ensures Ingest(nverts, records).count == 2 * |KeptEdges(records)|
    ensures forall v :: 0 <= v < nverts ==> Ingest(nverts, records).buckets[v] == Incident(v, KeptEdges(records))
  {
    IngestFromMatchesKept(Initial(nverts), records);
  }

  // ---------------------------------------------------------------------
  // Properties of the reference definitions.
  // ---------------------------------------------------------------------

  /** Every kept edge is canonical with distinct endpoints, no kept edge
      repeats its predecessor, the first kept edge differs from `last`, and
      at most one edge is kept per record. */
  lemma {:induction false} DedupShape(records: seq<Record>, last: Edge)
    ensures var d := Dedup(records, last);
            && |d| <= |records|
            && (forall k :: 0 <= k < |d| ==> d[k].0 < d[k].1)
            && (forall k :: 0 <= k < |d| - 1 ==> d[k] != d[k + 1])
            && (|d| > 0 ==> d[0] != last)
    decreases |records|
  {
    if |records| > 0 {
      DedupShape(records[1..], last);
      if !SelfLoop(records[0]) {
        DedupShape(records[1..], Canon(records[0].0, records[0].1));
      }
    }
  }

  /** The set of kept edges is exactly the set of canonical forms of the
      records that are not self-loops, apart from `last` itself. */
  lemma {:induction false} DedupCovers(records: seq<Record>, last: Edge)
    ensures forall e :: e in Dedup(records, last) ==>
              exists k :: 0 <= k < |records| && !SelfLoop(records[k]) && Canon(records[k].0, records[k].1) == e
    ensures forall k :: 0 <= k < |records| && !SelfLoop(records[k]) ==>
              Canon(records[k].0, records[k].1) in Dedup(records, last) || Canon(records[k].0, records[k].1) == last
    decreases |records|
  {
    if |records| > 0 {
      var rest := records[1..];
      if SelfLoop(records[0]) {
        DedupCovers(rest, last);
        assert Dedup(records, last) == Dedup(rest, last);
        forall e | e in Dedup(records, last)
          ensures exists k :: 0 <= k < |records| && !SelfLoop(records[k]) && Canon(records[k].0, records[k].1) == e
        {
          var k :| 0 <= k < |rest| && !SelfLoop(rest[k]) && Canon(rest[k].0, rest[k].1) == e;
          assert records[k + 1] == rest[k];
        }
        forall k | 0 <= k < |records| && !SelfLoop(records[k])
          ensures Canon(records[k].0, records[k].1) in Dedup(records, last) || Canon(records[k].0, records[k].1) == last
        {
          assert k > 0 && records[k] == rest[k - 1];
        }
      } else {
        var c := Canon(records[0].0, records[0].1);
        var next := if c == last then last else c;
        DedupCovers(rest, next);
        var d := Dedup(records, last);
        assert c != last ==> d == [c] + Dedup(rest, c);
        assert c == last ==> d == Dedup(rest, last);
        forall e | e in d
          ensures exists k :: 0 <= k < |records| && !SelfLoop(records[k]) && Canon(records[k].0, records[k].1) == e
        {
          if e in Dedup(rest, next) {
            var k :| 0 <= k < |rest| && !SelfLoop(rest[k]) && Canon(rest[k].0, rest[k].1) == e;
            assert records[k + 1] == rest[k];
          } else {
            assert e == c;
          }
        }
        forall k | 0 <= k < |records| && !SelfLoop(records[k])
          ensures Canon(records[k].0, records[k].1) in d || Canon(records[k].0, records[k].1) == last
        {
          if k > 0 {
            assert records[k] == rest[k - 1];
          }
        }
      }
    }
  }

  /** Because self-loops are skipped first and a canonical pair always has
      `min < max`, the initial pair `(0, 0)` never suppresses anything: the
      first record that is not a self-loop is always kept. */
  lemma {:induction false} FirstRealEdgeKept(records: seq<Record>, i: nat)
    requires i < |records| && !SelfLoop(records[i])
    requires forall k :: 0 <= k < i ==> SelfLoop(records[k])
    ensures |KeptEdges(records)| > 0
    ensures KeptEdges(records)[0] == Canon(records[i].0, records[i].1)
    decreases i
  {
    if i > 0 {
      assert KeptEdges(records) == KeptEdges(records[1..]);
      FirstRealEdgeKept(records[1..], i - 1);
    }
  }

  /** The last kept pair after the filter has seen `records`, starting from
      `last`. A suppressed record equals the last kept pair, so every record
      that is not a self-loop becomes the last pair. */
  function DedupLast(records: seq<Record>, last: Edge): Edge
    decreases |records|
  {
    if |records| == 0 then last
    else if SelfLoop(records[0]) then DedupLast(records[1..], last)
    else DedupLast(records[1..], Canon(records[0].0, records[0].1))
  }

  /** The filter over a concatenation is the filter over the first part
      followed by the filter over the second part, resumed from the pair the
      first part left behind. */
  lemma {:induction false} DedupAppend(p: seq<Record>, q: seq<Record>, last: Edge)
    ensures Dedup(p + q, last) == Dedup(p, last) + Dedup(q, DedupLast(p, last))
    decreases |p|
  {
    if |p| == 0 {
      assert p + q == q;
    } else {
      assert (p + q)[0] == p[0] && (p + q)[1..] == p[1..] + q;
      if SelfLoop(p[0]) {
        DedupAppend(p[1..], q, last);
      } else {
        DedupAppend(p[1..], q, Canon(p[0].0, p[0].1));
      }
    }
  }

  /** Once a record with a different canonical pair has gone by, a record
      that is not a self-loop is kept, whatever pair the filter resumed
      from. */
  lemma DedupAfterChange(records: seq<Record>, last: Edge, m: nat, b: nat)
    requires m < b < |records|
    requires !SelfLoop(records[m]) && !SelfLoop(records[b])
    requires Canon(records[m].0, records[m].1) != Canon(records[b].0, records[b].1)
    ensures Canon(records[b].0, records[b].1) in Dedup(records[m..], last)
  {
    var s := records[m..];
    var c := Canon(s[0].0, s[0].1);
    DedupCovers(s[1..], c);
    assert s[1..][b - m - 1] == records[b];
    if c == last {
      assert Dedup(s, last) == Dedup(s[1..], c);
    } else {
      assert Dedup(s, last) == [c] + Dedup(s[1..], c);
    }
  }

  /** The filter drops ADJACENT duplicates only: two records with the same
      canonical pair `e`, separated by a record with a different pair, both
      reach the buckets, so `e` is kept at least twice. */
  lemma NonAdjacentDuplicatesKept(records: seq<Record>, a: nat, m: nat, b: nat)
    requires a < m < b < |records|
    requires !SelfLoop(records[a]) && !SelfLoop(records[m]) && !SelfLoop(records[b])
    requires Canon(records[a].0, records[a].1) == Canon(records[b].0, records[b].1)
    requires Canon(records[m].0, records[m].1) != Canon(records[b].0, records[b].1)
    ensures multiset(KeptEdges(records))[Canon(records[a].0, records[a].1)] >= 2
  {
    var e := Canon(records[a].0, records[a].1);
    var p, q := records[..m], records[m..];
    assert records == p + q;
    DedupAppend(p, q, (0, 0));
    DedupCovers(p, (0, 0));
    assert p[a] == records[a];
    assert e in Dedup(p, (0, 0));
    DedupAfterChange(records, DedupLast(p, (0, 0)), m, b);
    assert e in Dedup(q, DedupLast(p, (0, 0)));
  }

  /** `w` occurs in the neighbours `v` receives as often as `v` occurs in
      the neighbours `w` receives: every edge is recorded in both
      directions. */
  lemma {:induction false} IncidentSymmetric(es: seq<Edge>, v: nat, w: nat)
    ensures multiset(Incident(v, es))[w] == multiset(Incident(w, es))[v]
    decreases |es|
  {
    if |es| > 0 {
      IncidentSymmetric(es[1..], v, w);
      ContributionSymmetric(es[0], v, w);
      assert Incident(v, es) == Contribution(v, es[0]) + Incident(v, es[1..]);
      assert Incident(w, es) == Contribution(w, es[0]) + Incident(w, es[1..]);
    }
  }

  lemma ContributionSymmetric(e: Edge, v: nat, w: nat)
    ensures multiset(Contribution(v, e))[w] == multiset(Contribution(w, e))[v]
  {
    if e.0 == v {
      assert Contribution(v, e) == [e.1];
    } else if e.1 == v {
      assert Contribution(v, e) == [e.0];
    } else {
      assert Contribution(v, e) == [];
    }
    if e.0 == w {
      assert Contribution(w, e) == [e.1];
    } else if e.1 == w {
      assert Contribution(w, e) == [e.0];
    } else {
      assert Contribution(w, e) == [];
    }
  }

  /** With no self-loop among the edges, no vertex receives itself. */
  lemma {:induction false} IncidentNoSelf(es: seq<Edge>, v: nat)
    requires forall k :: 0 <= k < |es| ==> es[k].0 != es[k].1
    ensures v !in Incident(v, es)
    decreases |es|
  {
    if |es| > 0 {
      IncidentNoSelf(es[1..], v);
    }
  }
}
