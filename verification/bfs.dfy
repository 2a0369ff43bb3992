/**
 The fixpoint BFS drivers (bfs/src/csr.cpp, `same`, `csr_bfs` and
 `csr_bfs_iin`).

 Starting from `nverts` everywhere and 0 at the root, the distance vector is
 relaxed against a copy of itself with the tropical product until a round
 changes nothing. The result is the hop distance to the root: `d[v] <= k`
 exactly when some walk of at most `k` hops along stored row entries leads
 from `v` to the root, and `nverts` marks the vertices with no such walk. On
 the symmetric graphs `ReadCsrGraph` builds this is the same as a walk from
 the root to `v`.
 */
module Bfs {
  import opened Uint32
  import opened CsrGraph
  import opened TropicalSpmv

  /** `v` reaches `r` by a walk of at most `k` hops along stored row entries:
      `v` is `r`, or one of `v`'s stored neighbours reaches `r` in `k - 1`
      hops. (On the symmetric graphs `ReadCsrGraph` builds, the same as `r`
      reaching `v`.) */
  ghost predicate ReachWithin(g: Csr, r: nat, v: nat, k: nat)
    requires Valid(g) && v < g.nverts
    decreases k
  {
    || v == r
    || (k > 0 && exists j :: g.rows[v] <= j < g.rows[v + 1] && ReachWithin(g, r, g.cols[j], k - 1))
  }

  /** A walk that fits in `k` hops also fits in any larger budget. */
  lemma {:induction false} ReachMonotone(g: Csr, r: nat, v: nat, k: nat, k': nat)
    requires Valid(g) && v < g.nverts && k <= k'
    requires ReachWithin(g, r, v, k)
    ensures ReachWithin(g, r, v, k')
    decreases k
  {
    if v != r {
      var j :| g.rows[v] <= j < g.rows[v + 1] && ReachWithin(g, r, g.cols[j], k - 1);
      ReachMonotone(g, r, g.cols[j], k - 1, k' - 1);
    }
  }

  /** `same(d1, d2)`: whether `d1` agrees with `d2` on the first `|d1|`
      positions. The source reads `d2` at every index of `d1`, so `d2` must be
      at least as long; the index is a 32-bit counter. */
  method Same(d1: seq<u32>, d2: seq<u32>) returns (b: bool)
    requires |d1| <= |d2| && |d1| < U32_LIMIT
    ensures b <==> d1 == d2[..|d1|]
    ensures |d1| == |d2| ==> (b <==> d1 == d2)
  {
    var n: u32 := |d1|;
    var i: u32 := 0;
    while i < n
      invariant i <= n
      invariant d1[..i] == d2[..i]
    {
      if d1[i] != d2[i] {
        assert d2[..|d1|][i] != d1[i];
        assert |d1| == |d2| ==> d2[..|d2|] == d2;
        return false;
      }
      assert d1[..i + 1] == d1[..i] + [d1[i]];
      assert d2[..i + 1] == d2[..i] + [d2[i]];
      i := i + 1;
    }
    assert d1[..i] == d1 && d2[..|d2|] == d2;
    return true;
  }

  /** The sum of all entries of a distance vector. */
  function Sum(s: seq<u32>): nat {
    if |s| == 0 then 0 else Sum(s[..|s| - 1]) + s[|s| - 1]
  }

  /** Lowering entries lowers the sum, strictly if any entry changed: this is
      why the fixpoint loop stops. */
  lemma {:induction false} SumBelow(a: seq<u32>, b: seq<u32>)
    requires |a| == |b|
    requires forall i :: 0 <= i < |a| ==> a[i] <= b[i]
    ensures Sum(a) <= Sum(b)
    ensures a != b ==> Sum(a) < Sum(b)
    decreases |a|
  {
    if |a| > 0 {
      var n := |a| - 1;
      SumBelow(a[..n], b[..n]);
      assert a == a[..n] + [a[n]] && b == b[..n] + [b[n]];
    }
  }

  /** What the loop keeps: the root at 0, every entry at most `nverts`, and
      every entry below `nverts` backed by a walk of that many hops. */
  ghost predicate Sound(g: Csr, r: nat, d: seq<u32>)
    requires Valid(g)
  {
    && |d| == g.nverts as int
    && r < g.nverts
    && d[r] == 0
    && (forall v :: 0 <= v < |d| ==> d[v] <= g.nverts)
    && (forall v :: 0 <= v < |d| && d[v] < g.nverts ==> ReachWithin(g, r, v, d[v] as nat))
  }

  /** One round of relaxation keeps the loop's facts: a lowered entry is
      `1 + d[c]` for a neighbour `c` whose entry is backed by a walk, and that
      walk extended by one hop backs the new entry. */
  lemma RoundSound(g: Csr, r: nat, d: seq<u32>)
    requires Valid(g) && g.nverts < U32_LIMIT - 1
    requires Sound(g, r, d)
    ensures Sound(g, r, Relax(g, d, d))
  {
    var d' := Relax(g, d, d);
    forall v | 0 <= v < |d'| && d'[v] < g.nverts
      ensures ReachWithin(g, r, v, d'[v] as nat)
    {
      LoweredReach(g, r, d, v);
    }
  }

  /** The relaxed entry of one vertex, when below `nverts`, is backed by a
      walk. */
  lemma LoweredReach(g: Csr, r: nat, d: seq<u32>, v: nat)
    requires Valid(g) && g.nverts < U32_LIMIT - 1
    requires Sound(g, r, d) && v < g.nverts
    ensures var m := RowRelax(g, d, d[v], v);
            m < g.nverts ==> ReachWithin(g, r, v, m as nat)
  {
    var m := RowRelax(g, d, d[v], v);
    RowRelaxLeast(g, d, d[v], v);
    if m < g.nverts && m != d[v] {
      var j :| g.rows[v] <= j < g.rows[v + 1] && m == Term(g, d, j);
      var c := g.cols[j];
      assert d[c] < g.nverts && m == d[c] + 1;
      assert ReachWithin(g, r, c, m as nat - 1);
    }
  }

  /** One round of the loop: the loop's facts survive it, and the sum of the
      entries drops unless the round changed nothing. */
  lemma Round(g: Csr, r: nat, d: seq<u32>)
    requires Valid(g) && g.nverts < U32_LIMIT - 1
    requires Sound(g, r, d)
    ensures Sound(g, r, Relax(g, d, d))
    ensures Relax(g, d, d) != d ==> Sum(Relax(g, d, d)) < Sum(d)
  {
    RoundSound(g, r, d);
    RelaxLowers(g, d, d);
    SumBelow(Relax(g, d, d), d);
  }

  /** No entry can be lowered through an edge: `d[v] <= 1 + d[c]` for every
      stored neighbour `c` of `v`. */
  ghost predicate Closed(g: Csr, d: seq<u32>)
    requires Valid(g) && |d| == g.nverts as int
  {
    forall v, j :: 0 <= v < g.nverts && g.rows[v] <= j < g.rows[v + 1] ==> d[v] <= Term(g, d, j)
  }

  /** A vector one round of relaxation leaves unchanged admits no lowering
      through any edge. */
  lemma FixpointClosed(g: Csr, d: seq<u32>)
    requires Valid(g) && |d| == g.nverts as int
    requires Relax(g, d, d) == d
    ensures Closed(g, d)
  {
    forall v, j | 0 <= v < g.nverts && g.rows[v] <= j < g.rows[v + 1]
      ensures d[v] <= Term(g, d, j)
    {
      RowRelaxLeast(g, d, d[v], v);
      assert d[v] == RowRelax(g, d, d[v], v);
    }
  }

  /** In a closed vector with the root at 0 and no entry above `nverts`,
      every walk of `k` hops puts its end at most `k` away. */
  lemma {:induction false} ClosedComplete(g: Csr, r: nat, d: seq<u32>, v: nat, k: nat)
    requires Valid(g) && g.nverts < U32_LIMIT - 1
    requires |d| == g.nverts as int && r < g.nverts && d[r] == 0
    requires forall u :: 0 <= u < |d| ==> d[u] <= g.nverts
    requires Closed(g, d)
    requires v < g.nverts && ReachWithin(g, r, v, k)
    ensures d[v] <= k
    decreases k
  {
    if v != r {
      var j :| g.rows[v] <= j < g.rows[v + 1] && ReachWithin(g, r, g.cols[j], k - 1);
      ClosedComplete(g, r, d, g.cols[j], k - 1);
      assert d[v] <= Term(g, d, j);
    }
  }

  /** `d` holds the hop distances to `r`: `d[r]` is 0, entries are at most
      `nverts`, and a vertex is within `k < nverts` hops exactly when its
      entry is at most `k`. */
  ghost predicate HopDistances(g: Csr, r: nat, d: seq<u32>)
    requires Valid(g)
  {
    && |d| == g.nverts as int
    && r < g.nverts
    && d[r] == 0
    && (forall v :: 0 <= v < |d| ==> d[v] <= g.nverts)
    && (forall v, k :: 0 <= v < |d| && 0 <= k < g.nverts ==> (d[v] <= k <==> ReachWithin(g, r, v, k)))
  }

  /** A sound fixpoint is the vector of hop distances. */
  lemma FixpointIsDistances(g: Csr, r: nat, d: seq<u32>)
    requires Valid(g) && g.nverts < U32_LIMIT - 1
    requires Sound(g, r, d) && Relax(g, d, d) == d
    ensures HopDistances(g, r, d)
  {
    FixpointClosed(g, d);
    forall v, k | 0 <= v < |d| && 0 <= k < g.nverts
      ensures d[v] <= k <==> ReachWithin(g, r, v, k)
    {
      if d[v] <= k {
        ReachMonotone(g, r, v, d[v] as nat, k);
      }
      if ReachWithin(g, r, v, k) {
        ClosedComplete(g, r, d, v, k);
      }
    }
  }

  /** There is only one vector of hop distances: whichever loop computes it,
      the answer is the same. */
  lemma DistancesUnique(g: Csr, r: nat, d1: seq<u32>, d2: seq<u32>)
    requires Valid(g)
    requires HopDistances(g, r, d1) && HopDistances(g, r, d2)
    ensures d1 == d2
  {
    forall v | 0 <= v < |d1|
      ensures d1[v] == d2[v]
    {
      DistanceBelow(g, r, d1, d2, v);
      DistanceBelow(g, r, d2, d1, v);
    }
  }

  lemma DistanceBelow(g: Csr, r: nat, d1: seq<u32>, d2: seq<u32>, v: nat)
    requires Valid(g)
    requires HopDistances(g, r, d1) && HopDistances(g, r, d2) && v < g.nverts
    ensures d1[v] <= d2[v]
  {
    if d2[v] < g.nverts {
      assert ReachWithin(g, r, v, d2[v] as nat);
    }
  }

  /** The distance vector the drivers start from: `nverts` everywhere, 0 at
      the root. */
  function Start(g: Csr, r: nat): (d: seq<u32>)
    requires r < g.nverts
    ensures |d| == g.nverts as int && d[r] == 0
    ensures forall v :: 0 <= v < |d| && v != r ==> d[v] == g.nverts
  {
    seq(g.nverts, v requires 0 <= v < g.nverts => if v == r then 0 else g.nverts)
  }

  /** The loop's facts hold before the first round. */
  lemma StartSound(g: Csr, r: nat)
    requires Valid(g) && r < g.nverts
    ensures Sound(g, r, Start(g, r))
  {
  }

  /** When the loop never runs (a single vertex), the start vector is
      already a fixpoint. */
  lemma ZeroFixpoint(g: Csr, d: seq<u32>)
    requires Valid(g) && |d| == g.nverts as int
    requires forall v :: 0 <= v < |d| ==> d[v] == 0
    ensures Relax(g, d, d) == d
  {
  }

  /** `csr_bfs`: iterate `tropical_csr_mv_mult` from the start vector until
      `same` reports no change. A root outside the graph gives `nverts`
      everywhere; otherwise the result is the vector of hop distances. */
  method CsrBfs(g: Csr, r: u32) returns (dists: seq<u32>)
    requires Valid(g) && g.nverts < U32_LIMIT - 1
    ensures |dists| == g.nverts as int
    ensures r >= g.nverts ==> forall v :: 0 <= v < |dists| ==> dists[v] == g.nverts
    ensures r < g.nverts ==> HopDistances(g, r as nat, dists) && Relax(g, dists, dists) == dists
  {
    dists := seq(g.nverts, _ => g.nverts);
    if r >= g.nverts {
      return;
    }
    dists := Start(g, r as nat);
    StartSound(g, r as nat);
    var prev: seq<u32> := seq(g.nverts, _ => 0);
    var same := Same(dists, prev);
    ghost var first := true;
    while !same
      invariant |prev| == g.nverts as int
      invariant Sound(g, r as nat, dists)
      invariant first ==> forall v :: 0 <= v < |prev| ==> prev[v] == 0
      invariant !first ==> dists == Relax(g, prev, prev)
      invariant same <==> dists == prev
      decreases Sum(dists), if same then 0 else 1
    {
      prev := dists;
      dists := TropicalCsrMvMult(dists, g, prev);
      Round(g, r as nat, prev);
      same := Same(dists, prev);
      first := false;
    }
    if first {
      ZeroFixpoint(g, dists);
    }
    FixpointIsDistances(g, r as nat, dists);
  }

  /** `csr_bfs_iin`: the same loop over `tropical_iin_csr_mv_mult`. Its
      signed lane reduction needs `nverts < 2^31`; under that bound the
      result is the vector of hop distances, so it equals `CsrBfs`'s. */
  method CsrBfsIin(g: Csr, r: u32) returns (dists: seq<u32>)
    requires Valid(g) && g.nverts < I32_LIMIT
    ensures |dists| == g.nverts as int
    ensures r >= g.nverts ==> forall v :: 0 <= v < |dists| ==> dists[v] == g.nverts
    ensures r < g.nverts ==> HopDistances(g, r as nat, dists) && Relax(g, dists, dists) == dists
  {
    dists := seq(g.nverts, _ => g.nverts);
    if r >= g.nverts {
      return;
    }
    dists := Start(g, r as nat);
    StartSound(g, r as nat);
    var prev: seq<u32> := seq(g.nverts, _ => 0);
    var same := Same(dists, prev);
    ghost var first := true;
    while !same
      invariant |prev| == g.nverts as int
      invariant Sound(g, r as nat, dists)
      invariant first ==> forall v :: 0 <= v < |prev| ==> prev[v] == 0
      invariant !first ==> dists == Relax(g, prev, prev)
      invariant same <==> dists == prev
      decreases Sum(dists), if same then 0 else 1
    {
      prev := dists;
      dists := TropicalIinCsrMvMult(dists, g, prev);
      Round(g, r as nat, prev);
      same := Same(dists, prev);
      first := false;
    }
    if first {
      ZeroFixpoint(g, dists);
    }
    FixpointIsDistances(g, r as nat, dists);
  }

  /** Both drivers return the same vector for the same graph and root. */
  lemma BfsAgree(g: Csr, r: nat, d1: seq<u32>, d2: seq<u32>)
    requires Valid(g) && g.nverts < I32_LIMIT && |d1| == |d2| == g.nverts as int
    requires r >= g.nverts ==> forall v :: 0 <= v < g.nverts ==> d1[v] == g.nverts && d2[v] == g.nverts
    requires r < g.nverts ==> HopDistances(g, r, d1) && HopDistances(g, r, d2)
    ensures d1 == d2
  {
    if r < g.nverts {
      DistancesUnique(g, r, d1, d2);
    }
  }
}
