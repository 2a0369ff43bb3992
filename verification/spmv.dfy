/**
 Tropical (min-plus) sparse matrix-vector product over a CSR graph
 (bfs/src/csr.cpp, `tropical_csr_mv_mult` and `tropical_iin_csr_mv_mult`).

 Row `i` of the product lowers `y[i]` to the least of its old value, the
 sentinel `nverts` and `1 + x[c]` for every neighbour `c` of `i`. The sum
 `1 + x[c]` is unsigned 32-bit arithmetic and wraps (see `Inc`).

 Both implementations are modelled with their own accumulator structure:
 four strided scalar accumulators, or one 8-lane register (an 8-element
 sequence) with a lane-wise unsigned minimum and a signed horizontal
 reduction. Each is proved equal to the reference product `Relax`, hence to
 each other.
 */
module TropicalSpmv {
  import opened Uint32
  import opened CsrGraph

  /** The term `1 + x[cols[j]]` contributed by stored edge `j`. */
  function Term(g: Csr, x: seq<u32>, j: nat): u32
    requires Valid(g) && |x| == g.nverts as int && j < |g.cols|
  {
    Inc(x[g.cols[j]])
  }

  /** The terms of row `i`, one per stored neighbour. */
  function RowTerms(g: Csr, x: seq<u32>, i: nat): (t: seq<u32>)
    requires Valid(g) && |x| == g.nverts as int && i < g.nverts
    ensures |t| == g.rows[i + 1] - g.rows[i]
    ensures forall k :: 0 <= k < |t| ==> t[k] == Term(g, x, g.rows[i] + k)
  {
    var n: int := g.rows[i + 1] as int - g.rows[i] as int;
    seq<u32>(n, k requires 0 <= k < n => Term(g, x, g.rows[i] as int + k))
  }

  lemma RowTermAt(g: Csr, x: seq<u32>, i: nat, j: int)
    requires Valid(g) && |x| == g.nverts as int && i < g.nverts
    requires g.rows[i] <= j < g.rows[i + 1]
    ensures RowTerms(g, x, i)[j - g.rows[i]] == Inc(x[g.cols[j]])
  {
  }

  /** `m` is the least of `init` and the entries of `s`, and is one of them. */
  ghost predicate IsLeast(m: int, init: int, s: seq<u32>) {
    && m <= init
    && (forall k :: 0 <= k < |s| ==> m <= s[k])
    && (m == init || exists k :: 0 <= k < |s| && m == s[k])
  }

  lemma LeastUnique(m1: int, m2: int, init: int, s: seq<u32>)
    requires IsLeast(m1, init, s) && IsLeast(m2, init, s)
    ensures m1 == m2
  {
  }

  /** The running minimum `acc = min(acc, s[k])` over `s`, started at
      `init`. */
  function MinOf(init: u32, s: seq<u32>): u32
    decreases |s|
  {
    if |s| == 0 then init else Min(MinOf(init, s[..|s| - 1]), s[|s| - 1])
  }

  /** The running minimum is the least of `init` and the entries of `s`,
      and is one of them. */
  lemma {:induction false} MinOfLeast(init: u32, s: seq<u32>)
    ensures IsLeast(MinOf(init, s), init, s)
    decreases |s|
  {
    if |s| > 0 {
      var s' := s[..|s| - 1];
      MinOfLeast(init, s');
      var m' := MinOf(init, s');
      if m' != init {
        var k :| 0 <= k < |s'| && m' == s'[k];
        assert s[k] == m';
      }
    }
  }

  lemma MinOfSnoc(init: u32, s: seq<u32>, v: u32)
    ensures MinOf(init, s + [v]) == Min(MinOf(init, s), v)
  {
    assert (s + [v])[..|s|] == s;
  }

  /** The running minimum of a row, seeded with `b`, is the least of `b`
      and the row's terms, and is one of them. */
  lemma RowTermsLeast(g: Csr, x: seq<u32>, i: nat, b: u32)
    requires Valid(g) && |x| == g.nverts as int && i < g.nverts
    ensures var r := MinOf(b, RowTerms(g, x, i));
            && r <= b
            && (forall j :: g.rows[i] <= j < g.rows[i + 1] ==> r <= Term(g, x, j))
            && (r == b || exists j :: g.rows[i] <= j < g.rows[i + 1] && r == Term(g, x, j))
  {
    var t := RowTerms(g, x, i);
    var r := MinOf(b, t);
    MinOfLeast(b, t);
    forall j | g.rows[i] <= j < g.rows[i + 1]
      ensures r <= Term(g, x, j)
    {
      assert t[j - g.rows[i]] == Term(g, x, j);
    }
    if r != b {
      var k :| 0 <= k < |t| && r == t[k];
      assert r == Term(g, x, g.rows[i] + k);
    }
  }

  /** Row `i` of the tropical product: the relaxed value of `yi`, never
      above it nor above the sentinel `nverts`. */
  function RowRelax(g: Csr, x: seq<u32>, yi: u32, i: nat): (m: u32)
    requires Valid(g) && |x| == g.nverts as int && i < g.nverts
    ensures m <= yi && m <= g.nverts
  {
    MinOfLeast(g.nverts, RowTerms(g, x, i));
    Min(yi, MinOf(g.nverts, RowTerms(g, x, i)))
  }

  /** The relaxed row is the least of `yi`, the sentinel `nverts` and every
      term `1 + x[c]` of the row, and always one of them. */
  lemma RowRelaxLeast(g: Csr, x: seq<u32>, yi: u32, i: nat)
    requires Valid(g) && |x| == g.nverts as int && i < g.nverts
    ensures var m := RowRelax(g, x, yi, i);
            && (forall j :: g.rows[i] <= j < g.rows[i + 1] ==> m <= Term(g, x, j))
            && (m == yi || m == g.nverts || exists j :: g.rows[i] <= j < g.rows[i + 1] && m == Term(g, x, j))
  {
    RowTermsLeast(g, x, i, g.nverts);
  }

  /** The reference product: every row relaxed against `x`, accumulated into
      `y`. */
  function Relax(g: Csr, x: seq<u32>, y: seq<u32>): (r: seq<u32>)
    requires Valid(g) && |x| == g.nverts as int && |y| == g.nverts as int
    ensures |r| == g.nverts as int
  {
    seq(g.nverts, i requires 0 <= i < g.nverts => RowRelax(g, x, y[i], i))
  }

  /** No entry of the product grows, no entry exceeds `nverts`, every entry
      is at most `1 + x[c]` for each neighbour `c` of its vertex, and every
      entry that changed was lowered to `nverts` or to such a term. */
  lemma RelaxLowers(g: Csr, x: seq<u32>, y: seq<u32>)
    requires Valid(g) && |x| == g.nverts as int && |y| == g.nverts as int
    ensures var r := Relax(g, x, y);
            && (forall i :: 0 <= i < |r| ==> r[i] <= y[i] && r[i] <= g.nverts)
            && (forall i, j :: 0 <= i < |r| && g.rows[i] <= j < g.rows[i + 1] ==> r[i] <= Term(g, x, j))
            && (forall i :: 0 <= i < |r| ==>
                  r[i] == y[i] || r[i] == g.nverts || exists j :: g.rows[i] <= j < g.rows[i + 1] && r[i] == Term(g, x, j))
  {
    forall i | 0 <= i < g.nverts {
      RowRelaxLeast(g, x, y[i], i);
    }
  }

  // ---------------------------------------------------------------------
  // Accumulators over blocks.
  // ---------------------------------------------------------------------

  /** The reduction `min(min(a0, a1), min(a2, a3))` of four accumulators. */
  function Min4(a0: u32, a1: u32, a2: u32, a3: u32): u32 {
    Min(Min(a0, a1), Min(a2, a3))
  }

  /** Folding four terms into four separate accumulators and reducing
      afterwards gives the running minimum over those terms in order: the
      four accumulators jointly track the running minimum of the row prefix
      consumed so far. */
  lemma FourStep(t: seq<u32>, n: nat, bound: u32, a0: u32, a1: u32, a2: u32, a3: u32)
    requires n + 4 <= |t|
    requires Min4(a0, a1, a2, a3) == MinOf(bound, t[..n])
    ensures Min4(Min(a0, t[n]), Min(a1, t[n + 1]), Min(a2, t[n + 2]), Min(a3, t[n + 3]))
            == MinOf(bound, t[..n + 4])
  {
    PrefixStep(t, n, bound);
    PrefixStep(t, n + 1, bound);
    PrefixStep(t, n + 2, bound);
    PrefixStep(t, n + 3, bound);
    Interleave(a0, a1, a2, a3, t[n], t[n + 1], t[n + 2], t[n + 3]);
  }

  /** Four lane-wise minima, reduced, equal the reduction of the lanes
      followed by the four new values in order. */
  lemma Interleave(a0: u32, a1: u32, a2: u32, a3: u32, v0: u32, v1: u32, v2: u32, v3: u32)
    ensures Min4(Min(a0, v0), Min(a1, v1), Min(a2, v2), Min(a3, v3))
            == Min(Min(Min(Min(Min4(a0, a1, a2, a3), v0), v1), v2), v3)
  {
    var m := Min4(a0, a1, a2, a3);
    MinSwap(a0, v0, a1, v1);
    MinSwap(a2, v2, a3, v3);
    MinSwap(Min(a0, a1), Min(v0, v1), Min(a2, a3), Min(v2, v3));
    assert Min(Min(m, v0), v1) == Min(m, Min(v0, v1));
    assert Min(Min(Min(m, v0), v1), v2) == Min(m, Min(Min(v0, v1), v2));
  }

  /** Extending the prefix by one term folds that term in. */
  lemma PrefixStep(t: seq<u32>, n: nat, bound: u32)
    requires n < |t|
    ensures MinOf(bound, t[..n + 1]) == Min(MinOf(bound, t[..n]), t[n])
  {
    assert t[..n + 1][..n] == t[..n];
  }

  /** The running minimum over the tail of a row extends the one over its
      head. */
  lemma TailStep(t: seq<u32>, n: nat, yi: u32, bound: u32)
    requires n < |t|
    ensures Min(Min(yi, MinOf(bound, t[..n])), t[n]) == Min(yi, MinOf(bound, t[..n + 1]))
  {
    assert t[..n + 1] == t[..n] + [t[n]];
    MinOfSnoc(bound, t[..n], t[n]);
  }

  /** The clean-up loop shared by both products: the terms of row `i` from
      stored edge `j` on are folded into `m` one at a time. If `m` already
      holds the row's running minimum up to `j`, the result is the relaxed
      row. */
  method CleanUp(g: Csr, x: seq<u32>, i: u32, yi: u32, j0: int, m0: u32) returns (m: u32)
    requires Valid(g) && |x| == g.nverts as int && i < g.nverts
    requires g.rows[i] <= j0 <= g.rows[i + 1]
    requires m0 == Min(yi, MinOf(g.nverts, RowTerms(g, x, i as nat)[..j0 - g.rows[i] as int]))
    ensures m == RowRelax(g, x, yi, i as nat)
  {
    var start: int, end: int := g.rows[i], g.rows[i + 1];
    ghost var t := RowTerms(g, x, i as nat);
    var j := j0;
    m := m0;
    while j < end
      invariant start <= j <= end
      invariant m == Min(yi, MinOf(g.nverts, t[..j - start]))
    {
      TailStep(t, j - start, yi, g.nverts);
      RowTermAt(g, x, i as nat, j);
      m := Min(m, Inc(x[g.cols[j]]));
      j := j + 1;
    }
    assert t[..j - start] == t;
  }

  /** The four terms a block of the scalar loop reads at `j` are the row's
      terms at positions `j - rows[i]` to `j - rows[i] + 3`. */
  lemma QuadTerms(g: Csr, x: seq<u32>, i: nat, j: int)
    requires Valid(g) && |x| == g.nverts as int && i < g.nverts
    requires g.rows[i] <= j && j + 4 <= g.rows[i + 1]
    ensures var t, n := RowTerms(g, x, i), j - g.rows[i];
            && t[n] == Inc(x[g.cols[j]])
            && t[n + 1] == Inc(x[g.cols[j + 1]])
            && t[n + 2] == Inc(x[g.cols[j + 2]])
            && t[n + 3] == Inc(x[g.cols[j + 3]])
  {
    RowTermAt(g, x, i, j);
    RowTermAt(g, x, i, j + 1);
    RowTermAt(g, x, i, j + 2);
    RowTermAt(g, x, i, j + 3);
  }

  /** The block loop of `tropical_csr_mv_mult` for row `i`: four
      accumulators seeded with `nverts` take blocks of four terms, one term
      each. It stops at the first stored edge `j` with fewer than four left,
      and the reduced accumulators hold the running minimum of the terms
      before `j`. */
  method ScalarBlocks(g: Csr, x: seq<u32>, i: u32) returns (tmp0: u32, tmp1: u32, tmp2: u32, tmp3: u32, j: int)
    requires Valid(g) && |x| == g.nverts as int && i < g.nverts
    ensures g.rows[i] <= j <= g.rows[i + 1] < j + 4
    ensures Min4(tmp0, tmp1, tmp2, tmp3) == MinOf(g.nverts, RowTerms(g, x, i as nat)[..j - g.rows[i] as int])
  {
    var start: int, end: int := g.rows[i], g.rows[i + 1];
    ghost var t := RowTerms(g, x, i as nat);
    tmp0, tmp1, tmp2, tmp3 := g.nverts, g.nverts, g.nverts, g.nverts;
    j := start;
    while j < end - 3
      invariant start <= j <= end
      invariant Min4(tmp0, tmp1, tmp2, tmp3) == MinOf(g.nverts, t[..j - start])
    {
      QuadTerms(g, x, i as nat, j);
      FourStep(t, j - start, g.nverts, tmp0, tmp1, tmp2, tmp3);
      tmp0 := Min(tmp0, Inc(x[g.cols[j + 0]]));
      tmp1 := Min(tmp1, Inc(x[g.cols[j + 1]]));
      tmp2 := Min(tmp2, Inc(x[g.cols[j + 2]]));
      tmp3 := Min(tmp3, Inc(x[g.cols[j + 3]]));
      j := j + 4;
    }
  }

  /** One row of `tropical_csr_mv_mult`: the four accumulators are reduced
      into `yi`, and the remaining terms are folded in one at a time. The
      result is the relaxed row. */
  method ScalarRow(g: Csr, x: seq<u32>, i: u32, yi: u32) returns (m: u32)
    requires Valid(g) && |x| == g.nverts as int && i < g.nverts
    ensures m == RowRelax(g, x, yi, i as nat)
  {
    var tmp0, tmp1, tmp2, tmp3, j := ScalarBlocks(g, x, i);
    m := Min(yi, Min(Min(tmp0, tmp1), Min(tmp2, tmp3)));
    m := CleanUp(g, x, i, yi, j, m);
  }

  /** `tropical_csr_mv_mult`: every row of `y` relaxed against `x`. The
      result is the reference product. */
  method TropicalCsrMvMult(y: seq<u32>, g: Csr, x: seq<u32>) returns (y': seq<u32>)
    requires Valid(g) && |x| == g.nverts as int && |y| == g.nverts as int
    ensures y' == Relax(g, x, y)
  {
    y' := y;
    var i: u32 := 0;
    while i < g.nverts
      invariant i <= g.nverts && |y'| == |y|
      invariant forall k :: 0 <= k < i ==> y'[k] == RowRelax(g, x, y[k], k)
      invariant forall k :: i <= k < |y| ==> y'[k] == y[k]
    {
      var m := ScalarRow(g, x, i, y'[i]);
      y' := y'[i := m];
      i := i + 1;
    }
  }

  // ---------------------------------------------------------------------
  // The 8-lane register.
  // ---------------------------------------------------------------------

  /** A 256-bit register viewed as eight 32-bit lanes. */
  type Lanes = s: seq<u32> | |s| == 8 witness [0, 0, 0, 0, 0, 0, 0, 0]

  /** `_mm256_set_epi32(e[0], ..., e[7])`: the FIRST argument lands in the
      HIGHEST lane. */
  function SetEpi32(e: Lanes): (v: Lanes)
    ensures forall l :: 0 <= l < 8 ==> v[l] == e[7 - l]
  {
    seq(8, l requires 0 <= l < 8 => e[7 - l])
  }

  /** The register `xs` loaded for the block of stored edges starting at
      `j`: `_mm256_set_epi32(1 + x[cols[j]], ..., 1 + x[cols[j + 7]])`, so
      lane `l` holds the term of edge `j + 7 - l`. */
  function LoadBlock(g: Csr, x: seq<u32>, j: nat): (xs: Lanes)
    requires Valid(g) && |x| == g.nverts as int && j + 8 <= |g.cols|
    ensures forall l :: 0 <= l < 8 ==> xs[l] == Term(g, x, j + 7 - l)
  {
    var e := seq<u32>(8, k requires 0 <= k < 8 => Inc(x[g.cols[j + k]]));
    assert |e| == 8;
    SetEpi32(e)
  }

  /** Lane `l` of the block loaded at `j` is the row's term at position
      `j + 7 - l`. */
  lemma BlockTerms(g: Csr, x: seq<u32>, i: nat, j: int)
    requires Valid(g) && |x| == g.nverts as int && i < g.nverts
    requires g.rows[i] <= j && j + 8 <= g.rows[i + 1]
    ensures forall l :: 0 <= l < 8 ==>
              LoadBlock(g, x, j)[l] == RowTerms(g, x, i)[j - g.rows[i] + 7 - l]
  {
    forall l | 0 <= l < 8
      ensures LoadBlock(g, x, j)[l] == RowTerms(g, x, i)[j - g.rows[i] + 7 - l]
    {
      RowTermAt(g, x, i, j + (7 - l));
    }
  }

  /** `_mm256_min_epu32`: lane-wise unsigned minimum. */
  function MinEpu32(a: Lanes, b: Lanes): (v: Lanes)
    ensures forall l :: 0 <= l < 8 ==> v[l] == Min(a[l], b[l])
  {
    seq(8, l requires 0 <= l < 8 => Min(a[l], b[l]))
  }

  /** `_mm256_extract_epi32`: a lane read as a signed `int`. */
  function ExtractEpi32(v: Lanes, l: nat): int
    requires l < 8
  {
    ToI32(v[l])
  }

  /** `std::min` on two signed `int`s. */
  function IMin(a: int, b: int): int {
    if b < a then b else a
  }

  /** The horizontal reduction of the source: two signed trees of four lanes,
      each cast to `uint32_t`, then an unsigned minimum. */
  function ReduceLanes(v: Lanes): u32 {
    Min(ToU32(IMin(IMin(ExtractEpi32(v, 0), ExtractEpi32(v, 1)), IMin(ExtractEpi32(v, 2), ExtractEpi32(v, 3)))),
        ToU32(IMin(IMin(ExtractEpi32(v, 4), ExtractEpi32(v, 5)), IMin(ExtractEpi32(v, 6), ExtractEpi32(v, 7)))))
  }

  /** When every lane is below 2^31 the signed reduction is the unsigned
      minimum of the eight lanes. */
  lemma ReduceLanesUnsigned(v: Lanes)
    requires forall l :: 0 <= l < 8 ==> v[l] < I32_LIMIT
    ensures ReduceLanes(v) == Min8(v)
  {
    SignedPairs(v[0], v[1], v[2], v[3]);
    SignedPairs(v[4], v[5], v[6], v[7]);
    Min8Least(v);
  }

  /** A signed tree of four lanes below 2^31, cast back, is their unsigned
      minimum: each signed `std::min` agrees with the unsigned one, and its
      result, read back as signed, is the signed value the next level uses. */
  lemma SignedPairs(a0: u32, a1: u32, a2: u32, a3: u32)
    requires a0 < I32_LIMIT && a1 < I32_LIMIT && a2 < I32_LIMIT && a3 < I32_LIMIT
    ensures ToU32(IMin(IMin(ToI32(a0), ToI32(a1)), IMin(ToI32(a2), ToI32(a3)))) == Min4(a0, a1, a2, a3)
  {
    var l, h := IMin(ToI32(a0), ToI32(a1)), IMin(ToI32(a2), ToI32(a3));
    SignedMinAgrees(a0, a1);
    SignedMinAgrees(a2, a3);
    CastsRoundTrip(Min(a0, a1), l);
    CastsRoundTrip(Min(a2, a3), h);
    SignedMinAgrees(Min(a0, a1), Min(a2, a3));
  }

  /** The bound is needed: with a lane at 2^31 or above in each half, the
      signed comparison prefers it and the reduction misses a smaller lane. */
  lemma ReduceLanesNeedsBound()
    ensures var v: Lanes := [I32_LIMIT, 5, 5, 5, I32_LIMIT, 5, 5, 5];
            ReduceLanes(v) == I32_LIMIT && Min8(v) == 5
  {
    Min8Least([I32_LIMIT, 5, 5, 5, I32_LIMIT, 5, 5, 5]);
  }

  /** The unsigned minimum of the eight lanes, folded from lane 0 up. */
  function Min8(v: Lanes): u32 {
    MinOf(v[0], v[1..])
  }

  lemma Min8Least(v: Lanes)
    ensures forall l :: 0 <= l < 8 ==> Min8(v) <= v[l]
    ensures exists l :: 0 <= l < 8 && Min8(v) == v[l]
  {
    MinOfLeast(v[0], v[1..]);
    forall l | 1 <= l < 8
      ensures Min8(v) <= v[l]
    {
      assert v[1..][l - 1] == v[l];
    }
    if Min8(v) != v[0] {
      var k :| 0 <= k < 7 && Min8(v) == v[1..][k];
      assert Min8(v) == v[k + 1];
    }
  }

  /** A lane-wise minimum of two registers reduces to the minimum of their
      reductions. */
  lemma Min8Pointwise(a: Lanes, c: Lanes)
    ensures Min8(MinEpu32(a, c)) == Min(Min8(a), Min8(c))
  {
    var v := MinEpu32(a, c);
    Min8Least(a);
    Min8Least(c);
    Min8Least(v);
    var la :| 0 <= la < 8 && Min8(a) == a[la];
    var lc :| 0 <= lc < 8 && Min8(c) == c[lc];
    var lv :| 0 <= lv < 8 && Min8(v) == v[lv];
    assert Min8(v) <= v[la] <= a[la];
    assert Min8(v) <= v[lc] <= c[lc];
    assert Min8(a) <= a[lv] && Min8(c) <= c[lv];
  }

  /** Running eight more terms into a minimum equals taking the minimum with
      the tree reduction of those terms, in whatever lane order they sit. */
  lemma MinOfBlock(t: seq<u32>, n: nat, bound: u32, xs: Lanes)
    requires n + 8 <= |t|
    requires forall l :: 0 <= l < 8 ==> xs[l] == t[n + 7 - l]
    ensures MinOf(bound, t[..n + 8]) == Min(MinOf(bound, t[..n]), Min8(xs))
  {
    var head, s := t[..n], t[..n + 8];
    var m := MinOf(bound, head);
    var r := Min(m, Min8(xs));
    MinOfLeast(bound, head);
    MinOfLeast(bound, s);
    Min8Least(xs);
    forall p | 0 <= p < |s|
      ensures r <= s[p]
    {
      if p < n {
        assert s[p] == head[p];
      } else {
        assert s[p] == xs[n + 7 - p];
      }
    }
    if r != bound {
      if r == m {
        var k :| 0 <= k < |head| && m == head[k];
        assert s[k] == r;
      } else {
        var l :| 0 <= l < 8 && Min8(xs) == xs[l];
        assert s[n + 7 - l] == r;
      }
    }
    LeastUnique(r, MinOf(bound, s), bound, s);
  }

  /** The block loop of `tropical_iin_csr_mv_mult` for row `i`: the
      register, seeded with `nverts` in every lane, takes full blocks of
      eight terms by lane-wise unsigned minimum. It stops at the first
      stored edge `j` with fewer than eight left; every lane stays at most
      `nverts`, and the lanes jointly hold the running minimum of the terms
      before `j`. */
  method IinBlocks(g: Csr, x: seq<u32>, i: u32) returns (tmps: Lanes, j: int)
    requires Valid(g) && |x| == g.nverts as int && i < g.nverts
    ensures g.rows[i] <= j <= g.rows[i + 1] < j + 8
    ensures forall l :: 0 <= l < 8 ==> tmps[l] <= g.nverts
    ensures Min8(tmps) == MinOf(g.nverts, RowTerms(g, x, i as nat)[..j - g.rows[i] as int])
  {
    var start: int, end: int := g.rows[i], g.rows[i + 1];
    ghost var t := RowTerms(g, x, i as nat);
    tmps := SetEpi32(seq(8, _ => g.nverts));
    Min8Least(tmps);
    j := start;
    while j < end - 7
      invariant start <= j <= end
      invariant forall l :: 0 <= l < 8 ==> tmps[l] <= g.nverts
      invariant Min8(tmps) == MinOf(g.nverts, t[..j - start])
    {
      var xs := LoadBlock(g, x, j);
      BlockTerms(g, x, i as nat, j);
      MinOfBlock(t, j - start, g.nverts, xs);
      Min8Pointwise(xs, tmps);
      tmps := MinEpu32(xs, tmps);
      j := j + 8;
    }
  }

  /** One row of `tropical_iin_csr_mv_mult`: a register seeded with `nverts`
      in every lane takes blocks of eight terms by lane-wise unsigned
      minimum, is reduced horizontally into `yi`, and the remaining terms are
      folded in one at a time. */
  method IinRow(g: Csr, x: seq<u32>, i: u32, yi: u32) returns (m: u32)
    requires Valid(g) && |x| == g.nverts as int && i < g.nverts
    requires g.nverts < I32_LIMIT
    ensures m == RowRelax(g, x, yi, i as nat)
  {
    var tmps, j := IinBlocks(g, x, i);
    ReduceLanesUnsigned(tmps);
    m := Min(yi, ReduceLanes(tmps));
    m := CleanUp(g, x, i, yi, j, m);
  }

  /** `tropical_iin_csr_mv_mult`: every row of `y` relaxed against `x` with
      the 8-lane register. The result is the reference product, so it is
      exactly the vector `TropicalCsrMvMult` produces from the same
      inputs. */
  method TropicalIinCsrMvMult(y: seq<u32>, g: Csr, x: seq<u32>) returns (y': seq<u32>)
    requires Valid(g) && |x| == g.nverts as int && |y| == g.nverts as int
    requires g.nverts < I32_LIMIT
    ensures y' == Relax(g, x, y)
  {
    y' := y;
    var i: u32 := 0;
    while i < g.nverts
      invariant i <= g.nverts && |y'| == |y|
      invariant forall k :: 0 <= k < i ==> y'[k] == RowRelax(g, x, y[k], k)
      invariant forall k :: i <= k < |y| ==> y'[k] == y[k]
    {
      var m := IinRow(g, x, i, y'[i]);
      y' := y'[i := m];
      i := i + 1;
    }
  }
}
