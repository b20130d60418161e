/** Completeness of the SNIP check and the bound on the points that can fool it. */
module SnipTheorems {
  import opened Modular
  import opened Poly
  import opened PolyBatch
  import opened PolyOnce
  import opened Circuits
  import opened Shares
  import opened Snip

  // ---------- h = f g as polynomials ----------

  /** The product of the interpolants of f and g, padded to 2N coefficients. */
  ghost function ProductPoly(dom: Domain, fs: seq<int>, gs: seq<int>): (f: seq<int>)
    requires dom.Valid() && |fs| == |gs| == |dom.roots|
    ensures |f| == 2 * |dom.roots|
  {
    Times(Interpolant(dom.roots, fs, dom.p), Interpolant(dom.roots, gs, dom.p)) + [0]
  }

  lemma EvalAppendZero(f: seq<int>, x: int)
    ensures Eval(f + [0], x) == Eval(f, x)
  {
    LastTerm(f + [0], x);
    assert (f + [0])[..|f|] == f;
  }

  lemma EvalProductPoly(dom: Domain, fs: seq<int>, gs: seq<int>, x: int)
    requires dom.Valid() && |fs| == |gs| == |dom.roots|
    ensures Eval(ProductPoly(dom, fs, gs), x)
         == InterpolatedValue(dom.roots, fs, x, dom.p) * InterpolatedValue(dom.roots, gs, x, dom.p)
  {
    var f, g := Interpolant(dom.roots, fs, dom.p), Interpolant(dom.roots, gs, dom.p);
    EvalTimes(f, g, x);
    EvalAppendZero(Times(f, g), x);
  }

  /** h agrees with f g on all 2N-th roots. */
  ghost predicate ProductOnRoots(dom: Domain, fs: seq<int>, gs: seq<int>, hs: seq<int>)
    requires dom.Valid() && |fs| == |gs| == |dom.roots|
  {
    && |hs| == 2 * |dom.roots|
    && forall k :: 0 <= k < |hs| ==>
         Cong(hs[k], InterpolatedValue(dom.roots, fs, dom.roots2[k], dom.p)
                     * InterpolatedValue(dom.roots, gs, dom.roots2[k], dom.p), dom.p)
  }

  /** Agreement on the 2N-th roots is agreement everywhere. */
  lemma ProductEverywhere(dom: Domain, fs: seq<int>, gs: seq<int>, hs: seq<int>, x: int)
    requires dom.Valid() && |fs| == |gs| == |dom.roots| && ProductOnRoots(dom, fs, gs, hs)
    ensures Cong(InterpolatedValue(dom.roots2, hs, x, dom.p),
                 InterpolatedValue(dom.roots, fs, x, dom.p) * InterpolatedValue(dom.roots, gs, x, dom.p), dom.p)
  {
    hide InterpolatedValue, ProductPoly, Eval;
    var f := ProductPoly(dom, fs, gs);
    forall k | 0 <= k < |dom.roots2| ensures Cong(Eval(f, dom.roots2[k]), hs[k], dom.p) {
      EvalProductPoly(dom, fs, gs, dom.roots2[k]);
    }
    ValueOfAnyInterpolant(f, dom.roots2, hs, x, dom.p);
    EvalProductPoly(dom, fs, gs, x);
  }

  // ---------- the sum of the two mulCheck values ----------

  /** r (f(r) g(r) - h(r)) + (c - a b) for the combined points and triple. */
  ghost function Total(dom: Domain, fs: seq<int>, gs: seq<int>, hs: seq<int>,
                       t0: BeaverTripleShare, t1: BeaverTripleShare, r: int): int
    requires dom.Valid() && |fs| == |gs| == |dom.roots| && |hs| == 2 * |dom.roots|
  {
    r * (InterpolatedValue(dom.roots, fs, r, dom.p) * InterpolatedValue(dom.roots, gs, r, dom.p)
         - InterpolatedValue(dom.roots2, hs, r, dom.p))
    + ((t0.c + t1.c) - (t0.a + t1.a) * (t0.b + t1.b))
  }

  /** evalF, evalG and evalH of one server at the point r. */
  ghost predicate EvalsAt(dom: Domain, s: Side, r: int, evalF: int, evalG: int, evalH: int)
    requires dom.Valid() && s.Fits(|dom.roots|)
  {
    var N := |dom.roots|;
    && Cong(evalF, InterpolatedValue(dom.roots, s.F(N), r, dom.p), dom.p)
    && Cong(evalG, InterpolatedValue(dom.roots, s.G(N), r, dom.p) * r, dom.p)
    && Cong(evalH, InterpolatedValue(dom.roots2, s.H(N), r, dom.p) * r, dom.p)
  }

  /** The points of the two servers add to fs, gs and hs. */
  ghost predicate PointsShared(dom: Domain, s0: Side, s1: Side, fs: seq<int>, gs: seq<int>, hs: seq<int>) {
    var N := |dom.roots|;
    && s0.Fits(N) && s1.Fits(N)
    && SharesOf(s0.F(N), s1.F(N), fs, dom.p) && SharesOf(s0.G(N), s1.G(N), gs, dom.p)
    && SharesOf(s0.H(N), s1.H(N), hs, dom.p)
  }

  lemma ScaledShares(v0: int, v1: int, v: int, e0: int, e1: int, r: int, p: Modulus)
    requires Cong(v0 + v1, v, p) && Cong(e0, v0 * r, p) && Cong(e1, v1 * r, p)
    ensures Cong(e0 + e1, v * r, p)
  {
    CongAdd(e0, v0 * r, e1, v1 * r, p);
    CongScale(r, v0 + v1, v, p);
    Distribute(r, v0, v1);
  }

  lemma MulChecksTotal(dom: Domain, s0: Side, s1: Side, fs: seq<int>, gs: seq<int>, hs: seq<int>, r: int,
                       f0: int, g0: int, h0: int, f1: int, g1: int, h1: int)
    requires dom.Valid() && PointsShared(dom, s0, s1, fs, gs, hs)
    requires EvalsAt(dom, s0, r, f0, g0, h0) && EvalsAt(dom, s1, r, f1, g1, h1)
    ensures var cor := OpenCor(CorShareOf(f0, g0, s0.triple, dom.p), CorShareOf(f1, g1, s1.triple, dom.p), dom.p);
            Cong(MulCheck(0, cor, s0.triple, h0, dom.p) + MulCheck(1, cor, s1.triple, h1, dom.p),
                 Total(dom, fs, gs, hs, s0.triple, s1.triple, r), dom.p)
  {
    hide InterpolatedValue, MulCheck, OpenCor, CorShareOf, PadPoints, ProductPoints;
    var p, N := dom.p, |dom.roots|;
    ValueAdditive(dom.roots, s0.F(N), s1.F(N), fs, r, p);
    ValueAdditive(dom.roots, s0.G(N), s1.G(N), gs, r, p);
    ValueAdditive(dom.roots2, s0.H(N), s1.H(N), hs, r, p);
    var f, g, h := InterpolatedValue(dom.roots, fs, r, p), InterpolatedValue(dom.roots, gs, r, p),
                   InterpolatedValue(dom.roots2, hs, r, p);
    CongAdd(f0, InterpolatedValue(dom.roots, s0.F(N), r, p), f1, InterpolatedValue(dom.roots, s1.F(N), r, p), p);
    ScaledShares(InterpolatedValue(dom.roots, s0.G(N), r, p), InterpolatedValue(dom.roots, s1.G(N), r, p), g, g0, g1,
                 r, p);
    ScaledShares(InterpolatedValue(dom.roots2, s0.H(N), r, p), InterpolatedValue(dom.roots2, s1.H(N), r, p), h, h0,
                 h1, r, p);
    MulChecksAdd(f0, f1, g0, g1, h0, h1, s0.triple, s1.triple, f, g * r, h * r, p);
    FactorOut(f, g, h, r);
  }

  lemma FactorOut(f: int, g: int, h: int, r: int)
    ensures f * (g * r) - h * r == r * (f * g - h)
  {
    Distribute(r, f * g, h);
    SwapLeft(f, r, g);
  }

  // ---------- the bound ----------

  lemma ValueIsEval(xs: seq<int>, ys: seq<int>, x: int, p: Modulus)
    requires |xs| <= |ys|
    ensures InterpolatedValue(xs, ys, x, p) == Eval(Interpolant(xs, ys, p), x)
  {
  }

  /** Total as a polynomial in r, with 2N + 1 coefficients. */
  ghost function TotalPoly(dom: Domain, fs: seq<int>, gs: seq<int>, hs: seq<int>, c: int): (f: seq<int>)
    requires dom.Valid() && |fs| == |gs| == |dom.roots| && |hs| == 2 * |dom.roots|
    ensures |f| == 2 * |dom.roots| + 1
  {
    [c] + Minus(ProductPoly(dom, fs, gs), Interpolant(dom.roots2, hs, dom.p))
  }

  lemma EvalTotalPoly(dom: Domain, fs: seq<int>, gs: seq<int>, hs: seq<int>,
                      t0: BeaverTripleShare, t1: BeaverTripleShare, r: int)
    requires dom.Valid() && |fs| == |gs| == |dom.roots| && |hs| == 2 * |dom.roots|
    ensures var c := (t0.c + t1.c) - (t0.a + t1.a) * (t0.b + t1.b);
            Eval(TotalPoly(dom, fs, gs, hs, c), r) == Total(dom, fs, gs, hs, t0, t1, r)
  {
    hide InterpolatedValue, ProductPoly;
    var c := (t0.c + t1.c) - (t0.a + t1.a) * (t0.b + t1.b);
    var diff := Minus(ProductPoly(dom, fs, gs), Interpolant(dom.roots2, hs, dom.p));
    assert ([c] + diff)[1..] == diff;
    EvalMinus(ProductPoly(dom, fs, gs), Interpolant(dom.roots2, hs, dom.p), r);
    EvalProductPoly(dom, fs, gs, r);
    ValueIsEval(dom.roots2, hs, r, dom.p);
  }

  lemma ListedDistinct(S: set<int>, p: Modulus)
    requires forall x :: x in S ==> Reduced(x, p)
    ensures DistinctMod(Listed(S), p)
  {
    var xs := Listed(S);
    forall i, j | 0 <= i < j < |xs| ensures !Cong(xs[i], xs[j], p) {
      assert xs[i] in S && xs[j] in S;
      if Cong(xs[i], xs[j], p) {
        ReducedEqual(xs[i], xs[j], p);
      }
    }
  }

  /** If h differs from f g at some 2N-th root, at most 2N points r make the two
      mulCheck values cancel, whatever the triple. */
  lemma BadPointsBounded(dom: Domain, fs: seq<int>, gs: seq<int>, hs: seq<int>,
                         t0: BeaverTripleShare, t1: BeaverTripleShare, k: nat, S: set<int>)
    requires dom.Valid() && |fs| == |gs| == |dom.roots| && |hs| == 2 * |dom.roots| && k < |hs|
    requires !Cong(hs[k], InterpolatedValue(dom.roots, fs, dom.roots2[k], dom.p)
                          * InterpolatedValue(dom.roots, gs, dom.roots2[k], dom.p), dom.p)
    requires forall r :: r in S ==> Reduced(r, dom.p) && Cong(Total(dom, fs, gs, hs, t0, t1, r), 0, dom.p)
    ensures |S| <= 2 * |dom.roots|
  {
    hide InterpolatedValue, ProductPoly, Total, TotalPoly;
    if |S| > 2 * |dom.roots| {
      var p, c := dom.p, (t0.c + t1.c) - (t0.a + t1.a) * (t0.b + t1.b);
      var f, xs := TotalPoly(dom, fs, gs, hs, c), Listed(S);
      ListedDistinct(S, p);
      forall i | 0 <= i < |xs| ensures Cong(Eval(f, xs[i]), 0, p) {
        EvalTotalPoly(dom, fs, gs, hs, t0, t1, xs[i]);
      }
      TooManyRoots(f, xs, p);
      ZeroTotalMeansProduct(dom, fs, gs, hs, c, k);
    }
  }

  lemma ZeroTotalMeansProduct(dom: Domain, fs: seq<int>, gs: seq<int>, hs: seq<int>, c: int, k: nat)
    requires dom.Valid() && |fs| == |gs| == |dom.roots| && |hs| == 2 * |dom.roots| && k < |hs|
    requires ZeroMod(TotalPoly(dom, fs, gs, hs, c), dom.p)
    ensures Cong(hs[k], InterpolatedValue(dom.roots, fs, dom.roots2[k], dom.p)
                        * InterpolatedValue(dom.roots, gs, dom.roots2[k], dom.p), dom.p)
  {
    hide ProductPoly, InterpolatedValue;
    var p, x := dom.p, dom.roots2[k];
    var f, h := ProductPoly(dom, fs, gs), Interpolant(dom.roots2, hs, p);
    var diff := Minus(f, h);
    forall i | 0 <= i < |diff| ensures Cong(diff[i], 0, p) {
      assert TotalPoly(dom, fs, gs, hs, c)[i+1] == diff[i];
    }
    EvalZero(diff, x, p);
    EvalMinus(f, h, x);
    CongZeroDifference(Eval(f, x), Eval(h, x), p);
    EvalProductPoly(dom, fs, gs, x);
    InterpolantHits(dom.roots2, hs, k, p);
  }

  // ---------- completeness ----------

  /** The odd points of an honest h. */
  ghost function OddProducts(dom: Domain, gates: seq<Gate>, w: seq<int>, f0: int, g0: int): (h: seq<int>)
    requires Topological(gates) && |w| == |gates| && |MulPositions(gates)| < |dom.roots|
    requires |dom.roots2| == 2 * |dom.roots|
    ensures |h| == |dom.roots|
  {
    seq(|dom.roots|, j requires 0 <= j < |dom.roots| => ProductAt(dom, gates, w, f0, g0, dom.roots2[2*j+1]))
  }

  ghost function ProductPointsOf(dom: Domain, gates: seq<Gate>, w: seq<int>, f0: int, g0: int): (h: seq<int>)
    requires Topological(gates) && |w| == |gates| && |MulPositions(gates)| < |dom.roots|
    requires |dom.roots2| == 2 * |dom.roots|
    ensures |h| == 2 * |dom.roots|
  {
    ProductPoints(f0 * g0, Pick(w, MulPositions(gates)), OddProducts(dom, gates, w, f0, g0), |dom.roots|)
  }

  lemma MulWire(gates: seq<Gate>, inps: seq<int>, w: seq<int>, k: nat, p: Modulus)
    requires Evaluated(gates, inps, w, p) && k < |MulPositions(gates)|
    ensures Cong(LeftWires(gates, w)[k] * RightWires(gates, w)[k], w[MulPositions(gates)[k]], p)
  {
    var i := MulPositions(gates)[k];
    assert GateEvaluated(gates, i, inps, w, p);
    MulOperands(gates, i);
    MulModCong(w[gates[i].l], w[gates[i].r], p);
  }

  /** Even points: constant term, multiplication gates, and the slots nobody fills. */
  lemma EvenProduct(gates: seq<Gate>, inps: seq<int>, w: seq<int>, f0: int, g0: int, i: nat, N: nat, p: Modulus)
    requires Evaluated(gates, inps, w, p) && |MulPositions(gates)| < N && i < N
    ensures Cong(PadPoints(f0 * g0, Pick(w, MulPositions(gates)), N)[i],
                 LeftPoints(f0, gates, w, N)[i] * RightPoints(g0, gates, w, N)[i], p)
  {
    hide LeftWires, RightWires;
    if 1 <= i <= |MulPositions(gates)| {
      MulWire(gates, inps, w, i - 1, p);
    }
  }

  /** The honest h is f g on all 2N-th roots, in the order of `roots2`. */
  lemma HonestProduct(dom: Domain, gates: seq<Gate>, inps: seq<int>, w: seq<int>, f0: int, g0: int)
    requires dom.Valid() && Evaluated(gates, inps, w, dom.p) && |MulPositions(gates)| < |dom.roots|
    ensures ProductOnRoots(dom, LeftPoints(f0, gates, w, |dom.roots|), RightPoints(g0, gates, w, |dom.roots|),
                           ProductPointsOf(dom, gates, w, f0, g0))
  {
    var N, p := |dom.roots|, dom.p;
    var fs, gs, hs := LeftPoints(f0, gates, w, N), RightPoints(g0, gates, w, N), ProductPointsOf(dom, gates, w, f0, g0);
    forall k | 0 <= k < 2 * N
      ensures Cong(hs[k], InterpolatedValue(dom.roots, fs, dom.roots2[k], p)
                          * InterpolatedValue(dom.roots, gs, dom.roots2[k], p), p)
    {
      hide InterpolatedValue, LeftWires, RightWires, PadPoints, Interpolant;
      if k % 2 == 0 {
        HonestEvenPoint(dom, gates, inps, w, f0, g0, k / 2);
      }
    }
  }

  lemma HonestEvenPoint(dom: Domain, gates: seq<Gate>, inps: seq<int>, w: seq<int>, f0: int, g0: int, i: nat)
    requires dom.Valid() && Evaluated(gates, inps, w, dom.p) && |MulPositions(gates)| < |dom.roots| && i < |dom.roots|
    ensures Cong(PadPoints(f0 * g0, Pick(w, MulPositions(gates)), |dom.roots|)[i],
                 ProductAt(dom, gates, w, f0, g0, dom.roots2[2*i]), dom.p)
  {
    hide LeftWires, RightWires, PadPoints, Interpolant;
    var N, p := |dom.roots|, dom.p;
    var fs, gs := LeftPoints(f0, gates, w, N), RightPoints(g0, gates, w, N);
    EvenProduct(gates, inps, w, f0, g0, i, N, p);
    InterpolantHits(dom.roots, fs, i, p);
    InterpolantHits(dom.roots, gs, i, p);
    CongMul(InterpolatedValue(dom.roots, fs, dom.roots[i], p), fs[i],
            InterpolatedValue(dom.roots, gs, dom.roots[i], p), gs[i], p);
  }

  lemma OperandShares(gates: seq<Gate>, w0: seq<int>, w1: seq<int>, w: seq<int>, p: Modulus)
    requires Topological(gates) && |w| == |gates| && SharesOf(w0, w1, w, p)
    ensures SharesOf(LeftWires(gates, w0), LeftWires(gates, w1), LeftWires(gates, w), p)
    ensures SharesOf(RightWires(gates, w0), RightWires(gates, w1), RightWires(gates, w), p)
    ensures SharesOf(Pick(w0, MulPositions(gates)), Pick(w1, MulPositions(gates)), Pick(w, MulPositions(gates)), p)
  {
    hide Cong;
    var m := MulPositions(gates);
    forall k | 0 <= k < |m|
      ensures gates[m[k]].l < |gates| && gates[m[k]].r < |gates|
    {
      MulOperands(gates, m[k]);
    }
  }

  lemma ProductPointsShares(h0: int, h1: int, h: int, o0: seq<int>, o1: seq<int>, o: seq<int>,
                            d0: seq<int>, d1: seq<int>, d: seq<int>, N: nat, p: Modulus)
    requires Cong(h0 + h1, h, p) && SharesOf(o0, o1, o, p) && SharesOf(d0, d1, d, p) && |o| < N == |d|
    ensures SharesOf(ProductPoints(h0, o0, d0, N), ProductPoints(h1, o1, d1, N), ProductPoints(h, o, d, N), p)
  {
    hide Cong, PadPoints;
    PadPointsShares(h0, h1, h, o0, o1, o, N, p);
  }

  lemma HonestSidesShare(dom: Domain, gates: seq<Gate>, w0: seq<int>, w1: seq<int>, w: seq<int>,
                         pk0: Packet, pk1: Packet, f0: int, g0: int)
    requires dom.Valid() && Topological(gates) && |w| == |gates| && SharesOf(w0, w1, w, dom.p)
    requires HonestPackets(dom, gates, w, pk0, pk1, f0, g0)
    ensures PointsShared(dom, SideOf(pk0, gates, w0), SideOf(pk1, gates, w1),
                         LeftPoints(f0, gates, w, |dom.roots|), RightPoints(g0, gates, w, |dom.roots|),
                         ProductPointsOf(dom, gates, w, f0, g0))
  {
    hide LeftWires, RightWires, PadPoints, ProductPoints, Pick, ProductAt, Cong;
    var N, p, m := |dom.roots|, dom.p, MulPositions(gates);
    OperandShares(gates, w0, w1, w, p);
    PadPointsShares(pk0.f0, pk1.f0, f0, LeftWires(gates, w0), LeftWires(gates, w1), LeftWires(gates, w), N, p);
    PadPointsShares(pk0.g0, pk1.g0, g0, RightWires(gates, w0), RightWires(gates, w1), RightWires(gates, w), N, p);
    ProductPointsShares(pk0.h0, pk1.h0, f0 * g0, Pick(w0, m), Pick(w1, m), Pick(w, m),
                        pk0.hPoints, pk1.hPoints, OddProducts(dom, gates, w, f0, g0), N, p);
  }

  /** For honest packets the mulCheck values cancel at every point. */
  lemma HonestTotal(dom: Domain, fs: seq<int>, gs: seq<int>, hs: seq<int>,
                    t0: BeaverTripleShare, t1: BeaverTripleShare, r: int)
    requires dom.Valid() && |fs| == |gs| == |dom.roots| && ProductOnRoots(dom, fs, gs, hs) && IsTriple(t0, t1, dom.p)
    ensures Cong(Total(dom, fs, gs, hs, t0, t1, r), 0, dom.p)
  {
    hide InterpolatedValue;
    var p, f, g, h := dom.p, InterpolatedValue(dom.roots, fs, r, dom.p), InterpolatedValue(dom.roots, gs, r, dom.p),
                      InterpolatedValue(dom.roots2, hs, r, dom.p);
    ProductEverywhere(dom, fs, gs, hs, r);
    CongZeroDifference(f * g, h, p);
    CongScale(r, f * g - h, 0, p);
    var c, ab := t0.c + t1.c, (t0.a + t1.a) * (t0.b + t1.b);
    CongZeroDifference(c, ab, p);
    CongAdd(r * (f * g - h), 0, c - ab, 0, p);
  }

  /** The vector one server feeds to `randSum`. */
  function CheckVector(mulCheck: int, zeros: seq<nat>, w: seq<int>): (v: seq<int>)
    requires forall k :: 0 <= k < |zeros| ==> zeros[k] < |w|
    ensures |v| == |zeros| + 1
  {
    [mulCheck] + Pick(w, zeros)
  }

  /** Both servers' evaluations at r, whatever representatives they hold. */
  datatype Evals = Evals(f: int, g: int, h: int)

  ghost predicate EvalsOf(dom: Domain, s: Side, r: int, e: Evals)
    requires dom.Valid() && s.Fits(|dom.roots|)
  {
    EvalsAt(dom, s, r, e.f, e.g, e.h)
  }

  function OpenedCor(e0: Evals, e1: Evals, s0: Side, s1: Side, p: Modulus): CorShare {
    OpenCor(CorShareOf(e0.f, e0.g, s0.triple, p), CorShareOf(e1.f, e1.g, s1.triple, p), p)
  }

  function MulCheckOf(serverNum: int, cor: CorShare, s: Side, e: Evals, p: Modulus): int {
    MulCheck(serverNum, cor, s.triple, e.h, p)
  }

  lemma HonestMulChecksCancel(dom: Domain, gates: seq<Gate>, inps: seq<int>, w: seq<int>, w0: seq<int>, w1: seq<int>,
                              pk0: Packet, pk1: Packet, f0: int, g0: int, r: int, e0: Evals, e1: Evals)
    requires dom.Valid() && Evaluated(gates, inps, w, dom.p) && SharesOf(w0, w1, w, dom.p)
    requires HonestPackets(dom, gates, w, pk0, pk1, f0, g0)
    requires EvalsOf(dom, SideOf(pk0, gates, w0), r, e0) && EvalsOf(dom, SideOf(pk1, gates, w1), r, e1)
    ensures var s0, s1 := SideOf(pk0, gates, w0), SideOf(pk1, gates, w1);
            var cor := OpenedCor(e0, e1, s0, s1, dom.p);
            Cong(MulCheckOf(0, cor, s0, e0, dom.p) + MulCheckOf(1, cor, s1, e1, dom.p), 0, dom.p)
  {
    hide Total, LeftPoints, RightPoints, PointsShared, ProductOnRoots, EvalsAt, MulCheck, OpenCor, CorShareOf, Prime;
    var p, N := dom.p, |dom.roots|;
    var s0, s1 := SideOf(pk0, gates, w0), SideOf(pk1, gates, w1);
    var fs, gs, hs := LeftPoints(f0, gates, w, N), RightPoints(g0, gates, w, N), ProductPointsOf(dom, gates, w, f0, g0);
    HonestSidesShare(dom, gates, w0, w1, w, pk0, pk1, f0, g0);
    HonestProduct(dom, gates, inps, w, f0, g0);
    PointSizes(dom, gates, w, f0, g0);
    HonestTotal(dom, fs, gs, hs, pk0.triple, pk1.triple, r);
    MulChecksTotal(dom, s0, s1, fs, gs, hs, r, e0.f, e0.g, e0.h, e1.f, e1.g, e1.h);
  }

  lemma PointSizes(dom: Domain, gates: seq<Gate>, w: seq<int>, f0: int, g0: int)
    requires Topological(gates) && |w| == |gates| && |MulPositions(gates)| < |dom.roots|
    ensures |LeftPoints(f0, gates, w, |dom.roots|)| == |RightPoints(g0, gates, w, |dom.roots|)| == |dom.roots|
  {
  }

  /** Completeness: for every accepted input, every split into shares, every f(0) and g(0),
      every point r and every shared coefficient vector t, the two outputs add to zero. */
  lemma Completeness(dom: Domain, gates: seq<Gate>, zeros: seq<nat>, inps: seq<int>, w: seq<int>,
                     in0: seq<int>, in1: seq<int>, w0: seq<int>, w1: seq<int>, pk0: Packet, pk1: Packet,
                     f0: int, g0: int, r: int, e0: Evals, e1: Evals, t: seq<int>)
    requires dom.Valid() && Evaluated(gates, inps, w, dom.p) && InputCount(gates) <= |inps|
    requires Accepting(zeros, w) && (forall k :: 0 <= k < |zeros| ==> zeros[k] < |gates|)
    requires SharesOf(in0, in1, inps, dom.p) && HonestPackets(dom, gates, w, pk0, pk1, f0, g0)
    requires Imported(gates, in0, pk0.mulShares, 0, w0, dom.p) && Imported(gates, in1, pk1.mulShares, 1, w1, dom.p)
    requires EvalsOf(dom, SideOf(pk0, gates, w0), r, e0) && EvalsOf(dom, SideOf(pk1, gates, w1), r, e1)
    requires |t| == |zeros| + 1
    ensures var s0, s1 := SideOf(pk0, gates, w0), SideOf(pk1, gates, w1);
            var cor := OpenedCor(e0, e1, s0, s1, dom.p);
            Cong(Dot(t, CheckVector(MulCheckOf(0, cor, s0, e0, dom.p), zeros, w0))
                 + Dot(t, CheckVector(MulCheckOf(1, cor, s1, e1, dom.p), zeros, w1)), 0, dom.p)
  {
    hide MulCheckOf, EvalsOf, Dot, Prime, OpenedCor;
    var p := dom.p;
    var s0, s1 := SideOf(pk0, gates, w0), SideOf(pk1, gates, w1);
    ImportIsHomomorphic(gates, inps, w, in0, in1, pk0.mulShares, pk1.mulShares, w0, w1, p);
    HonestMulChecksCancel(dom, gates, inps, w, w0, w1, pk0, pk1, f0, g0, r, e0, e1);
    var cor := OpenedCor(e0, e1, s0, s1, p);
    CheckVectorsCancel(MulCheckOf(0, cor, s0, e0, p), MulCheckOf(1, cor, s1, e1, p), zeros, w0, w1, w, t, p);
  }

  lemma CheckVectorsCancel(m0: int, m1: int, zeros: seq<nat>, w0: seq<int>, w1: seq<int>, w: seq<int>, t: seq<int>,
                           p: Modulus)
    requires SharesOf(w0, w1, w, p) && Accepting(zeros, w) && Cong(m0 + m1, 0, p) && |t| == |zeros| + 1
    requires forall k :: 0 <= k < |zeros| ==> zeros[k] < |w|
    ensures Cong(Dot(t, CheckVector(m0, zeros, w0)) + Dot(t, CheckVector(m1, zeros, w1)), 0, p)
  {
    var v := Zeros(|zeros| + 1);
    var a, b := CheckVector(m0, zeros, w0), CheckVector(m1, zeros, w1);
    forall i | 0 <= i < |v| ensures Cong(a[i] + b[i], v[i], p) {
      if i > 0 {
        assert w[zeros[i-1]] == 0;
      }
    }
    DotShares(t, a, b, v, p);
    DotZero(t, v, p);
  }
}
