/** The prover: client.h. */
module Client {
  import opened Modular
  import opened Poly
  import opened RootsOfUnity
  import opened RootTables
  import opened Fft
  import opened PolyBatch
  import opened PolyOnce
  import opened Circuits
  import opened Shares
  import opened Snip
  import opened Checkers

  /** Root tables of size N are a valid domain. */
  lemma TablesAreDomain(roots: seq<int>, invroots: seq<int>, roots2: seq<int>, N: nat, c: Params)
    requires c.Valid() && c.Supports(N) && AreTables(roots, invroots, roots2, N, c)
    ensures Domain(c.p, roots, roots2).Valid()
  {
    TableFacts(roots, invroots, roots2, N, c);
  }

  lemma InversePrincipal(w: int, v: int, n: nat, p: Modulus)
    requires PrincipalRoot(w, n, p) && Cong(v * w, 1, p)
    ensures PrincipalRoot(v, n, p)
  {
    if n > 1 {
      var h := n / 2;
      InversePowers(w, v, h, p);
      CongScale(Pow(v, h), Pow(w, h), -1, p);
      CongScale(-1, Pow(v, h) * -1, 1, p);
    }
  }

  // ---------- interpolate, pad, evaluate on the 2N roots ----------

  method CopyPadded(src: array<int>, size: nat) returns (dst: array<int>)
    requires src.Length <= size
    ensures fresh(dst) && dst[..] == src[..] + Zeros(size - src.Length)
  {
    dst := new int[size](_ => 0);
    for i := 0 to src.Length
      invariant dst[..i] == src[..i]
      invariant forall k :: i <= k < size ==> dst[k] == 0
    {
      dst[i] := src[i];
    }
  }

  lemma {:induction false} EvalPadded(f: seq<int>, n: nat, x: int)
    ensures Eval(f + Zeros(n), x) == Eval(f, x)
  {
    if f == [] {
      EvalZeros(n, x);
      assert f + Zeros(n) == Zeros(n);
    } else {
      EvalPadded(f[1..], n, x);
      assert (f + Zeros(n))[1..] == f[1..] + Zeros(n);
    }
  }

  lemma {:induction false} EvalZeros(n: nat, x: int)
    ensures Eval(Zeros(n), x) == 0
  {
    if n > 0 {
      EvalZeros(n - 1, x);
      assert Zeros(n)[1..] == Zeros(n - 1);
    }
  }

  /** Values of the interpolating polynomial on all 2N-th roots, in the order of `roots2`. */
  ghost predicate AreEvaluations(evals: seq<int>, dom: Domain, points: seq<int>)
    requires |points| == |dom.roots|
  {
    && |evals| == |dom.roots2|
    && forall k :: 0 <= k < |evals| ==> Cong(evals[k], InterpolatedValue(dom.roots, points, dom.roots2[k], dom.p),
                                             dom.p)
  }

  /** At the even indices the evaluations are the points themselves. */
  lemma EvenEvaluations(evals: seq<int>, dom: Domain, points: seq<int>, i: nat)
    requires dom.Valid() && |points| == |dom.roots| && AreEvaluations(evals, dom, points) && i < |points|
    ensures Cong(evals[2*i], points[i], dom.p)
  {
    hide Interpolant;
    InterpolantHits(dom.roots, points, i, dom.p);
    assert Cong(evals[2*i], InterpolatedValue(dom.roots, points, dom.roots2[2*i], dom.p), dom.p);
  }

  /** Roots w of order 2N and v inverse to w^2 that the three tables enumerate. */
  ghost predicate Enumerate(roots: seq<int>, invroots: seq<int>, roots2: seq<int>, w: int, v: int, N: nat, p: Modulus) {
    && PowerOfTwo(N) && PowerOfTwo(2 * N)
    && |roots| == |invroots| == N && |roots2| == 2 * N
    && IsRootTable(roots, w * w, p) && IsRootTable(invroots, v, p) && IsRootTable(roots2, w, p)
    && Cong(v * (w * w), 1, p)
    && PrincipalRoot(w, 2 * N, p) && PrincipalRoot(w * w, N, p) && PrincipalRoot(v, N, p)
  }

  lemma TableRoots(c: Params, N: nat, roots: seq<int>, invroots: seq<int>, roots2: seq<int>) returns (w: int, v: int)
    requires c.Valid() && c.Supports(N) && AreTables(roots, invroots, roots2, N, c)
    ensures Enumerate(roots, invroots, roots2, w, v, N, c.p)
  {
    w := c.Root2(N);
    v :| Cong(v * (w * w), 1, c.p) && IsRootTable(invroots, v, c.p);
    Root2Principal(c, N);
    InversePrincipal(w * w, v, N, c.p);
  }

  method EvaluateOnRoots2(c: Params, tables: Tables, N: nat, points: array<int>) returns (evals: array<int>)
    requires c.Valid() && c.Supports(N) && tables.Valid(c) && tables.numRoots == N && points.Length == N
    ensures fresh(evals) && evals.Length == 2 * N
    ensures AreEvaluations(evals[..], Domain(c.p, tables.roots[..], tables.roots2[..]), points[..])
  {
    ghost var w, v := TableRoots(c, N, tables.roots[..], tables.invroots[..], tables.roots2[..]);
    evals := InterpolateAndExtend(c.p, tables.roots, tables.invroots, tables.roots2, N, points, w, v);
  }

  method InterpolateAndExtend(p: Modulus, ghost roots: array<int>, invroots: array<int>, roots2: array<int>, N: nat,
                              points: array<int>, ghost w: int, ghost v: int) returns (evals: array<int>)
    requires Prime(p) && p > 2 && Enumerate(roots[..], invroots[..], roots2[..], w, v, N, p) && points.Length == N
    ensures fresh(evals) && evals.Length == 2 * N
    ensures AreEvaluations(evals[..], Domain(p, roots[..], roots2[..]), points[..])
  {
    hide IsTransform, IsScaledTransform, PrincipalRoot, IsRootTable, AreEvaluations;
    assert invroots[..N] == invroots[..] && points[..N] == points[..];
    var poly := FftInterpolate(p, N, invroots, points, true, v);
    var padded := CopyPadded(poly, 2 * N);
    assert roots2[..2*N] == roots2[..] && padded[..2*N] == padded[..];
    evals := FftInterpolate(p, 2 * N, roots2, padded, false, w);
    EvaluationsCorrect(p, N, roots[..], invroots[..], roots2[..], w, v, points[..], poly[..], evals[..]);
  }

  lemma EvaluationsCorrect(p: Modulus, N: nat, roots: seq<int>, invroots: seq<int>, roots2: seq<int>, w: int, v: int,
                           points: seq<int>, poly: seq<int>, evals: seq<int>)
    requires Prime(p) && p > 2 && Enumerate(roots, invroots, roots2, w, v, N, p)
    requires |points| == N && IsScaledTransform(poly, points, v, p)
    requires IsTransform(evals, poly + Zeros(2 * N - N), w, p)
    ensures AreEvaluations(evals, Domain(p, roots, roots2), points)
  {
    hide Eval, Pow, PrincipalRoot, Prime, IsScaledTransform, Interpolant;
    InverseIsInterpolant(points, poly, roots, w * w, v, p);
    forall k | 0 <= k < 2 * N ensures Cong(evals[k], InterpolatedValue(roots, points, roots2[k], p), p) {
      EvalPadded(poly, N, Pow(w, k));
      assert Cong(roots2[k], Pow(w, k), p);
      EvalCong(poly, Interpolant(roots, points, p), Pow(w, k), roots2[k], p);
    }
  }

  // ---------- splitting ----------

  /** Splits every value; also the loop of `GetMulShares`. */
  method SplitAll(vals: seq<int>, p: Modulus) returns (a: seq<int>, b: seq<int>)
    ensures SharesOf(a, b, vals, p)
  {
    a, b := [], [];
    for i := 0 to |vals|
      invariant |a| == |b| == i
      invariant forall j :: 0 <= j < i ==> Cong(a[j] + b[j], vals[j], p)
    {
      var x, y := SplitShare(vals[i], p);
      a, b := a + [x], b + [y];
    }
  }

  /** h at the odd 2N-th roots. */
  method OddValues(evalsF: array<int>, evalsG: array<int>, N: nat, p: Modulus) returns (h: seq<int>)
    requires evalsF.Length == evalsG.Length == 2 * N
    ensures |h| == N && forall j :: 0 <= j < N ==> Cong(h[j], evalsF[2*j+1] * evalsG[2*j+1], p)
  {
    h := [];
    for j := 0 to N
      invariant |h| == j && forall i :: 0 <= i < j ==> Cong(h[i], evalsF[2*i+1] * evalsG[2*i+1], p)
    {
      MulModCong(evalsF[2*j+1], evalsG[2*j+1], p);
      h := h + [MulMod(evalsF[2*j+1], evalsG[2*j+1], p)];
    }
  }

  lemma OddProductsCorrect(dom: Domain, fs: seq<int>, gs: seq<int>, evalsF: seq<int>, evalsG: seq<int>, h: seq<int>,
                           j: nat)
    requires |fs| == |gs| == |dom.roots| && |dom.roots2| == 2 * |dom.roots| && |h| == |dom.roots| && j < |h|
    requires AreEvaluations(evalsF, dom, fs) && AreEvaluations(evalsG, dom, gs)
    requires Cong(h[j], evalsF[2*j+1] * evalsG[2*j+1], dom.p)
    ensures Cong(h[j], InterpolatedValue(dom.roots, fs, dom.roots2[2*j+1], dom.p)
                       * InterpolatedValue(dom.roots, gs, dom.roots2[2*j+1], dom.p), dom.p)
  {
    var x := dom.roots2[2*j+1];
    CongMul(evalsF[2*j+1], InterpolatedValue(dom.roots, fs, x, dom.p),
            evalsG[2*j+1], InterpolatedValue(dom.roots, gs, x, dom.p), dom.p);
  }

  ghost predicate AreOddProducts(h: seq<int>, dom: Domain, gates: seq<Gate>, w: seq<int>, f0: int, g0: int)
    requires Topological(gates) && |w| == |gates| && |MulPositions(gates)| < |dom.roots|
    requires |dom.roots2| == 2 * |dom.roots|
  {
    && |h| == |dom.roots|
    && forall j :: 0 <= j < |h| ==> Cong(h[j], ProductAt(dom, gates, w, f0, g0, dom.roots2[2*j+1]), dom.p)
  }

  lemma OddProductsAll(dom: Domain, gates: seq<Gate>, w: seq<int>, f0: int, g0: int,
                       evalsF: seq<int>, evalsG: seq<int>, h: seq<int>)
    requires Topological(gates) && |w| == |gates| && |MulPositions(gates)| < |dom.roots|
    requires |dom.roots2| == 2 * |dom.roots| && |h| == |dom.roots|
    requires AreEvaluations(evalsF, dom, PadPoints(f0, LeftWires(gates, w), |dom.roots|))
    requires AreEvaluations(evalsG, dom, PadPoints(g0, RightWires(gates, w), |dom.roots|))
    requires forall j :: 0 <= j < |h| ==> Cong(h[j], evalsF[2*j+1] * evalsG[2*j+1], dom.p)
    ensures AreOddProducts(h, dom, gates, w, f0, g0)
  {
    hide InterpolatedValue, LeftWires, RightWires, PadPoints, Cong;
    var fs, gs := LeftPoints(f0, gates, w, |dom.roots|), RightPoints(g0, gates, w, |dom.roots|);
    forall j | 0 <= j < |h| ensures Cong(h[j], ProductAt(dom, gates, w, f0, g0, dom.roots2[2*j+1]), dom.p) {
      OddProductsCorrect(dom, fs, gs, evalsF, evalsG, h, j);
    }
  }

  /** The points of h to be sent, from the wires and the values at the first root. */
  method HPoints(c: Params, tables: Tables, circuit: Circuit, u: int, v: int, N: nat) returns (h: seq<int>)
    requires c.Valid() && circuit.Valid() && c.Supports(N) && tables.Valid(c) && tables.numRoots == N
    requires |circuit.mulGates| < N
    ensures AreOddProducts(h, Domain(c.p, tables.roots[..], tables.roots2[..]), circuit.gates, circuit.wire, u, v)
  {
    hide LeftWires, RightWires, AreEvaluations, PadPoints, Prime, Cong, AreOddProducts;
    var pointsF := new int[N](_ => 0);
    var pointsG := new int[N](_ => 0);
    FillWirePoints(pointsF, u, LeftWires(circuit.gates, circuit.wire));
    FillWirePoints(pointsG, v, RightWires(circuit.gates, circuit.wire));
    var evalsF := EvaluateOnRoots2(c, tables, N, pointsF);
    var evalsG := EvaluateOnRoots2(c, tables, N, pointsG);
    h := OddValues(evalsF, evalsG, N, c.p);
    OddProductsAll(Domain(c.p, tables.roots[..], tables.roots2[..]), circuit.gates, circuit.wire, u, v,
                   evalsF[..], evalsG[..], h);
  }

  /** Splits f(0), g(0), h(0), the points of h, the multiplication wires and a fresh triple. */
  method FillPackets(p: Modulus, p0: ClientPacket, p1: ClientPacket, u: int, v: int, h: seq<int>, muls: seq<int>)
    requires p0 != p1
    modifies p0, p1
    ensures SharesOf(p0.hPoints, p1.hPoints, h, p) && SharesOf(p0.mulShares, p1.mulShares, muls, p)
    ensures Cong(p0.f0 + p1.f0, u, p) && Cong(p0.g0 + p1.g0, v, p) && Cong(p0.h0 + p1.h0, u * v, p)
    ensures IsTriple(p0.triple, p1.triple, p)
  {
    hide MulMod, IsTriple;
    var h0 := MulMod(u, v, p);
    MulModCong(u, v, p);
    var a, b := SplitAll(h, p);
    p0.hPoints, p1.hPoints := a, b;
    var x, y := SplitShare(u, p);
    p0.f0, p1.f0 := x, y;
    x, y := SplitShare(v, p);
    p0.g0, p1.g0 := x, y;
    x, y := SplitShare(h0, p);
    p0.h0, p1.h0 := x, y;
    a, b := SplitAll(muls, p);
    p0.mulShares, p1.mulShares := a, b;
    var t0, t1 := NewTripleShares(p);
    p0.triple, p1.triple := t0, t1;
  }

  lemma PacketsHonest(dom: Domain, gates: seq<Gate>, w: seq<int>, pk0: Packet, pk1: Packet, f0: int, g0: int,
                      h: seq<int>)
    requires Topological(gates) && |w| == |gates| && |MulPositions(gates)| < |dom.roots|
    requires |dom.roots2| == 2 * |dom.roots|
    requires AreOddProducts(h, dom, gates, w, f0, g0) && SharesOf(pk0.hPoints, pk1.hPoints, h, dom.p)
    requires SharesOf(pk0.mulShares, pk1.mulShares, Pick(w, MulPositions(gates)), dom.p)
    requires Cong(pk0.f0 + pk1.f0, f0, dom.p) && Cong(pk0.g0 + pk1.g0, g0, dom.p)
    requires Cong(pk0.h0 + pk1.h0, f0 * g0, dom.p) && IsTriple(pk0.triple, pk1.triple, dom.p)
    ensures HonestPackets(dom, gates, w, pk0, pk1, f0, g0)
  {
    hide ProductAt;
  }

  /** `share_polynomials`: fills both packets from an evaluated circuit. */
  method SharePolynomials(c: Params, tables: Tables, circuit: Circuit, p0: ClientPacket, p1: ClientPacket,
                          ghost N0: nat)
    returns (ghost f0: int, ghost g0: int)
    requires c.Valid() && circuit.Valid() && circuit.p == c.p && tables.Valid(c)
    requires |circuit.mulGates| < 0x8000_0000 && IsNextPower(|circuit.mulGates|, N0) && c.Supports(N0)
    // the tables are built here only when there are none
    requires tables.numRoots == 0 || tables.numRoots == N0
    requires p0 != p1
    modifies tables, p0, p1
    ensures tables.Valid(c) && tables.numRoots == N0
    ensures HonestPackets(Domain(c.p, tables.roots[..], tables.roots2[..]), circuit.gates, circuit.wire,
                          p0.View(), p1.View(), f0, g0)
  {
    hide AreOddProducts, Prime, Cong, HonestPackets;
    var n := |circuit.mulGates|;
    var N := NextPowerOfTwo(n);
    NextPowerUnique(n, N, N0);
    var u: int :| Reduced(u, c.p);
    var v: int :| Reduced(v, c.p);
    f0, g0 := u, v;
    if tables.roots == null {
      tables.InitRoots(c, N);
    }
    var h := HPoints(c, tables, circuit, u, v, N);
    FillPackets(c.p, p0, p1, u, v, h, Pick(circuit.wire, circuit.mulGates));
    PacketsHonest(Domain(c.p, tables.roots[..], tables.roots2[..]), circuit.gates, circuit.wire,
                  p0.View(), p1.View(), f0, g0, h);
  }
}
