/** What a passing SNIP check says about packets nobody vouches for. */
module SnipSoundness {
  import opened Modular
  import opened Poly
  import opened PolyOnce
  import opened Circuits
  import opened Shares
  import opened Snip
  import opened SnipTheorems

  /** At point r the two servers' `mulCheck` values add to zero. */
  ghost predicate MulChecksCancel(dom: Domain, s0: Side, s1: Side, r: int)
    requires dom.Valid() && s0.Fits(|dom.roots|) && s1.Fits(|dom.roots|)
  {
    exists e0: Evals, e1: Evals ::
      && EvalsOf(dom, s0, r, e0) && EvalsOf(dom, s1, r, e1)
      && var cor := OpenedCor(e0, e1, s0, s1, dom.p);
         Cong(MulCheckOf(0, cor, s0, e0, dom.p) + MulCheckOf(1, cor, s1, e1, dom.p), 0, dom.p)
  }

  /** The combined output wire of multiplication gate k is the product of its combined inputs. */
  ghost predicate GateMultiplies(gates: seq<Gate>, cw: seq<int>, k: nat, p: Modulus)
    requires Topological(gates) && |cw| == |gates| && k < |MulPositions(gates)|
  {
    Cong(LeftWires(gates, cw)[k] * RightWires(gates, cw)[k], cw[MulPositions(gates)[k]], p)
  }

  lemma CombinedPoints(dom: Domain, s0: Side, s1: Side)
    requires s0.Fits(|dom.roots|) && s1.Fits(|dom.roots|)
    ensures var N := |dom.roots|;
            PointsShared(dom, s0, s1, Combine(s0.F(N), s1.F(N), dom.p), Combine(s0.G(N), s1.G(N), dom.p),
                         Combine(s0.H(N), s1.H(N), dom.p))
  {
    hide PadPoints, ProductPoints, Combine;
    var N := |dom.roots|;
    CombineShares(s0.F(N), s1.F(N), dom.p);
    CombineShares(s0.G(N), s1.G(N), dom.p);
    CombineShares(s0.H(N), s1.H(N), dom.p);
  }

  /** Combined points at a multiplication gate are its combined wires. */
  lemma PointsAtGate(dom: Domain, gates: seq<Gate>, w0: seq<int>, w1: seq<int>, pk0: Packet, pk1: Packet, k: nat)
    requires dom.Valid() && Topological(gates) && |w0| == |w1| == |gates|
    requires WellSized(pk0, gates, |dom.roots|) && WellSized(pk1, gates, |dom.roots|) && k < |MulPositions(gates)|
    ensures var N, cw, s0, s1 := |dom.roots|, Combine(w0, w1, dom.p), SideOf(pk0, gates, w0), SideOf(pk1, gates, w1);
            && Combine(s0.F(N), s1.F(N), dom.p)[k+1] == LeftWires(gates, cw)[k]
            && Combine(s0.G(N), s1.G(N), dom.p)[k+1] == RightWires(gates, cw)[k]
            && Combine(s0.H(N), s1.H(N), dom.p)[2*(k+1)] == cw[MulPositions(gates)[k]]
  {
    hide AddMod;
    var i := MulPositions(gates)[k];
    MulOperands(gates, i);
  }

  /** A wrong multiplication gate shows at an even root. */
  lemma WrongGateShows(dom: Domain, gates: seq<Gate>, w0: seq<int>, w1: seq<int>, pk0: Packet, pk1: Packet, k: nat)
    requires dom.Valid() && Topological(gates) && |w0| == |w1| == |gates|
    requires WellSized(pk0, gates, |dom.roots|) && WellSized(pk1, gates, |dom.roots|) && k < |MulPositions(gates)|
    requires !GateMultiplies(gates, Combine(w0, w1, dom.p), k, dom.p)
    ensures var N, s0, s1 := |dom.roots|, SideOf(pk0, gates, w0), SideOf(pk1, gates, w1);
            var x := dom.roots2[2*(k+1)];
            !Cong(Combine(s0.H(N), s1.H(N), dom.p)[2*(k+1)],
                  InterpolatedValue(dom.roots, Combine(s0.F(N), s1.F(N), dom.p), x, dom.p)
                  * InterpolatedValue(dom.roots, Combine(s0.G(N), s1.G(N), dom.p), x, dom.p), dom.p)
  {
    hide LeftWires, RightWires, PadPoints, ProductPoints, Interpolant, Combine, Pick;
    var p, N, s0, s1 := dom.p, |dom.roots|, SideOf(pk0, gates, w0), SideOf(pk1, gates, w1);
    var fs, gs := Combine(s0.F(N), s1.F(N), p), Combine(s0.G(N), s1.G(N), p);
    PointsAtGate(dom, gates, w0, w1, pk0, pk1, k);
    InterpolantHits(dom.roots, fs, k + 1, p);
    InterpolantHits(dom.roots, gs, k + 1, p);
    var x := dom.roots[k+1];
    CongMul(InterpolatedValue(dom.roots, fs, x, p), fs[k+1], InterpolatedValue(dom.roots, gs, x, p), gs[k+1], p);
  }

  lemma CancelMeansTotal(dom: Domain, s0: Side, s1: Side, r: int)
    requires dom.Valid() && s0.Fits(|dom.roots|) && s1.Fits(|dom.roots|) && MulChecksCancel(dom, s0, s1, r)
    ensures var N := |dom.roots|;
            Cong(Total(dom, Combine(s0.F(N), s1.F(N), dom.p), Combine(s0.G(N), s1.G(N), dom.p),
                       Combine(s0.H(N), s1.H(N), dom.p), s0.triple, s1.triple, r), 0, dom.p)
  {
    hide Total, Combine, PadPoints, ProductPoints, MulCheck, EvalsAt, OpenCor, CorShareOf;
    var N, p := |dom.roots|, dom.p;
    var e0: Evals, e1: Evals :|
      && EvalsOf(dom, s0, r, e0) && EvalsOf(dom, s1, r, e1)
      && var cor := OpenedCor(e0, e1, s0, s1, p);
         Cong(MulCheckOf(0, cor, s0, e0, p) + MulCheckOf(1, cor, s1, e1, p), 0, p);
    CombinedPoints(dom, s0, s1);
    MulChecksTotal(dom, s0, s1, Combine(s0.F(N), s1.F(N), p), Combine(s0.G(N), s1.G(N), p),
                   Combine(s0.H(N), s1.H(N), p), r, e0.f, e0.g, e0.h, e1.f, e1.g, e1.h);
  }

  /** For any two packets, whatever their triple: if some combined multiplication gate
      is wrong, at most 2N points of Z_p make the mulCheck values cancel. */
  lemma SnipBound(dom: Domain, gates: seq<Gate>, w0: seq<int>, w1: seq<int>, pk0: Packet, pk1: Packet,
                  k: nat, S: set<int>)
    requires dom.Valid() && Topological(gates) && |w0| == |w1| == |gates|
    requires WellSized(pk0, gates, |dom.roots|) && WellSized(pk1, gates, |dom.roots|) && k < |MulPositions(gates)|
    requires !GateMultiplies(gates, Combine(w0, w1, dom.p), k, dom.p)
    requires forall r :: r in S ==>
      Reduced(r, dom.p) && MulChecksCancel(dom, SideOf(pk0, gates, w0), SideOf(pk1, gates, w1), r)
    ensures |S| <= 2 * |dom.roots|
  {
    hide Total, Combine, PadPoints, ProductPoints, MulChecksCancel, LeftWires, RightWires;
    var N, p, s0, s1 := |dom.roots|, dom.p, SideOf(pk0, gates, w0), SideOf(pk1, gates, w1);
    WrongGateShows(dom, gates, w0, w1, pk0, pk1, k);
    forall r | r in S
      ensures Cong(Total(dom, Combine(s0.F(N), s1.F(N), p), Combine(s0.G(N), s1.G(N), p),
                         Combine(s0.H(N), s1.H(N), p), s0.triple, s1.triple, r), 0, p)
    {
      CancelMeansTotal(dom, s0, s1, r);
    }
    BadPointsBounded(dom, Combine(s0.F(N), s1.F(N), p), Combine(s0.G(N), s1.G(N), p),
                     Combine(s0.H(N), s1.H(N), p), s0.triple, s1.triple, 2 * (k + 1), S);
  }

  // ---------- from correct gates to an accepted input ----------

  lemma CombinedGate(gates: seq<Gate>, i: nat, in0: seq<int>, in1: seq<int>, mul0: seq<int>, mul1: seq<int>,
                     w0: seq<int>, w1: seq<int>, p: Modulus)
    requires Imported(gates, in0, mul0, 0, w0, p) && Imported(gates, in1, mul1, 1, w1, p)
    requires |in0| == |in1| >= InputCount(gates) && i < |gates|
    requires gates[i].Mul? ==>
      Cong(Combine(w0, w1, p)[gates[i].l] * Combine(w0, w1, p)[gates[i].r], Combine(w0, w1, p)[i], p)
    ensures GateEvaluated(gates, i, Combine(in0, in1, p), Combine(w0, w1, p), p)
  {
    hide InputCount, MulPositions, MulMod, AddMod;
    var cw, cin, g := Combine(w0, w1, p), Combine(in0, in1, p), gates[i];
    assert ParentsBelow(g, i);
    assert GateImported(gates, i, in0, mul0, 0, w0, p) && GateImported(gates, i, in1, mul1, 1, w1, p);
    InputCountPrefix(gates, i);
    if !g.Input? {
      var a, b := InputCount(gates[..i]), |MulPositions(gates[..i])|;
      CombineShares(w0, w1, p);
      if g.Mul? {
        MulModCong(cw[g.l], cw[g.r], p);
      }
      CombinedNonInput(g, i, cw, w0, w1, At(in0, a), At(in1, a), At(mul0, b), At(mul1, b), p);
    }
  }

  lemma CombinedNonInput(g: Gate, i: nat, cw: seq<int>, w0: seq<int>, w1: seq<int>,
                         in0: int, in1: int, m0: int, m1: int, p: Modulus)
    requires SharesOf(w0, w1, cw, p) && AllReduced(cw, p) && i < |cw| && ParentsBelow(g, |cw|) && !g.Input?
    requires w0[i] == GateShare(g, w0, in0, m0, 0, p) && w1[i] == GateShare(g, w1, in1, m1, 1, p)
    requires g.Mul? ==> Cong(MulMod(cw[g.l], cw[g.r], p), cw[i], p)
    ensures forall inp :: cw[i] == GateValue(g, cw, inp, p)
  {
    hide MulMod, AddMod;
    GateShares(g, cw, w0, w1, 0, in0, in1, m0, m1, p);
    ReducedEqual(cw[i], GateValue(g, cw, 0, p), p);
  }

  /** If every combined multiplication gate is right, the combined wires are the
      circuit's values on the combined inputs. */
  lemma CombinedEvaluation(gates: seq<Gate>, in0: seq<int>, in1: seq<int>, mul0: seq<int>, mul1: seq<int>,
                           w0: seq<int>, w1: seq<int>, p: Modulus)
    requires Imported(gates, in0, mul0, 0, w0, p) && Imported(gates, in1, mul1, 1, w1, p)
    requires |in0| == |in1| >= InputCount(gates)
    requires forall k :: 0 <= k < |MulPositions(gates)| ==> GateMultiplies(gates, Combine(w0, w1, p), k, p)
    ensures Evaluated(gates, Combine(in0, in1, p), Combine(w0, w1, p), p)
  {
    forall i | 0 <= i < |gates| ensures GateEvaluated(gates, i, Combine(in0, in1, p), Combine(w0, w1, p), p) {
      hide Combine, InputCount, MulPositions, GateEvaluated;
      assert ParentsBelow(gates[i], i);
      if gates[i].Mul? {
        MulPositionsPrefix(gates, i);
        assert GateMultiplies(gates, Combine(w0, w1, p), |MulPositions(gates[..i])|, p);
      }
      CombinedGate(gates, i, in0, in1, mul0, mul1, w0, w1, p);
    }
  }

  /** Soundness: if the circuit rejects the combined input although every pair of
      zero-gate shares cancels, at most 2N points r let the mulCheck values cancel. */
  lemma Soundness(dom: Domain, gates: seq<Gate>, zeros: seq<nat>, in0: seq<int>, in1: seq<int>,
                  w0: seq<int>, w1: seq<int>, pk0: Packet, pk1: Packet, S: set<int>)
    requires dom.Valid() && |in0| == |in1| >= InputCount(gates)
    requires WellSized(pk0, gates, |dom.roots|) && WellSized(pk1, gates, |dom.roots|)
    requires Imported(gates, in0, pk0.mulShares, 0, w0, dom.p) && Imported(gates, in1, pk1.mulShares, 1, w1, dom.p)
    requires forall w :: Evaluated(gates, Combine(in0, in1, dom.p), w, dom.p) ==> !Accepting(zeros, w)
    requires forall k :: 0 <= k < |zeros| ==> zeros[k] < |gates| && Cong(w0[zeros[k]] + w1[zeros[k]], 0, dom.p)
    requires forall r :: r in S ==>
      Reduced(r, dom.p) && MulChecksCancel(dom, SideOf(pk0, gates, w0), SideOf(pk1, gates, w1), r)
    ensures |S| <= 2 * |dom.roots|
  {
    hide MulChecksCancel, LeftWires, RightWires, Evaluated;
    var cw := Combine(w0, w1, dom.p);
    if k :| 0 <= k < |MulPositions(gates)| && !GateMultiplies(gates, cw, k, dom.p) {
      SnipBound(dom, gates, w0, w1, pk0, pk1, k, S);
    } else {
      CombinedEvaluation(gates, in0, in1, pk0.mulShares, pk1.mulShares, w0, w1, dom.p);
      forall k | 0 <= k < |zeros| ensures cw[zeros[k]] == 0 {
        AddModCong(w0[zeros[k]], w1[zeros[k]], dom.p);
        ReducedEqual(cw[zeros[k]], 0, dom.p);
      }
      assert Accepting(zeros, cw);
    }
  }

  /** `randSum`: with a nonzero entry i in the combined vector, and all other
      coefficients fixed, at most one value of coefficient i lets the sum vanish. */
  lemma OneCoefficientPasses(v: seq<int>, t: seq<int>, u: seq<int>, i: nat, p: Modulus)
    requires Prime(p) && i < |v| <= |t| == |u| && !Cong(v[i], 0, p)
    requires (forall j :: 0 <= j < |t| && j != i ==> t[j] == u[j]) && Reduced(t[i], p) && Reduced(u[i], p)
    requires Cong(Dot(t, v), 0, p) && Cong(Dot(u, v), 0, p)
    ensures t == u
  {
    DotSensitive(t, u, v, i, p);
    CongSub(Dot(t, v), 0, Dot(u, v), 0, p);
    ZeroProduct(t[i] - u[i], v[i], p);
    CongZeroDifference(t[i], u[i], p);
    ReducedEqual(t[i], u[i], p);
  }
}
