/** Barycentric evaluation at one point, poly/poly_once.c. */
module PolyOnce {
  import opened Modular
  import opened Poly
  import opened PolyBatch

  /** The product loop of `precomp_x_init`. */
  method ProductOfDifferences(x: int, xs: seq<int>, p: Modulus) returns (prod: int)
    ensures Cong(prod, ProdDiff(xs, x), p)
  {
    prod := 1;
    for i := 0 to |xs|
      invariant Cong(prod * ProdDiff(xs[i..], x), ProdDiff(xs, x), p)
    {
      ProductStep(prod, x, xs, i, p);
      prod := MulMod(prod, x - xs[i], p);
    }
    assert ProdDiff(xs[|xs|..], x) == 1;
  }

  lemma ProductStep(prod: int, x: int, xs: seq<int>, i: nat, p: Modulus)
    requires i < |xs|
    ensures Cong(MulMod(prod, x - xs[i], p) * ProdDiff(xs[i+1..], x), prod * ProdDiff(xs[i..], x), p)
  {
    var rest := ProdDiff(xs[i+1..], x);
    assert xs[i..][1..] == xs[i+1..];
    MulModCong(prod, x - xs[i], p);
    CongMul(MulMod(prod, x - xs[i], p), prod * (x - xs[i]), rest, rest, p);
    Assoc(prod, x - xs[i], rest);
  }

  /** `short_x`: the first node equal to x, or -1. */
  method FindNode(x: int, xs: seq<int>) returns (shortX: int)
    ensures -1 <= shortX < |xs|
    ensures shortX == -1 <==> x !in xs
    ensures shortX >= 0 ==> xs[shortX] == x && forall k :: 0 <= k < shortX ==> xs[k] != x
  {
    for i := 0 to |xs|
      invariant x !in xs[..i]
    {
      if x == xs[i] {
        return i;
      }
    }
    return -1;
  }

  /** The coefficient of node i: s_i times the product of x - x_j over the other nodes. */
  ghost predicate IsCoefficients(cs: seq<int>, xs: seq<int>, x: int, p: Modulus) {
    |cs| == |xs| && forall i :: 0 <= i < |xs| ==> Cong(cs[i], Weight(xs, i, p) * ProdDiff(Without(xs, i), x), p)
  }

  function Coefficient(x: int, node: int, prod: int, s: int, p: Modulus): int {
    MulMod(MulMod(InvMod(SubMod(x, node, p), p), prod, p), s, p)
  }

  /** Away from the nodes, dividing the full product by x - x_i leaves the product over the others. */
  lemma CoefficientCorrect(x: int, xs: seq<int>, i: nat, prod: int, p: Modulus)
    requires i < |xs| && Prime(p) && !Cong(x, xs[i], p) && Cong(prod, ProdDiff(xs, x), p)
    ensures Cong(Coefficient(x, xs[i], prod, Weight(xs, i, p), p), Weight(xs, i, p) * ProdDiff(Without(xs, i), x), p)
  {
    hide Weight, InvMod, ProdDiff, MulMod;
    var d, rest := x - xs[i], ProdDiff(Without(xs, i), x);
    ProdDiffExtract(xs, i, x);
    CongZeroDifference(x, xs[i], p);
    DivideBack(SubMod(x, xs[i], p), d, rest, prod, p);
    TwoProducts(InvMod(SubMod(x, xs[i], p), p), prod, Weight(xs, i, p), rest, p);
  }

  lemma TwoProducts(inv: int, prod: int, s: int, rest: int, p: Modulus)
    requires Cong(inv * prod, rest, p)
    ensures Cong(MulMod(MulMod(inv, prod, p), s, p), s * rest, p)
  {
    MulModCong(inv, prod, p);
    MulModCong(MulMod(inv, prod, p), s, p);
    CongMul(MulMod(inv, prod, p), rest, s, s, p);
  }

  lemma DivideBack(dm: int, d: int, rest: int, prod: int, p: Modulus)
    requires Prime(p) && dm == d % p && !Cong(d, 0, p) && Cong(prod, d * rest, p)
    ensures Cong(InvMod(dm, p) * prod, rest, p)
  {
    CongMod(d, p);
    InvModCorrect(dm, p);
    var i := InvMod(dm, p);
    CongMul(i, i, prod, d * rest, p);
    CongMul(dm, d, i, i, p);
    CongMul(d * i, 1, rest, rest, p);
    assert i * (d * rest) == (d * i) * rest by {
      SwapLeft(i, d, rest);
      Assoc(d, i, rest);
    }
  }

  /** Mixed forms of a reduced x that is not a node. */
  lemma NotANode(x: int, xs: seq<int>, i: nat, p: Modulus)
    requires i < |xs| && Reduced(x, p) && AllReduced(xs, p) && x !in xs
    ensures !Cong(x, xs[i], p)
  {
    assert xs[i] in xs;
    if Cong(x, xs[i], p) {
      ReducedEqual(x, xs[i], p);
    }
  }

  method FillCoefficients(coeffs: array<int>, x: int, prod: int, xs: seq<int>, sPoints: seq<int>, p: Modulus)
    requires coeffs.Length == |xs| == |sPoints|
    modifies coeffs
    ensures forall i :: 0 <= i < coeffs.Length ==> coeffs[i] == Coefficient(x, xs[i], prod, sPoints[i], p)
  {
    for i := 0 to coeffs.Length
      invariant forall j :: 0 <= j < i ==> coeffs[j] == Coefficient(x, xs[j], prod, sPoints[j], p)
    {
      coeffs[i] := Coefficient(x, xs[i], prod, sPoints[i], p);
    }
  }

  lemma CoefficientsCorrect(cs: seq<int>, x: int, xs: seq<int>, prod: int, p: Modulus)
    requires Prime(p) && Reduced(x, p) && AllReduced(xs, p) && x !in xs && Cong(prod, ProdDiff(xs, x), p)
    requires |cs| == |xs| && forall i :: 0 <= i < |xs| ==> cs[i] == Coefficient(x, xs[i], prod, Weight(xs, i, p), p)
    ensures IsCoefficients(cs, xs, x, p)
  {
    hide Coefficient, Weight, ProdDiff;
    forall i | 0 <= i < |xs| ensures Cong(cs[i], Weight(xs, i, p) * ProdDiff(Without(xs, i), x), p) {
      NotANode(x, xs, i, p);
      CoefficientCorrect(x, xs, i, prod, p);
    }
  }

  lemma EvalTerm(cs: seq<int>, xs: seq<int>, ys: seq<int>, i: nat, x: int, out: int, p: Modulus)
    requires i < |xs| <= |ys| && IsCoefficients(cs, xs, x, p) && Cong(out, Eval(LagrangeTerms(xs, ys, i, p), x), p)
    ensures Cong(AddMod(out, MulMod(ys[i], cs[i], p), p), Eval(LagrangeTerms(xs, ys, i + 1, p), x), p)
  {
    hide Eval, LagrangeTerms, Weight, ProdDiff, MulMod, AddMod;
    var w, d := Weight(xs, i, p), ProdDiff(Without(xs, i), x);
    EvalLagrangeStep(xs, ys, i, x, p);
    MulModCong(ys[i], cs[i], p);
    CongMul(ys[i], ys[i], cs[i], w * d, p);
    Assoc(ys[i], w, d);
    CongAdd(out, Eval(LagrangeTerms(xs, ys, i, p), x), MulMod(ys[i], cs[i], p), ys[i] * w * d, p);
    AddModCong(out, MulMod(ys[i], cs[i], p), p);
  }

  /** The value at x of the polynomial of degree < |xs| through (xs[i], ys[i]). */
  ghost function InterpolatedValue(xs: seq<int>, ys: seq<int>, x: int, p: Modulus): int
    requires |xs| <= |ys|
  {
    Eval(Interpolant(xs, ys, p), x)
  }

  /** `precomp_x_t` together with the `precomp_t` it was built from; never changed
      after construction. */
  class PreX {
    const p: Modulus
    const x: int
    const nPoints: nat
    const shortX: int
    const coeffs: seq<int>
    ghost const xs: seq<int>

    ghost predicate Valid() {
      && nPoints == |xs| == |coeffs| && -1 <= shortX < nPoints
      && Prime(p) && DistinctMod(xs, p)
      && (if shortX >= 0 then xs[shortX] == x else IsCoefficients(coeffs, xs, x, p))
    }

    /** `precomp_x_init` */
    constructor (pre: Precomp, x: int)
      requires pre.Valid() && Prime(pre.p) && Reduced(x, pre.p)
      requires DistinctMod(pre.xPoints, pre.p) && AllReduced(pre.xPoints, pre.p)
      ensures Valid() && p == pre.p && this.x == x && xs == pre.xPoints
    {
      hide Coefficient, Weight, ProdDiff;
      p := pre.p;
      this.x := x;
      nPoints := pre.nPoints;
      xs := pre.xPoints;
      var short := FindNode(x, pre.xPoints);
      shortX := short;
      var cs := new int[pre.nPoints];
      var prod := ProductOfDifferences(x, pre.xPoints, pre.p);
      FillCoefficients(cs, x, prod, pre.xPoints, pre.sPoints, pre.p);
      coeffs := cs[..];
      if short == -1 {
        CoefficientsCorrect(cs[..], x, pre.xPoints, prod, pre.p);
      }
    }

    /** `precomp_x_eval` */
    method Eval(yValues: array<int>) returns (out: int)
      requires Valid() && nPoints <= yValues.Length
      ensures Cong(out, InterpolatedValue(xs, yValues[..], x, p), p)
    {
      hide IsCoefficients, LagrangeTerms, Prime, DistinctMod;
      ghost var ys := yValues[..];
      if shortX >= 0 {
        out := yValues[shortX];
        InterpolantHits(xs, ys, shortX, p);
        return;
      }
      out := 0;
      NoTerms(xs, ys, x, p);
      for i := 0 to nPoints
        invariant Cong(out, Poly.Eval(LagrangeTerms(xs, ys, i, p), x), p)
      {
        var tmp := MulMod(yValues[i], coeffs[i], p);
        EvalTerm(coeffs, xs, ys, i, x, out, p);
        out := AddMod(out, tmp, p);
      }
    }
  }

  lemma NoTerms(xs: seq<int>, ys: seq<int>, x: int, p: Modulus)
    requires |xs| <= |ys|
    ensures Eval(LagrangeTerms(xs, ys, 0, p), x) == 0
  {
  }

  // ---------- what the value means ----------

  /** It is the value of any polynomial of degree < n through the points. */
  lemma ValueOfAnyInterpolant(f: seq<int>, xs: seq<int>, ys: seq<int>, x: int, p: Modulus)
    requires Prime(p) && DistinctMod(xs, p) && |f| == |xs| <= |ys|
    requires forall i :: 0 <= i < |xs| ==> Cong(Eval(f, xs[i]), ys[i], p)
    ensures Cong(InterpolatedValue(xs, ys, x, p), Eval(f, x), p)
  {
    forall i | 0 <= i < |xs| ensures Cong(Eval(f, xs[i]), Eval(Interpolant(xs, ys, p), xs[i]), p) {
      InterpolantHits(xs, ys, i, p);
    }
    InterpolationUnique(f, Interpolant(xs, ys, p), xs, p);
    EvalCong(f, Interpolant(xs, ys, p), x, x, p);
  }

  /** Shares of the points give shares of the value. */
  lemma ValueAdditive(xs: seq<int>, ys0: seq<int>, ys1: seq<int>, ys: seq<int>, x: int, p: Modulus)
    requires Prime(p) && DistinctMod(xs, p) && |xs| <= |ys0| && |xs| <= |ys1| && |xs| <= |ys|
    requires forall i :: 0 <= i < |xs| ==> Cong(ys0[i] + ys1[i], ys[i], p)
    ensures Cong(InterpolatedValue(xs, ys0, x, p) + InterpolatedValue(xs, ys1, x, p), InterpolatedValue(xs, ys, x, p),
                 p)
  {
    var f0, f1 := Interpolant(xs, ys0, p), Interpolant(xs, ys1, p);
    var f := Plus(f0, f1);
    forall i | 0 <= i < |xs| ensures Cong(Eval(f, xs[i]), ys[i], p) {
      EvalPlus(f0, f1, xs[i]);
      InterpolantHits(xs, ys0, i, p);
      InterpolantHits(xs, ys1, i, p);
      CongAdd(Eval(f0, xs[i]), ys0[i], Eval(f1, xs[i]), ys1[i], p);
    }
    ValueOfAnyInterpolant(f, xs, ys, x, p);
    EvalPlus(f0, f1, x);
  }
}
