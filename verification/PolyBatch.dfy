/** Product tree, remainder tree and barycentric weights of poly/poly_batch.c. */
module PolyBatch {
  import opened Modular
  import opened Poly

  // ---------- FLINT's polynomial operations modulo p ----------

  function ReduceAll(f: seq<int>, p: Modulus): (r: seq<int>)
    ensures |r| == |f| && SameMod(r, f, p)
  {
    if f == [] then []
    else
      CongMod(f[0], p);
      [f[0] % p] + ReduceAll(f[1..], p)
  }

  /** `fmpz_mod_poly_mul` */
  function PolyMul(f: seq<int>, g: seq<int>, p: Modulus): (r: seq<int>)
    ensures f != [] && g != [] ==> |r| == |f| + |g| - 1
  {
    ReduceAll(Times(f, g), p)
  }

  /** `fmpz_mod_poly_derivative` */
  function PolyDerivative(f: seq<int>, p: Modulus): (d: seq<int>)
    ensures |d| == if f == [] then 0 else |f| - 1
  {
    ReduceAll(Derivative(f), p)
  }

  ghost predicate Monic(g: seq<int>, p: Modulus) {
    g != [] && Cong(g[|g|-1], 1, p)
  }

  /** Subtracts lead * X^(|f|-|g|) * g from f, which cancels the leading term. */
  function CancelLead(f: seq<int>, g: seq<int>, p: Modulus): (r: seq<int>)
    requires g != [] && |f| >= |g|
    ensures |r| == |f| - 1
  {
    var n := |f| - 1;
    var d := |f| - |g|;
    seq(n, i requires 0 <= i < n => if i < d then f[i] else SubMod(f[i], f[n] * g[i-d], p))
  }

  /** `fmpz_mod_poly_rem` for a monic divisor. */
  function PolyRem(f: seq<int>, g: seq<int>, p: Modulus): (r: seq<int>)
    requires g != []
    ensures |r| < |g| || |r| == |f|
    ensures |r| < |g|
    decreases |f|
  {
    if |f| < |g| then f else PolyRem(CancelLead(f, g, p), g, p)
  }

  function Zeros(n: nat): (z: seq<int>)
    ensures |z| == n && forall i :: 0 <= i < n ==> z[i] == 0
  {
    seq(n, _ => 0)
  }

  lemma {:induction false} EvalShift(d: nat, g: seq<int>, x: int)
    ensures Eval(Zeros(d) + g, x) == Pow(x, d) * Eval(g, x)
  {
    if d == 0 {
      assert Zeros(0) + g == g;
    } else {
      EvalShift(d - 1, g, x);
      assert (Zeros(d) + g)[1..] == Zeros(d - 1) + g;
      Assoc(x, Pow(x, d - 1), Eval(g, x));
    }
  }

  lemma CancelLeadForm(f: seq<int>, g: seq<int>, p: Modulus)
    requires g != [] && |f| >= |g|
    ensures var d := |f| - |g|;
            SameMod(CancelLead(f, g, p), Minus(f[..|f|-1], Scale(f[|f|-1], Zeros(d) + g[..|g|-1])), p)
  {
    var n, d := |f| - 1, |f| - |g|;
    var r := Minus(f[..n], Scale(f[n], Zeros(d) + g[..|g|-1]));
    forall i | 0 <= i < n ensures Cong(CancelLead(f, g, p)[i], r[i], p) {
      if i >= d {
        SubModCong(f[i], f[n] * g[i-d], p);
      }
    }
  }

  /** At a root of a monic divisor, cancelling the leading term changes nothing. */
  lemma CancelLeadAtRoot(f: seq<int>, g: seq<int>, x: int, p: Modulus)
    requires Monic(g, p) && |f| >= |g| && Cong(Eval(g, x), 0, p)
    ensures Cong(Eval(CancelLead(f, g, p), x), Eval(f, x), p)
  {
    hide Pow, Eval, CancelLead, Minus, Scale, Zeros, SameMod;
    var n, d, m := |f| - 1, |f| - |g|, |g| - 1;
    var low, shifted := f[..n], Zeros(d) + g[..m];
    CancelLeadForm(f, g, p);
    EvalCong(CancelLead(f, g, p), Minus(low, Scale(f[n], shifted)), x, x, p);
    EvalMinus(low, Scale(f[n], shifted), x);
    EvalScale(f[n], shifted, x);
    EvalShift(d, g[..m], x);
    LastTerm(f, x);
    LastTerm(g, x);
    PowAdd(x, d, m);
    LeadCancels(f[n], g[m], Pow(x, d), Pow(x, m), Eval(g[..m], x), p);
    CongSub(Eval(low, x), Eval(low, x), f[n] * (Pow(x, d) * Eval(g[..m], x)), -(f[n] * Pow(x, n)), p);
  }

  lemma LeadCancels(c: int, lead: int, xd: int, xm: int, e: int, p: Modulus)
    requires Cong(lead, 1, p) && Cong(e + lead * xm, 0, p)
    ensures Cong(c * (xd * e), -(c * (xd * xm)), p)
  {
    CongMul(lead, 1, xm, xm, p);
    CongSub(e + lead * xm, 0, lead * xm, xm, p);
    CongMul(xd, xd, e, -xm, p);
    CongMul(c, c, xd * e, xd * -xm, p);
    assert c * (xd * -xm) == -(c * (xd * xm));
  }

  lemma {:induction false} RemAtRoot(f: seq<int>, g: seq<int>, x: int, p: Modulus)
    requires Monic(g, p) && Cong(Eval(g, x), 0, p)
    ensures Cong(Eval(PolyRem(f, g, p), x), Eval(f, x), p)
    decreases |f|
  {
    if |f| >= |g| {
      CancelLeadAtRoot(f, g, x, p);
      RemAtRoot(CancelLead(f, g, p), g, x, p);
    }
  }

  // ---------- product tree ----------

  /** `tree_s`: a node is written once, when the tree is built. */
  datatype Tree = Leaf(poly: seq<int>) | Node(poly: seq<int>, left: Tree, right: Tree)

  /** The tree over the given points, halved at n / 2. */
  ghost predicate IsTree(t: Tree, xs: seq<int>, p: Modulus)
    decreases |xs|
  {
    && xs != []
    && SameMod(t.poly, FromRoots(xs), p)
    && if |xs| == 1 then t.Leaf?
       else
         var k := |xs| / 2;
         t.Node? && IsTree(t.left, xs[..k], p) && IsTree(t.right, xs[k..], p)
  }

  lemma TreeShape(t: Tree, xs: seq<int>, p: Modulus)
    requires IsTree(t, xs, p)
    ensures xs != [] && |t.poly| == |xs| + 1
    ensures |xs| > 1 ==> t.Node? && IsTree(t.left, xs[..|xs|/2], p) && IsTree(t.right, xs[|xs|/2..], p)
  {
  }

  lemma TreeRoot(t: Tree, xs: seq<int>, p: Modulus)
    requires IsTree(t, xs, p)
    ensures Monic(t.poly, p) && |t.poly| == |xs| + 1
    ensures forall x :: Cong(Eval(t.poly, x), ProdDiff(xs, x), p)
    ensures forall i :: 0 <= i < |xs| ==> Cong(Eval(t.poly, xs[i]), 0, p)
  {
    FromRootsMonic(xs);
    forall x ensures Cong(Eval(t.poly, x), ProdDiff(xs, x), p) {
      EvalCong(t.poly, FromRoots(xs), x, x, p);
      EvalFromRoots(xs, x);
    }
    forall i | 0 <= i < |xs| ensures Cong(Eval(t.poly, xs[i]), 0, p) {
      ProdDiffZero(xs, i);
    }
  }

  lemma {:induction false} TimesCong(f: seq<int>, f': seq<int>, g: seq<int>, g': seq<int>, p: Modulus)
    requires SameMod(f, f', p) && SameMod(g, g', p)
    ensures SameMod(Times(f, g), Times(f', g'), p)
  {
    if f != [] {
      TimesCong(f[1..], f'[1..], g, g', p);
      forall i | 0 <= i < |g| ensures Cong(Scale(f[0], g)[i], Scale(f'[0], g')[i], p) {
        CongMul(f[0], f'[0], g[i], g'[i], p);
      }
      PlusCong(Scale(f[0], g), Scale(f'[0], g'), [0] + Times(f[1..], g), [0] + Times(f'[1..], g'), p);
    }
  }

  lemma {:induction false} PlusCong(f: seq<int>, f': seq<int>, g: seq<int>, g': seq<int>, p: Modulus)
    requires SameMod(f, f', p) && SameMod(g, g', p)
    ensures SameMod(Plus(f, g), Plus(f', g'), p)
  {
    if f != [] && g != [] {
      PlusCong(f[1..], f'[1..], g[1..], g'[1..], p);
      CongAdd(f[0], f'[0], g[0], g'[0], p);
    }
  }

  method TreeInit(p: Modulus, n: nat, pointsX: array<int>, o: nat) returns (t: Tree)
    requires n >= 1 && o + n <= pointsX.Length
    ensures IsTree(t, pointsX[o..o+n], p)
    decreases n
  {
    hide IsTree, PolyMul;
    ghost var xs := pointsX[o..o+n];
    if n == 1 {
      t := Leaf([SubMod(0, pointsX[o], p), 1]);
      LeafTree(xs[0], p);
      assert xs == [xs[0]];
      return;
    }
    var k := n / 2;
    var left := TreeInit(p, k, pointsX, o);
    var right := TreeInit(p, n - k, pointsX, o + k);
    t := Node(PolyMul(left.poly, right.poly, p), left, right);
    ghost var a, b := pointsX[o..o+k], pointsX[o+k..o+k+(n-k)];
    JoinTrees(left, right, a, b, p);
    assert xs == a + b;
  }

  lemma LeafTree(x: int, p: Modulus)
    ensures IsTree(Leaf([SubMod(0, x, p), 1]), [x], p)
  {
    assert [x][1..] == [];
    assert Scale(-x, [1]) == [-x];
    assert Plus([0, 1], [-x]) == [-x, 1] by {
      assert [0, 1][1..] == [1] && [-x][1..] == [];
    }
    assert [0] + [1] == [0, 1];
    SubModCong(0, x, p);
  }

  /** The product of two half trees. */
  lemma JoinTrees(left: Tree, right: Tree, a: seq<int>, b: seq<int>, p: Modulus)
    requires IsTree(left, a, p) && IsTree(right, b, p) && |a| == (|a| + |b|) / 2
    ensures IsTree(Node(PolyMul(left.poly, right.poly, p), left, right), a + b, p)
  {
    hide FromRoots, Times, SameMod;
    var xs := a + b;
    assert xs[..|a|] == a && xs[|a|..] == b;
    TimesCong(left.poly, FromRoots(a), right.poly, FromRoots(b), p);
    FromRootsProduct(a, b);
    SameModTrans(PolyMul(left.poly, right.poly, p), Times(left.poly, right.poly), FromRoots(xs), p);
  }

  // ---------- remainder tree ----------

  /** Values of f at every point. */
  ghost predicate IsValues(out: seq<int>, f: seq<int>, xs: seq<int>, p: Modulus) {
    |out| == |xs| && forall i :: 0 <= i < |xs| ==> Cong(out[i], Eval(f, xs[i]), p)
  }

  /** The values at the two halves of the points are the values at all of them. */
  lemma HalvesValues(ya: seq<int>, yb: seq<int>, f: seq<int>, t: Tree, xs: seq<int>, p: Modulus)
    requires |xs| > 1 && IsTree(t, xs, p) && t.left.poly != [] && t.right.poly != []
    requires IsValues(ya, PolyRem(f, t.left.poly, p), xs[..|xs|/2], p)
    requires IsValues(yb, PolyRem(f, t.right.poly, p), xs[|xs|/2..], p)
    ensures IsValues(ya + yb, f, xs, p)
  {
    hide PolyRem, IsValues, Monic, Eval, Cong, FromRoots;
    var a, b := xs[..|xs|/2], xs[|xs|/2..];
    RemainderValues(ya, f, t.left, a, p);
    RemainderValues(yb, f, t.right, b, p);
    JoinValues(ya, yb, f, a, b, p);
    assert xs == a + b;
  }

  method FastEvaluate(pointsY: array<int>, o: nat, poly: seq<int>, p: Modulus, t: Tree, n: nat, ghost xs: seq<int>)
    requires |xs| == n && IsTree(t, xs, p) && |poly| <= n && o + n <= pointsY.Length
    modifies pointsY
    ensures IsValues(pointsY[o..o+n], poly, xs, p)
    ensures forall i :: 0 <= i < pointsY.Length && !(o <= i < o + n) ==> pointsY[i] == old(pointsY[i])
    decreases n
  {
    hide IsTree, PolyRem, IsValues, Monic, Eval, Cong, FromRoots;
    TreeShape(t, xs, p);
    if n == 1 {
      pointsY[o] := if poly == [] then 0 else poly[0];
      ConstantValue(pointsY[o], poly, xs, p);
      assert pointsY[o..o+n] == [pointsY[o]];
      return;
    }
    var k := n / 2;
    ghost var a, b := xs[..k], xs[k..];
    TreeShape(t.left, a, p);
    TreeShape(t.right, b, p);
    var r0 := PolyRem(poly, t.left.poly, p);
    var r1 := PolyRem(poly, t.right.poly, p);
    FastEvaluate(pointsY, o, r0, p, t.left, k, a);
    ghost var ya := pointsY[o..o+k];
    FastEvaluate(pointsY, o + k, r1, p, t.right, n - k, b);
    ghost var yb := pointsY[o+k..o+k+(n-k)];
    assert pointsY[o..o+n] == ya + yb;
    HalvesValues(ya, yb, poly, t, xs, p);
  }

  lemma ConstantValue(y: int, f: seq<int>, xs: seq<int>, p: Modulus)
    requires |f| <= 1 == |xs| && y == if f == [] then 0 else f[0]
    ensures IsValues([y], f, xs, p)
  {
    if f != [] {
      assert f == [y];
      EvalConstant(y, xs[0]);
    }
  }

  /** Values of the remainder at the divisor's roots are values of the dividend. */
  lemma RemainderValues(out: seq<int>, f: seq<int>, t: Tree, xs: seq<int>, p: Modulus)
    requires IsTree(t, xs, p) && t.poly != [] && IsValues(out, PolyRem(f, t.poly, p), xs, p)
    ensures IsValues(out, f, xs, p)
  {
    TreeRoot(t, xs, p);
    forall i | 0 <= i < |xs| ensures Cong(out[i], Eval(f, xs[i]), p) {
      RemAtRoot(f, t.poly, xs[i], p);
    }
  }

  lemma JoinValues(ya: seq<int>, yb: seq<int>, f: seq<int>, a: seq<int>, b: seq<int>, p: Modulus)
    requires IsValues(ya, f, a, p) && IsValues(yb, f, b, p)
    ensures IsValues(ya + yb, f, a + b, p)
  {
  }

  // ---------- weights ----------

  /** `precomp_s`: filled by its constructor and never changed afterwards. */
  class Precomp {
    const p: Modulus
    const nPoints: nat
    const xPoints: seq<int>
    const sPoints: seq<int>

    ghost predicate Valid() {
      && |xPoints| == |sPoints| == nPoints >= 1
      && forall i :: 0 <= i < nPoints ==> sPoints[i] == Weight(xPoints, i, p)
    }

    /** `c_precomp_init`: the weights are the inverse derivatives of the root polynomial. */
    constructor (p: Modulus, n: nat, pointsX: array<int>)
      requires 1 <= n <= pointsX.Length
      ensures Valid() && this.p == p && nPoints == n && xPoints == pointsX[..n]
    {
      var weights := new int[n];
      FillWeights(p, n, pointsX, weights);
      this.p := p;
      nPoints := n;
      xPoints := pointsX[..n];
      sPoints := weights[..];
    }
  }

  /** Tree, derivative, values of the derivative, inverses. */
  method FillWeights(p: Modulus, n: nat, pointsX: array<int>, sPoints: array<int>)
    requires 1 <= n <= pointsX.Length && sPoints.Length == n && sPoints != pointsX
    modifies sPoints
    ensures forall i :: 0 <= i < n ==> sPoints[i] == Weight(pointsX[..n], i, p)
  {
    hide IsTree, IsValues, PolyDerivative, Weight;
    var t := TreeInit(p, n, pointsX, 0);
    ghost var xs := pointsX[..n];
    assert pointsX[0..0+n] == xs;
    TreeShape(t, xs, p);
    var deriv := PolyDerivative(t.poly, p);
    FastEvaluate(sPoints, 0, deriv, p, t, n, xs);
    ghost var ds := sPoints[..];
    assert sPoints[0..0+n] == ds;
    InvertAll(sPoints, p);
    forall i | 0 <= i < n ensures sPoints[i] == Weight(xs, i, p) {
      WeightAtNode(t, xs, i, ds, p);
    }
  }

  /** The inversion loop at the end of `c_precomp_init`. */
  method InvertAll(sPoints: array<int>, p: Modulus)
    modifies sPoints
    ensures forall i :: 0 <= i < sPoints.Length ==> sPoints[i] == InvMod(old(sPoints[i]), p)
  {
    for i := 0 to sPoints.Length
      invariant forall j :: 0 <= j < i ==> sPoints[j] == InvMod(old(sPoints[j]), p)
      invariant forall j :: i <= j < sPoints.Length ==> sPoints[j] == old(sPoints[j])
    {
      sPoints[i] := InvMod(sPoints[i], p);
    }
  }

  lemma WeightAtNode(t: Tree, xs: seq<int>, i: nat, ds: seq<int>, p: Modulus)
    requires IsTree(t, xs, p) && i < |xs| && IsValues(ds, PolyDerivative(t.poly, p), xs, p)
    ensures InvMod(ds[i], p) == Weight(xs, i, p)
  {
    hide InvMod, ProdDiff, Eval, FromRoots;
    DerivativeAtNode(t.poly, xs, i, p);
    InvModCong(ds[i], ProdDiff(Without(xs, i), xs[i]), p);
  }

  lemma DerivativeAtNode(f: seq<int>, xs: seq<int>, i: nat, p: Modulus)
    requires i < |xs| && SameMod(f, FromRoots(xs), p)
    ensures Cong(Eval(PolyDerivative(f, p), xs[i]), ProdDiff(Without(xs, i), xs[i]), p)
  {
    EvalCong(PolyDerivative(f, p), Derivative(f), xs[i], xs[i], p);
    SlopeIsDerivative(f, xs[i]);
    SlopeCong(f, FromRoots(xs), xs[i], p);
    SlopeAtRoot(xs, i);
  }
}
