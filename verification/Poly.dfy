/**
 Polynomials over the field: a coefficient sequence, constant term first.  All
 operations here are exact over the integers, so that a statement about the
 field is a single congruence at the end.
 */
module Poly {
  import opened Modular
  import opened Sets

  // ---------- powers ----------

  function Pow(b: int, e: nat): int {
    if e == 0 then 1 else b * Pow(b, e - 1)
  }

  lemma {:induction false} PowAdd(b: int, m: nat, n: nat)
    ensures Pow(b, m + n) == Pow(b, m) * Pow(b, n)
  {
    if m > 0 {
      PowAdd(b, m - 1, n);
      Assoc(b, Pow(b, m - 1), Pow(b, n));
    }
  }

  lemma {:induction false} PowPow(b: int, m: nat, n: nat)
    ensures 0 <= m * n && Pow(Pow(b, m), n) == Pow(b, m * n)
  {
    if n > 0 {
      PowPow(b, m, n - 1);
      Distribute(m, n, 1);
      PowAdd(b, m, m * (n - 1));
    }
  }

  lemma PowExchange(v: int, j: nat, m: nat)
    ensures Pow(Pow(v, j), m) == Pow(Pow(v, m), j)
  {
    PowPow(v, j, m);
    PowPow(v, m, j);
    assert j * m == m * j;
  }

  lemma {:induction false} PowProduct(a: int, b: int, e: nat)
    ensures Pow(a * b, e) == Pow(a, e) * Pow(b, e)
  {
    if e > 0 {
      PowProduct(a, b, e - 1);
      MulSwap(a, b, Pow(a, e - 1), Pow(b, e - 1));
    }
  }

  lemma {:induction false} PowOne(e: nat)
    ensures Pow(1, e) == 1
  {
    if e > 0 {
      PowOne(e - 1);
    }
  }

  lemma {:induction false} PowNegOne(e: nat)
    ensures Pow(-1, e) == if e % 2 == 0 then 1 else -1
  {
    if e > 0 {
      PowNegOne(e - 1);
    }
  }

  lemma {:induction false} PowCong(a: int, b: int, e: nat, p: Modulus)
    requires Cong(a, b, p)
    ensures Cong(Pow(a, e), Pow(b, e), p)
  {
    if e > 0 {
      PowCong(a, b, e - 1, p);
      CongMul(a, b, Pow(a, e - 1), Pow(b, e - 1), p);
    }
  }

  // ---------- evaluation ----------

  function Eval(f: seq<int>, x: int): int {
    if f == [] then 0 else f[0] + x * Eval(f[1..], x)
  }

  /** Equal as polynomials over the field, with equal lengths. */
  ghost predicate SameMod(f: seq<int>, g: seq<int>, p: Modulus) {
    |f| == |g| && forall i :: 0 <= i < |f| ==> Cong(f[i], g[i], p)
  }

  ghost predicate ZeroMod(f: seq<int>, p: Modulus) {
    forall i :: 0 <= i < |f| ==> Cong(f[i], 0, p)
  }

  lemma SameModTrans(f: seq<int>, g: seq<int>, h: seq<int>, p: Modulus)
    requires SameMod(f, g, p) && SameMod(g, h, p)
    ensures SameMod(f, h, p)
  {
  }

  lemma {:induction false} EvalCong(f: seq<int>, g: seq<int>, x: int, y: int, p: Modulus)
    requires SameMod(f, g, p) && Cong(x, y, p)
    ensures Cong(Eval(f, x), Eval(g, y), p)
  {
    if f != [] {
      EvalCong(f[1..], g[1..], x, y, p);
      CongMul(x, y, Eval(f[1..], x), Eval(g[1..], y), p);
      CongAdd(f[0], g[0], x * Eval(f[1..], x), y * Eval(g[1..], y), p);
    }
  }

  lemma {:induction false} EvalZero(f: seq<int>, x: int, p: Modulus)
    requires ZeroMod(f, p)
    ensures Cong(Eval(f, x), 0, p)
  {
    if f != [] {
      EvalZero(f[1..], x, p);
      CongMul(x, x, Eval(f[1..], x), 0, p);
      CongAdd(f[0], 0, x * Eval(f[1..], x), 0, p);
    }
  }

  lemma {:induction false} EvalSplit(f: seq<int>, m: nat, x: int)
    requires m <= |f|
    ensures Eval(f, x) == Eval(f[..m], x) + Pow(x, m) * Eval(f[m..], x)
  {
    if m > 0 {
      EvalSplit(f[1..], m - 1, x);
      assert f[1..][..m-1] == f[..m][1..] && f[1..][m-1..] == f[m..];
      Distribute(x, Eval(f[1..][..m-1], x), Pow(x, m - 1) * Eval(f[m..], x));
      Assoc(x, Pow(x, m - 1), Eval(f[m..], x));
    }
  }

  lemma LastTerm(f: seq<int>, x: int)
    requires f != []
    ensures Eval(f, x) == Eval(f[..|f|-1], x) + f[|f|-1] * Pow(x, |f| - 1)
  {
    hide Eval, Pow;
    var m := |f| - 1;
    EvalSplit(f, m, x);
    assert f[m..] == [f[m]];
    EvalConstant(f[m], x);
  }

  lemma EvalConstant(c: int, x: int)
    ensures Eval([c], x) == c
  {
    assert [c][1..] == [];
  }

  // ---------- ring operations ----------

  function Plus(f: seq<int>, g: seq<int>): (r: seq<int>)
    ensures |r| == if |f| >= |g| then |f| else |g|
  {
    if f == [] then g else if g == [] then f else [f[0] + g[0]] + Plus(f[1..], g[1..])
  }

  function Scale(c: int, f: seq<int>): (r: seq<int>)
    ensures |r| == |f| && forall i :: 0 <= i < |f| ==> r[i] == c * f[i]
  {
    if f == [] then [] else [c * f[0]] + Scale(c, f[1..])
  }

  /** (X - a) f */
  function TimesLinear(a: int, f: seq<int>): (r: seq<int>)
    ensures |r| == |f| + 1
  {
    Plus([0] + f, Scale(-a, f))
  }

  function Times(f: seq<int>, g: seq<int>): (r: seq<int>)
    ensures f != [] && g != [] ==> |r| == |f| + |g| - 1
  {
    if f == [] then [] else Plus(Scale(f[0], g), [0] + Times(f[1..], g))
  }

  lemma {:induction false} PlusAt(f: seq<int>, g: seq<int>)
    requires |f| == |g|
    ensures forall i :: 0 <= i < |f| ==> Plus(f, g)[i] == f[i] + g[i]
  {
    if f != [] {
      PlusAt(f[1..], g[1..]);
    }
  }

  lemma {:induction false} EvalPlus(f: seq<int>, g: seq<int>, x: int)
    ensures Eval(Plus(f, g), x) == Eval(f, x) + Eval(g, x)
  {
    if f != [] && g != [] {
      EvalPlus(f[1..], g[1..], x);
      Distribute(x, Eval(f[1..], x), Eval(g[1..], x));
    }
  }

  lemma {:induction false} EvalScale(c: int, f: seq<int>, x: int)
    ensures Eval(Scale(c, f), x) == c * Eval(f, x)
  {
    if f != [] {
      EvalScale(c, f[1..], x);
      Distribute(c, f[0], x * Eval(f[1..], x));
      SwapLeft(c, x, Eval(f[1..], x));
    }
  }

  lemma Difference(x: int, a: int, s: int)
    ensures x * s + (-a) * s == (x - a) * s
  {
  }

  lemma EvalTimesLinear(a: int, f: seq<int>, x: int)
    ensures Eval(TimesLinear(a, f), x) == (x - a) * Eval(f, x)
  {
    EvalPlus([0] + f, Scale(-a, f), x);
    EvalScale(-a, f, x);
    Difference(x, a, Eval(f, x));
  }

  lemma {:induction false} EvalTimes(f: seq<int>, g: seq<int>, x: int)
    ensures Eval(Times(f, g), x) == Eval(f, x) * Eval(g, x)
  {
    if f != [] {
      EvalScale(f[0], g, x);
      Distribute(Eval(g, x), f[0], x * Eval(f[1..], x));
      EvalTimes(f[1..], g, x);
      EvalPlus(Scale(f[0], g), [0] + Times(f[1..], g), x);
      Assoc(x, Eval(f[1..], x), Eval(g, x));
    }
  }

  // ---------- ring laws on coefficient sequences ----------

  lemma {:induction false} PlusComm(f: seq<int>, g: seq<int>)
    ensures Plus(f, g) == Plus(g, f)
  {
    if f != [] && g != [] {
      PlusComm(f[1..], g[1..]);
    }
  }

  lemma {:induction false} PlusAssoc(f: seq<int>, g: seq<int>, h: seq<int>)
    ensures Plus(Plus(f, g), h) == Plus(f, Plus(g, h))
  {
    if f != [] && g != [] && h != [] {
      PlusAssoc(f[1..], g[1..], h[1..]);
    }
  }

  /** (a + b) + (c + d) = (a + c) + (b + d) */
  lemma PlusExchange(a: seq<int>, b: seq<int>, c: seq<int>, d: seq<int>)
    ensures Plus(Plus(a, b), Plus(c, d)) == Plus(Plus(a, c), Plus(b, d))
  {
    PlusAssoc(a, b, Plus(c, d));
    PlusAssoc(b, c, d);
    PlusComm(b, c);
    PlusAssoc(c, b, d);
    PlusAssoc(a, c, Plus(b, d));
  }

  lemma {:induction false} ScaleSum(a: int, b: int, f: seq<int>)
    ensures Scale(a + b, f) == Plus(Scale(a, f), Scale(b, f))
  {
    if f != [] {
      ScaleSum(a, b, f[1..]);
      Distribute(f[0], a, b);
    }
  }

  lemma {:induction false} ScalePlus(c: int, f: seq<int>, g: seq<int>)
    ensures Scale(c, Plus(f, g)) == Plus(Scale(c, f), Scale(c, g))
  {
    if f != [] && g != [] {
      ScalePlus(c, f[1..], g[1..]);
      Distribute(c, f[0], g[0]);
    }
  }

  lemma ScaleScale(a: int, b: int, f: seq<int>)
    ensures Scale(a, Scale(b, f)) == Scale(a * b, f)
  {
    forall i | 0 <= i < |f| ensures a * (b * f[i]) == a * b * f[i] {
      Assoc(a, b, f[i]);
    }
  }

  lemma {:induction false} TimesPlus(f: seq<int>, g: seq<int>, h: seq<int>)
    ensures Times(Plus(f, g), h) == Plus(Times(f, h), Times(g, h))
  {
    if f != [] && g != [] {
      TimesPlus(f[1..], g[1..], h);
      ScaleSum(f[0], g[0], h);
      PlusExchange(Scale(f[0], h), Scale(g[0], h), [0] + Times(f[1..], h), [0] + Times(g[1..], h));
    }
  }

  lemma {:induction false} TimesScale(c: int, f: seq<int>, g: seq<int>)
    ensures Times(Scale(c, f), g) == Scale(c, Times(f, g))
  {
    if f != [] {
      TimesScale(c, f[1..], g);
      ScalePlus(c, Scale(f[0], g), [0] + Times(f[1..], g));
      ScaleScale(c, f[0], g);
      assert Scale(c, [0] + Times(f[1..], g)) == [0] + Scale(c, Times(f[1..], g));
    }
  }

  lemma {:induction false} PlusZeros(z: seq<int>, f: seq<int>)
    requires |z| <= |f| && forall i :: 0 <= i < |z| ==> z[i] == 0
    ensures Plus(z, f) == f
  {
    if z != [] {
      PlusZeros(z[1..], f[1..]);
    }
  }

  lemma TimesShift(f: seq<int>, g: seq<int>)
    requires f != [] && g != []
    ensures Times([0] + f, g) == [0] + Times(f, g)
  {
    assert ([0] + f)[1..] == f;
    PlusZeros(Scale(0, g), [0] + Times(f, g));
  }

  lemma TimesUnit(g: seq<int>)
    requires g != []
    ensures Times([1], g) == g
  {
    assert [1][1..] == [];
    assert Scale(1, g) == g;
    PlusZeros([0], g);
    PlusComm([0], g);
  }

  lemma TimesLinearTimes(a: int, f: seq<int>, g: seq<int>)
    requires f != [] && g != []
    ensures Times(TimesLinear(a, f), g) == TimesLinear(a, Times(f, g))
  {
    TimesPlus([0] + f, Scale(-a, f), g);
    TimesShift(f, g);
    TimesScale(-a, f, g);
  }

  // ---------- derivative ----------

  function Derivative(f: seq<int>): (d: seq<int>)
    ensures |d| == if f == [] then 0 else |f| - 1
  {
    if f == [] then [] else seq(|f| - 1, i requires 0 <= i < |f| - 1 => (i + 1) * f[i+1])
  }

  /** The derivative at x, by the product rule for f = f[0] + X f[1..]. */
  function Slope(f: seq<int>, x: int): int {
    if f == [] then 0 else Eval(f[1..], x) + x * Slope(f[1..], x)
  }

  lemma {:induction false} SlopeIsDerivative(f: seq<int>, x: int)
    ensures Slope(f, x) == Eval(Derivative(f), x)
  {
    if |f| > 1 {
      SlopeIsDerivative(f[1..], x);
      DerivativeStep(f);
      EvalPlus(f[1..], [0] + Derivative(f[1..]), x);
    }
  }

  lemma DerivativeStep(f: seq<int>)
    requires |f| > 1
    ensures Derivative(f) == Plus(f[1..], [0] + Derivative(f[1..]))
  {
    hide Derivative;
    var a, b := f[1..], [0] + Derivative(f[1..]);
    PlusAt(a, b);
    forall i | 0 <= i < |a| ensures Derivative(f)[i] == a[i] + b[i] {
      DerivativeEntry(f, i);
    }
  }

  lemma DerivativeEntry(f: seq<int>, i: nat)
    requires i + 1 < |f|
    ensures Derivative(f)[i] == f[i+1] + ([0] + Derivative(f[1..]))[i]
  {
    var b := [0] + Derivative(f[1..]);
    if i > 0 {
      assert b[i] == Derivative(f[1..])[i-1] == i * f[1..][i];
    }
    OneMore(i, f[i+1]);
  }

  lemma OneMore(i: int, c: int)
    ensures (i + 1) * c == c + i * c
  {
  }

  lemma SlopeShift(f: seq<int>, x: int)
    ensures Slope([0] + f, x) == Eval(f, x) + x * Slope(f, x)
  {
    assert ([0] + f)[1..] == f;
  }

  lemma {:induction false} SlopePlus(f: seq<int>, g: seq<int>, x: int)
    ensures Slope(Plus(f, g), x) == Slope(f, x) + Slope(g, x)
  {
    if f != [] && g != [] {
      SlopePlus(f[1..], g[1..], x);
      EvalPlus(f[1..], g[1..], x);
      Distribute(x, Slope(f[1..], x), Slope(g[1..], x));
    }
  }

  lemma {:induction false} SlopeScale(c: int, f: seq<int>, x: int)
    ensures Slope(Scale(c, f), x) == c * Slope(f, x)
  {
    if f != [] {
      SlopeScale(c, f[1..], x);
      EvalScale(c, f[1..], x);
      Distribute(c, Eval(f[1..], x), x * Slope(f[1..], x));
      SwapLeft(c, x, Slope(f[1..], x));
    }
  }

  lemma SlopeTimesLinear(a: int, f: seq<int>, x: int)
    ensures Slope(TimesLinear(a, f), x) == Eval(f, x) + (x - a) * Slope(f, x)
  {
    SlopePlus([0] + f, Scale(-a, f), x);
    hide Slope, Eval, Plus, Scale;
    SlopeScale(-a, f, x);
    SlopeShift(f, x);
    Difference(x, a, Slope(f, x));
  }

  lemma {:induction false} SlopeCong(f: seq<int>, g: seq<int>, x: int, p: Modulus)
    requires SameMod(f, g, p)
    ensures Cong(Slope(f, x), Slope(g, x), p)
  {
    if f != [] {
      SlopeCong(f[1..], g[1..], x, p);
      EvalCong(f[1..], g[1..], x, x, p);
      CongMul(x, x, Slope(f[1..], x), Slope(g[1..], x), p);
      CongAdd(Eval(f[1..], x), Eval(g[1..], x), x * Slope(f[1..], x), x * Slope(g[1..], x), p);
    }
  }

  // ---------- roots ----------

  /** Quotient of f by (X - a). */
  function DivLinear(f: seq<int>, a: int): (q: seq<int>)
    ensures |q| == if f == [] then 0 else |f| - 1
  {
    if |f| <= 1 then [] else [Eval(f[1..], a)] + DivLinear(f[1..], a)
  }

  lemma DivLinearStep(x: int, a: int, q: int, r: int)
    ensures x * ((x - a) * q + r) == (x - a) * (r + x * q) + a * r
  {
    Distribute(x, (x - a) * q, r);
    Distribute(x - a, r, x * q);
    SwapLeft(x, x - a, q);
  }

  lemma {:induction false} EvalDivLinear(f: seq<int>, a: int, x: int)
    ensures Eval(f, x) == (x - a) * Eval(DivLinear(f, a), x) + Eval(f, a)
  {
    if |f| > 1 {
      EvalDivLinear(f[1..], a, x);
      DivLinearStep(x, a, Eval(DivLinear(f[1..], a), x), Eval(f[1..], a));
    } else if |f| == 1 {
      assert Eval(f[1..], x) == Eval(f[1..], a) == 0;
    }
  }

  lemma {:induction false} ZeroFromQuotient(f: seq<int>, a: int, p: Modulus)
    requires ZeroMod(DivLinear(f, a), p) && Cong(Eval(f, a), 0, p)
    ensures ZeroMod(f, p)
  {
    if |f| > 1 {
      var q := DivLinear(f, a);
      assert q[1..] == DivLinear(f[1..], a);
      assert Cong(q[0], 0, p);
      ZeroFromQuotient(f[1..], a, p);
      CongMul(a, a, q[0], 0, p);
      CongSub(Eval(f, a), 0, a * q[0], 0, p);
      assert forall i :: 1 <= i < |f| ==> f[i] == f[1..][i-1];
    } else if |f| == 1 {
      assert Eval(f[1..], a) == 0;
    }
  }

  ghost predicate DistinctMod(xs: seq<int>, p: Modulus) {
    forall i, j :: 0 <= i < j < |xs| ==> !Cong(xs[i], xs[j], p)
  }

  /** A finite set of field elements, listed without repetition. */
  ghost function Listed(S: set<int>): (xs: seq<int>)
    ensures |xs| == |S| && (forall i :: 0 <= i < |xs| ==> xs[i] in S)
    ensures forall i, j :: 0 <= i < j < |xs| ==> xs[i] != xs[j]
  {
    if S == {} then []
    else
      var x := Member(S);
      [x] + Listed(S - {x})
  }

  /** A polynomial with at least as many roots as coefficients is zero. */
  lemma {:induction false} TooManyRoots(f: seq<int>, xs: seq<int>, p: Modulus)
    requires Prime(p) && |f| <= |xs| && DistinctMod(xs, p)
    requires forall i :: 0 <= i < |xs| ==> Cong(Eval(f, xs[i]), 0, p)
    ensures ZeroMod(f, p)
    decreases |f|
  {
    if f != [] {
      var a := xs[0];
      var q := DivLinear(f, a);
      forall i | 0 <= i < |xs[1..]| ensures Cong(Eval(q, xs[1..][i]), 0, p) {
        var x := xs[i+1];
        EvalDivLinear(f, a, x);
        CongSub(Eval(f, x), 0, Eval(f, a), 0, p);
        ZeroProduct(x - a, Eval(q, x), p);
        CongZeroDifference(x, a, p);
        assert !Cong(xs[0], xs[i+1], p);
      }
      forall i, j | 0 <= i < j < |xs[1..]| ensures !Cong(xs[1..][i], xs[1..][j], p) {
        assert !Cong(xs[i+1], xs[j+1], p);
      }
      TooManyRoots(q, xs[1..], p);
      ZeroFromQuotient(f, a, p);
    }
  }

  // ---------- interpolation ----------

  /** Product of (x - r) over the given points. */
  function ProdDiff(rs: seq<int>, x: int): int {
    if rs == [] then 1 else (x - rs[0]) * ProdDiff(rs[1..], x)
  }

  /** The monic polynomial with the given roots. */
  function FromRoots(rs: seq<int>): (f: seq<int>)
    ensures |f| == |rs| + 1
  {
    if rs == [] then [1] else TimesLinear(rs[0], FromRoots(rs[1..]))
  }

  lemma {:induction false} EvalFromRoots(rs: seq<int>, x: int)
    ensures Eval(FromRoots(rs), x) == ProdDiff(rs, x)
  {
    if rs == [] {
      assert FromRoots(rs)[1..] == [];
    } else {
      EvalFromRoots(rs[1..], x);
      EvalTimesLinear(rs[0], FromRoots(rs[1..]), x);
    }
  }

  lemma {:induction false} FromRootsProduct(a: seq<int>, b: seq<int>)
    ensures FromRoots(a + b) == Times(FromRoots(a), FromRoots(b))
  {
    if a == [] {
      assert a + b == b;
      TimesUnit(FromRoots(b));
    } else {
      assert (a + b)[1..] == a[1..] + b;
      FromRootsProduct(a[1..], b);
      TimesLinearTimes(a[0], FromRoots(a[1..]), FromRoots(b));
    }
  }

  lemma {:induction false} FromRootsMonic(rs: seq<int>)
    ensures FromRoots(rs)[|rs|] == 1
  {
    if rs != [] {
      FromRootsMonic(rs[1..]);
      PlusTop([0] + FromRoots(rs[1..]), Scale(-rs[0], FromRoots(rs[1..])));
    }
  }

  lemma {:induction false} PlusTop(f: seq<int>, g: seq<int>)
    requires |g| < |f|
    ensures Plus(f, g)[|f|-1] == f[|f|-1]
  {
    if g != [] {
      PlusTop(f[1..], g[1..]);
    }
  }

  function Without(xs: seq<int>, i: nat): (r: seq<int>)
    requires i < |xs|
    ensures |r| == |xs| - 1
  {
    xs[..i] + xs[i+1..]
  }

  lemma {:induction false} ProdDiffZero(rs: seq<int>, k: nat)
    requires k < |rs|
    ensures ProdDiff(rs, rs[k]) == 0
  {
    if k > 0 {
      ProdDiffZero(rs[1..], k - 1);
    }
  }

  lemma {:induction false} ProdDiffNonZero(rs: seq<int>, x: int, p: Modulus)
    requires Prime(p) && forall i :: 0 <= i < |rs| ==> !Cong(x, rs[i], p)
    ensures !Cong(ProdDiff(rs, x), 0, p)
  {
    if rs != [] {
      ProdDiffNonZero(rs[1..], x, p);
      CongZeroDifference(x, rs[0], p);
      if Cong(ProdDiff(rs, x), 0, p) {
        ZeroProduct(x - rs[0], ProdDiff(rs[1..], x), p);
      }
    }
  }

  lemma SlopeFromRoots(xs: seq<int>, x: int)
    requires xs != []
    ensures Slope(FromRoots(xs), x) == ProdDiff(xs[1..], x) + (x - xs[0]) * Slope(FromRoots(xs[1..]), x)
  {
    SlopeTimesLinear(xs[0], FromRoots(xs[1..]), x);
    EvalFromRoots(xs[1..], x);
  }

  /** At its own root the derivative of the product is the product over the others. */
  lemma {:induction false} SlopeAtRoot(xs: seq<int>, i: nat)
    requires i < |xs|
    ensures Slope(FromRoots(xs), xs[i]) == ProdDiff(Without(xs, i), xs[i])
  {
    hide Slope, FromRoots, ProdDiff, Without;
    SlopeFromRoots(xs, xs[i]);
    if i == 0 {
      WithoutFirst(xs, Slope(FromRoots(xs[1..]), xs[0]));
    } else {
      SlopeAtRoot(xs[1..], i - 1);
      ProdDiffZero(xs[1..], i - 1);
      WithoutLater(xs, i, xs[i]);
    }
  }

  lemma WithoutFirst(xs: seq<int>, s: int)
    requires xs != []
    ensures Without(xs, 0) == xs[1..] && (xs[0] - xs[0]) * s == 0
  {
  }

  lemma WithoutLater(xs: seq<int>, i: nat, x: int)
    requires 0 < i < |xs|
    ensures ProdDiff(Without(xs, i), x) == (x - xs[0]) * ProdDiff(Without(xs[1..], i - 1), x)
  {
    assert Without(xs, i)[1..] == Without(xs[1..], i - 1);
  }

  /** Splitting off factor i. */
  lemma {:induction false} ProdDiffExtract(xs: seq<int>, i: nat, x: int)
    requires i < |xs|
    ensures ProdDiff(xs, x) == (x - xs[i]) * ProdDiff(Without(xs, i), x)
  {
    if i == 0 {
      assert Without(xs, 0) == xs[1..];
    } else {
      ProdDiffExtract(xs[1..], i - 1, x);
      assert Without(xs, i)[1..] == Without(xs[1..], i - 1);
      SwapLeft(x - xs[0], x - xs[i], ProdDiff(Without(xs[1..], i - 1), x));
    }
  }

  /** Barycentric weight of node i: the inverse of the product over the other nodes. */
  function Weight(xs: seq<int>, i: nat, p: Modulus): int
    requires i < |xs|
  {
    InvMod(ProdDiff(Without(xs, i), xs[i]), p)
  }

  lemma OthersDiffer(xs: seq<int>, i: nat, p: Modulus)
    requires i < |xs| && Prime(p) && DistinctMod(xs, p)
    ensures !Cong(ProdDiff(Without(xs, i), xs[i]), 0, p)
    ensures Cong(ProdDiff(Without(xs, i), xs[i]) * Weight(xs, i, p), 1, p)
  {
    var rs := Without(xs, i);
    forall j | 0 <= j < |rs| ensures !Cong(xs[i], rs[j], p) {
      assert rs[j] == if j < i then xs[j] else xs[j+1];
      assert j < i ==> !Cong(xs[j], xs[i], p);
      assert j >= i ==> !Cong(xs[i], xs[j+1], p);
    }
    ProdDiffNonZero(rs, xs[i], p);
    InvModCorrect(ProdDiff(rs, xs[i]), p);
  }

  /** The first m terms of the Lagrange form of the interpolating polynomial. */
  ghost function LagrangeTerms(xs: seq<int>, ys: seq<int>, m: nat, p: Modulus): (f: seq<int>)
    requires m <= |xs| <= |ys|
    ensures |f| == if m == 0 then 0 else |xs|
  {
    if m == 0 then []
    else Plus(LagrangeTerms(xs, ys, m - 1, p),
              Scale(ys[m-1] * Weight(xs, m - 1, p), FromRoots(Without(xs, m - 1))))
  }

  /** The polynomial of degree < |xs| through the points (xs[i], ys[i]). */
  ghost function Interpolant(xs: seq<int>, ys: seq<int>, p: Modulus): (f: seq<int>)
    requires |xs| <= |ys|
    ensures |f| == |xs|
  {
    LagrangeTerms(xs, ys, |xs|, p)
  }

  lemma EvalLagrangeStep(xs: seq<int>, ys: seq<int>, m: nat, x: int, p: Modulus)
    requires m < |xs| <= |ys|
    ensures Eval(LagrangeTerms(xs, ys, m + 1, p), x)
         == Eval(LagrangeTerms(xs, ys, m, p), x)
            + ys[m] * Weight(xs, m, p) * ProdDiff(Without(xs, m), x)
  {
    var c, f := ys[m] * Weight(xs, m, p), FromRoots(Without(xs, m));
    EvalPlus(LagrangeTerms(xs, ys, m, p), Scale(c, f), x);
    EvalScale(c, f, x);
    EvalFromRoots(Without(xs, m), x);
  }

  /** The i-th Lagrange term is ys[i] at node i and 0 at every other node. */
  lemma LagrangeTermAtNode(xs: seq<int>, y: int, i: nat, k: nat, p: Modulus)
    requires i < |xs| && k < |xs| && Prime(p) && DistinctMod(xs, p)
    ensures Cong(y * Weight(xs, i, p) * ProdDiff(Without(xs, i), xs[k]), if k == i then y else 0, p)
  {
    var w, d := Weight(xs, i, p), ProdDiff(Without(xs, i), xs[k]);
    if k == i {
      OthersDiffer(xs, i, p);
      CongMul(y, y, d * w, 1, p);
      assert y * (d * w) == y * w * d;
    } else {
      var j := if k < i then k else k - 1;
      assert Without(xs, i)[j] == xs[k];
      ProdDiffZero(Without(xs, i), j);
    }
  }

  lemma {:induction false} LagrangeTermsHit(xs: seq<int>, ys: seq<int>, m: nat, k: nat, p: Modulus)
    requires m <= |xs| <= |ys| && k < |xs| && Prime(p) && DistinctMod(xs, p)
    ensures Cong(Eval(LagrangeTerms(xs, ys, m, p), xs[k]), if k < m then ys[k] else 0, p)
  {
    if m > 0 {
      var i := m - 1;
      LagrangeTermsHit(xs, ys, i, k, p);
      EvalLagrangeStep(xs, ys, i, xs[k], p);
      LagrangeTermAtNode(xs, ys[i], i, k, p);
      CongAdd(Eval(LagrangeTerms(xs, ys, i, p), xs[k]), if k < i then ys[k] else 0,
              ys[i] * Weight(xs, i, p) * ProdDiff(Without(xs, i), xs[k]), if k == i then ys[i] else 0, p);
    }
  }

  lemma InterpolantHits(xs: seq<int>, ys: seq<int>, k: nat, p: Modulus)
    requires k < |xs| <= |ys| && Prime(p) && DistinctMod(xs, p)
    ensures Cong(Eval(Interpolant(xs, ys, p), xs[k]), ys[k], p)
  {
    LagrangeTermsHit(xs, ys, |xs|, k, p);
  }

  function Minus(f: seq<int>, g: seq<int>): (r: seq<int>)
    requires |f| == |g|
    ensures |r| == |f|
  {
    seq(|f|, i requires 0 <= i < |f| => f[i] - g[i])
  }

  lemma {:induction false} EvalMinus(f: seq<int>, g: seq<int>, x: int)
    requires |f| == |g|
    ensures Eval(Minus(f, g), x) == Eval(f, x) - Eval(g, x)
  {
    if f != [] {
      EvalMinus(f[1..], g[1..], x);
      assert Minus(f, g)[1..] == Minus(f[1..], g[1..]);
      Distribute(x, Eval(f[1..], x), Eval(g[1..], x));
    }
  }

  /** Two polynomials of the same length that agree on enough distinct points are equal. */
  lemma InterpolationUnique(f: seq<int>, g: seq<int>, xs: seq<int>, p: Modulus)
    requires Prime(p) && DistinctMod(xs, p) && |f| == |g| <= |xs|
    requires forall i :: 0 <= i < |xs| ==> Cong(Eval(f, xs[i]), Eval(g, xs[i]), p)
    ensures SameMod(f, g, p)
  {
    var d := Minus(f, g);
    forall i | 0 <= i < |xs| ensures Cong(Eval(d, xs[i]), 0, p) {
      EvalMinus(f, g, xs[i]);
      CongZeroDifference(Eval(f, xs[i]), Eval(g, xs[i]), p);
    }
    TooManyRoots(d, xs, p);
    forall i | 0 <= i < |f| ensures Cong(f[i], g[i], p) {
      assert Cong(d[i], 0, p);
      CongZeroDifference(f[i], g[i], p);
    }
  }
}
