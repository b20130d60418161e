/** Powers of two and the roots of unity the number-theoretic transform runs on. */
module RootsOfUnity {
  import opened Modular
  import opened Poly

  predicate PowerOfTwo(n: nat)
  {
    n == 1 || (n > 1 && n % 2 == 0 && PowerOfTwo(n / 2))
  }

  function Pow2(k: nat): (r: nat)
    ensures r > 0
  {
    if k == 0 then 1 else 2 * Pow2(k - 1)
  }

  lemma {:induction false} Pow2IsPowerOfTwo(k: nat)
    ensures PowerOfTwo(Pow2(k))
  {
    if k > 0 {
      Pow2IsPowerOfTwo(k - 1);
    }
  }

  /** There is no power of two strictly between N and 2N. */
  lemma {:induction false} PowersGap(N: nat, M: nat)
    requires PowerOfTwo(N) && PowerOfTwo(M) && N < M
    ensures 2 * N <= M
    decreases N
  {
    if N > 1 {
      PowersGap(N / 2, M / 2);
    }
  }

  /** w^(n/2) = -1, the hypothesis on `Int_Gen` (constants.h) seen from size n. */
  ghost predicate PrincipalRoot(w: int, n: nat, p: Modulus) {
    n > 1 ==> Cong(Pow(w, n / 2), -1, p)
  }

  ghost predicate IsRootTable(rs: seq<int>, w: int, p: Modulus) {
    forall i :: 0 <= i < |rs| ==> Cong(rs[i], Pow(w, i), p)
  }

  lemma SquarePower(w: int, k: nat)
    ensures Pow(w * w, k) == Pow(w, 2 * k)
  {
    PowPow(w, 2, k);
    assert Pow(w, 2) == w * w by { assert Pow(w, 1) == w; }
  }

  lemma PrincipalRootSquare(w: int, n: nat, p: Modulus)
    requires PowerOfTwo(n) && n > 1 && PrincipalRoot(w, n, p)
    ensures PrincipalRoot(w * w, n / 2, p)
  {
    SquarePower(w, n / 2 / 2);
  }

  lemma FullPower(w: int, n: nat, p: Modulus)
    requires PowerOfTwo(n) && n > 1 && PrincipalRoot(w, n, p)
    ensures Cong(Pow(w, n), 1, p)
  {
    PowAdd(w, n / 2, n / 2);
    CongMul(Pow(w, n / 2), -1, Pow(w, n / 2), -1, p);
  }

  lemma FullPowerMultiple(w: int, n: nat, k: nat, p: Modulus)
    requires PowerOfTwo(n) && n > 1 && PrincipalRoot(w, n, p)
    ensures Cong(Pow(Pow(w, k), n), 1, p)
  {
    FullPower(w, n, p);
    PowPow(w, k, n);
    PowPow(w, n, k);
    PowCong(Pow(w, n), 1, k, p);
    PowOne(k);
    assert k * n == n * k;
  }

  lemma OneIsNotMinusOne(p: Modulus)
    requires p > 2
    ensures !Cong(1, -1, p) && !Cong(-1, 1, p) && !Cong(2, 0, p)
  {
    if Cong(1, -1, p) {
      CongAdd(1, -1, 1, 1, p);
    }
    if Cong(2, 0, p) {
      ReducedEqual(2, 0, p);
    }
  }

  /** No smaller positive power is 1. */
  lemma {:induction false} OrderExact(w: int, n: nat, d: nat, p: Modulus)
    requires PowerOfTwo(n) && PrincipalRoot(w, n, p) && p > 2 && 0 < d < n
    ensures !Cong(Pow(w, d), 1, p)
    decreases n
  {
    OneIsNotMinusOne(p);
    if d % 2 == 1 {
      // (w^d)^(n/2) = (-1)^d = -1
      PowPow(w, d, n / 2);
      PowPow(w, n / 2, d);
      assert d * (n / 2) == (n / 2) * d;
      PowCong(Pow(w, n / 2), -1, d, p);
      PowNegOne(d);
      if Cong(Pow(w, d), 1, p) {
        PowCong(Pow(w, d), 1, n / 2, p);
        PowOne(n / 2);
      }
    } else {
      PrincipalRootSquare(w, n, p);
      OrderExact(w * w, n / 2, d / 2, p);
      SquarePower(w, d / 2);
    }
  }

  lemma {:induction false} PowNonZero(w: int, e: nat, p: Modulus)
    requires Prime(p) && !Cong(w, 0, p)
    ensures !Cong(Pow(w, e), 0, p)
  {
    if e == 0 {
      if Cong(1, 0, p) {
        ReducedEqual(1, 0, p);
      }
    } else {
      PowNonZero(w, e - 1, p);
      if Cong(Pow(w, e), 0, p) {
        ZeroProduct(w, Pow(w, e - 1), p);
      }
    }
  }

  lemma RootNonZero(w: int, n: nat, p: Modulus)
    requires PowerOfTwo(n) && n > 1 && PrincipalRoot(w, n, p) && p > 2
    ensures !Cong(w, 0, p)
  {
    OneIsNotMinusOne(p);
    if Cong(w, 0, p) {
      PowCong(w, 0, n / 2, p);
      CongAdd(-1, 0, 1, 1, p);
      ReducedEqual(1, 0, p);
    }
  }

  /** Distinct exponents below n give distinct powers. */
  lemma PowersDistinct(w: int, n: nat, i: nat, j: nat, p: Modulus)
    requires PowerOfTwo(n) && PrincipalRoot(w, n, p) && p > 2 && Prime(p) && i < j < n
    ensures !Cong(Pow(w, i), Pow(w, j), p)
  {
    if Cong(Pow(w, i), Pow(w, j), p) {
      PowAdd(w, i, j - i);
      RootNonZero(w, n, p);
      PowNonZero(w, i, p);
      Cancel(Pow(w, i), 1, Pow(w, j - i), p);
      OrderExact(w, n, j - i, p);
    }
  }

  lemma RootTableDistinct(rs: seq<int>, w: int, p: Modulus)
    requires PowerOfTwo(|rs|) && PrincipalRoot(w, |rs|, p) && p > 2 && Prime(p)
    requires IsRootTable(rs, w, p)
    ensures DistinctMod(rs, p)
  {
    forall i, j | 0 <= i < j < |rs| ensures !Cong(rs[i], rs[j], p) {
      PowersDistinct(w, |rs|, i, j, p);
    }
  }

  lemma {:induction false} PowerOfTwoNonZero(n: nat, p: Modulus)
    requires PowerOfTwo(n) && p > 2 && Prime(p)
    ensures !Cong(n, 0, p)
  {
    if n == 1 {
      if Cong(1, 0, p) {
        ReducedEqual(1, 0, p);
      }
    } else {
      PowerOfTwoNonZero(n / 2, p);
      OneIsNotMinusOne(p);
      if Cong(n, 0, p) {
        assert n == 2 * (n / 2);
        ZeroProduct(2, n / 2, p);
      }
    }
  }

  // ---------- orthogonality ----------

  function Ones(n: nat): (f: seq<int>)
    ensures |f| == n
  {
    seq(n, _ => 1)
  }

  lemma {:induction false} GeometricSum(z: int, n: nat)
    ensures (z - 1) * Eval(Ones(n), z) == Pow(z, n) - 1
  {
    if n > 0 {
      GeometricSum(z, n - 1);
      assert Ones(n)[1..] == Ones(n - 1);
      Distribute(z - 1, 1, z * Eval(Ones(n - 1), z));
      SwapLeft(z - 1, z, Eval(Ones(n - 1), z));
    }
  }

  lemma {:induction false} OnesAtOne(n: nat)
    ensures Eval(Ones(n), 1) == n
  {
    if n > 0 {
      OnesAtOne(n - 1);
      assert Ones(n)[1..] == Ones(n - 1);
    }
  }

  /** Sum over j < n of z^j vanishes when z^n = 1 and z is not 1. */
  lemma GeometricSumZero(z: int, n: nat, p: Modulus)
    requires Prime(p) && Cong(Pow(z, n), 1, p) && !Cong(z, 1, p)
    ensures Cong(Eval(Ones(n), z), 0, p)
  {
    GeometricSum(z, n);
    CongSub(Pow(z, n), 1, 1, 1, p);
    CongZeroDifference(z, 1, p);
    ZeroProduct(z - 1, Eval(Ones(n), z), p);
  }

  /** Multiplies coefficient i by w^i, so that Eval(Twist(f, w), x) = Eval(f, w x). */
  function Twist(f: seq<int>, w: int): (g: seq<int>)
    ensures |g| == |f|
  {
    if f == [] then [] else [f[0]] + Scale(w, Twist(f[1..], w))
  }

  lemma {:induction false} TwistAt(f: seq<int>, w: int, i: nat)
    requires i < |f|
    ensures Twist(f, w)[i] == f[i] * Pow(w, i)
  {
    if i > 0 {
      TwistAt(f[1..], w, i - 1);
      SwapLeft(w, f[i], Pow(w, i - 1));
    }
  }

  lemma {:induction false} EvalTwist(f: seq<int>, w: int, x: int)
    ensures Eval(Twist(f, w), x) == Eval(f, w * x)
  {
    if f != [] {
      EvalTwist(f[1..], w, x);
      EvalScale(w, Twist(f[1..], w), x);
      SwapLeft(x, w, Eval(f[1..], w * x));
      Assoc(w, x, Eval(f[1..], w * x));
    }
  }

  lemma InversePowers(w: int, v: int, e: nat, p: Modulus)
    requires Cong(v * w, 1, p)
    ensures Cong(Pow(v, e) * Pow(w, e), 1, p)
  {
    PowProduct(v, w, e);
    PowCong(v * w, 1, e, p);
    PowOne(e);
  }

  lemma RatioNotOne(w: int, v: int, n: nat, m: nat, k: nat, p: Modulus)
    requires PowerOfTwo(n) && PrincipalRoot(w, n, p) && p > 2 && Prime(p) && m < n && k < n && m != k
    requires Cong(v * w, 1, p)
    ensures !Cong(Pow(v, m) * Pow(w, k), 1, p)
  {
    var z := Pow(v, m) * Pow(w, k);
    if Cong(z, 1, p) {
      InversePowers(w, v, m, p);
      CongMul(z, 1, Pow(w, m), Pow(w, m), p);
      CongMul(Pow(v, m) * Pow(w, m), 1, Pow(w, k), Pow(w, k), p);
      assert z * Pow(w, m) == (Pow(v, m) * Pow(w, m)) * Pow(w, k) by {
        Assoc(Pow(v, m), Pow(w, k), Pow(w, m));
        Assoc(Pow(v, m), Pow(w, m), Pow(w, k));
      }
      PowersDistinct(w, n, if m < k then m else k, if m < k then k else m, p);
    }
  }

  /** Orthogonality: the sum over j of (v^m w^k)^j is n or 0. */
  lemma Orthogonality(w: int, v: int, n: nat, m: nat, k: nat, p: Modulus)
    requires PowerOfTwo(n) && PrincipalRoot(w, n, p) && p > 2 && Prime(p) && m < n && k < n
    requires Cong(v * w, 1, p)
    ensures Cong(Eval(Ones(n), Pow(v, m) * Pow(w, k)), if m == k then n else 0, p)
  {
    var z := Pow(v, m) * Pow(w, k);
    if m == k {
      InversePowers(w, v, m, p);
      EvalCong(Ones(n), Ones(n), z, 1, p);
      OnesAtOne(n);
    } else {
      ProductFullPower(w, v, n, m, k, p);
      RatioNotOne(w, v, n, m, k, p);
      GeometricSumZero(z, n, p);
    }
  }

  lemma ProductFullPower(w: int, v: int, n: nat, m: nat, k: nat, p: Modulus)
    requires PowerOfTwo(n) && n > 1 && PrincipalRoot(w, n, p) && Cong(v * w, 1, p)
    ensures Cong(Pow(Pow(v, m) * Pow(w, k), n), 1, p)
  {
    PowProduct(Pow(v, m), Pow(w, k), n);
    FullPowerMultiple(w, n, k, p);
    FullPowerMultiple(w, n, m, p);
    // v^(mn) = v^(mn) w^(mn) = 1
    InversePowers(w, v, m, p);
    InversePowers(Pow(w, m), Pow(v, m), n, p);
    CongMul(Pow(Pow(v, m), n), Pow(Pow(v, m), n), Pow(Pow(w, m), n), 1, p);
    CongMul(Pow(Pow(v, m), n), 1, Pow(Pow(w, k), n), 1, p);
  }
}
