/**
 Arithmetic modulo `Int_Modulus`.  Field elements are plain integers which the
 program keeps reduced with `fmpz_mod`; the proofs compare them with the
 congruence `Cong`.
 */
module Modular {

  /** Any modulus; primality is a separate hypothesis where it is needed. */
  type Modulus = p: int | 2 <= p witness 2

  /** `a` and `b` leave the same (non-negative) remainder. */
  ghost predicate Cong(a: int, b: int, p: Modulus) {
    a % p == b % p
  }

  ghost predicate Prime(p: Modulus) {
    forall d :: 2 <= d < p ==> p % d != 0
  }

  /** The values `fmpz_mod` and `fmpz_randm` produce. */
  predicate Reduced(a: int, p: Modulus) {
    0 <= a < p
  }

  ghost predicate AllReduced(f: seq<int>, p: Modulus) {
    forall i :: 0 <= i < |f| ==> Reduced(f[i], p)
  }

  // ---------- ring identities, proved apart from everything else ----------

  lemma Commute(a: int, b: int)
    ensures a * b == b * a
  {
  }

  lemma Assoc(a: int, b: int, c: int)
    ensures a * (b * c) == (a * b) * c
  {
  }

  lemma SwapLeft(a: int, b: int, c: int)
    ensures a * (b * c) == b * (a * c)
  {
  }

  lemma MulSwap(a: int, b: int, c: int, d: int)
    ensures (a * b) * (c * d) == (a * c) * (b * d)
  {
    Assoc(a * b, c, d);
    Assoc(a * c, b, d);
  }

  lemma Distribute(x: int, a: int, b: int)
    ensures x * (a + b) == x * a + x * b
    ensures x * (a - b) == x * a - x * b
  {
  }

  // ---------- congruences ----------

  lemma MulAtLeast(d: int, p: int)
    requires d >= 1 && p >= 0
    ensures d * p >= p
  {
    assert d * p == p + (d - 1) * p;
  }

  lemma SmallMultiple(d: int, p: int)
    requires -p < d * p < p
    ensures d == 0
  {
    if d > 0 {
      MulAtLeast(d, p);
    } else if d < 0 {
      MulAtLeast(-d, p);
    }
  }

  lemma Multiple(a: int, k: int, p: Modulus)
    ensures (a + k * p) % p == a % p
  {
    var q, r := a / p, a % p;
    var q', r' := (a + k * p) / p, (a + k * p) % p;
    assert a == q * p + r && a + k * p == q' * p + r';
    assert (q' - q - k) * p == r - r' by {
      assert (q' - q - k) * p == q' * p - q * p - k * p;
    }
    SmallMultiple(q' - q - k, p);
  }

  lemma CongIntro(a: int, b: int, k: int, p: Modulus)
    requires a == b + k * p
    ensures Cong(a, b, p)
  {
    Multiple(b, k, p);
  }

  lemma CongWitness(a: int, b: int, p: Modulus) returns (k: int)
    requires Cong(a, b, p)
    ensures a == b + k * p
  {
    k := a / p - b / p;
    assert k * p == (a / p) * p - (b / p) * p;
  }

  lemma CongMod(a: int, p: Modulus)
    ensures Cong(a % p, a, p)
  {
    assert a == a % p + (a / p) * p;
    Multiple(a % p, a / p, p);
  }

  lemma ReducedEqual(a: int, b: int, p: Modulus)
    requires Reduced(a, p) && Reduced(b, p) && Cong(a, b, p)
    ensures a == b
  {
    var k := CongWitness(a, b, p);
    SmallMultiple(k, p);
  }

  lemma CongSymmetric(a: int, b: int, p: Modulus)
    requires Cong(a, b, p)
    ensures Cong(b, a, p)
  {
  }

  lemma CongTrans(a: int, b: int, c: int, p: Modulus)
    requires Cong(a, b, p) && Cong(b, c, p)
    ensures Cong(a, c, p)
  {
  }

  lemma CongAdd(a: int, b: int, c: int, d: int, p: Modulus)
    requires Cong(a, b, p) && Cong(c, d, p)
    ensures Cong(a + c, b + d, p)
  {
    var k := CongWitness(a, b, p);
    var l := CongWitness(c, d, p);
    assert k * p + l * p == (k + l) * p;
    CongIntro(a + c, b + d, k + l, p);
  }

  lemma CongSub(a: int, b: int, c: int, d: int, p: Modulus)
    requires Cong(a, b, p) && Cong(c, d, p)
    ensures Cong(a - c, b - d, p)
  {
    var k := CongWitness(a, b, p);
    var l := CongWitness(c, d, p);
    assert k * p - l * p == (k - l) * p;
    CongIntro(a - c, b - d, k - l, p);
  }

  lemma CongMul(a: int, b: int, c: int, d: int, p: Modulus)
    requires Cong(a, b, p) && Cong(c, d, p)
    ensures Cong(a * c, b * d, p)
  {
    var k := CongWitness(a, b, p);
    var l := CongWitness(c, d, p);
    calc {
      a * c;
      (b + k * p) * (d + l * p);
      b * d + b * (l * p) + (k * p) * d + (k * p) * (l * p);
      b * d + (b * l) * p + (k * d) * p + (k * l * p) * p;
      b * d + (b * l + k * d + k * l * p) * p;
    }
    CongIntro(a * c, b * d, b * l + k * d + k * l * p, p);
  }

  lemma CongScale(c: int, a: int, b: int, p: Modulus)
    requires Cong(a, b, p)
    ensures Cong(c * a, c * b, p)
  {
    CongMul(c, c, a, b, p);
  }

  // ---------- an operation followed by `fmpz_mod` ----------

  function AddMod(a: int, b: int, p: Modulus): (r: int)
    ensures Reduced(r, p)
  {
    (a + b) % p
  }

  function SubMod(a: int, b: int, p: Modulus): (r: int)
    ensures Reduced(r, p)
  {
    (a - b) % p
  }

  function MulMod(a: int, b: int, p: Modulus): (r: int)
    ensures Reduced(r, p)
  {
    (a * b) % p
  }

  lemma AddModCong(a: int, b: int, p: Modulus)
    ensures Cong(AddMod(a, b, p), a + b, p) && Cong(a + b, AddMod(a, b, p), p)
  {
    CongMod(a + b, p);
  }

  lemma SubModCong(a: int, b: int, p: Modulus)
    ensures Cong(SubMod(a, b, p), a - b, p) && Cong(a - b, SubMod(a, b, p), p)
  {
    CongMod(a - b, p);
  }

  lemma MulModCong(a: int, b: int, p: Modulus)
    ensures Cong(MulMod(a, b, p), a * b, p) && Cong(a * b, MulMod(a, b, p), p)
  {
    CongMod(a * b, p);
  }

  // ---------- inverses ----------

  function ExtendedGcd(a: nat, b: nat): (r: (nat, int, int))
    requires a > 0 || b > 0
    ensures r.0 > 0
    decreases b
  {
    if b == 0 then (a, 1, 0)
    else
      var (g, s, t) := ExtendedGcd(b, a % b);
      (g, t, s - (a / b) * t)
  }

  lemma BezoutStep(a: int, b: int, q: int, r: int, s: int, t: int)
    requires a == q * b + r
    ensures b * s + r * t == a * t + b * (s - q * t)
  {
    assert r * t == (a - q * b) * t == a * t - q * b * t;
  }

  lemma {:induction false} Bezout(a: nat, b: nat)
    requires a > 0 || b > 0
    ensures var (g, s, t) := ExtendedGcd(a, b); g == a * s + b * t
    decreases b
  {
    if b != 0 {
      Bezout(b, a % b);
      var (g, s, t) := ExtendedGcd(b, a % b);
      BezoutStep(a, b, a / b, a % b, s, t);
    }
  }

  lemma {:induction false} GcdDivides(a: nat, b: nat)
    requires a > 0 || b > 0
    ensures var g := ExtendedGcd(a, b).0; a % g == 0 && b % g == 0
    decreases b
  {
    if b != 0 {
      GcdDivides(b, a % b);
      DividesCombination(a, b, ExtendedGcd(b, a % b).0);
    }
  }

  lemma DividesCombination(a: nat, b: nat, g: nat)
    requires b > 0 && g > 0 && b % g == 0 && (a % b) % g == 0
    ensures a % g == 0
  {
    if g > 1 {
      assert a == (a / b) * b + a % b;
      CongMul(a / b, a / b, b, 0, g);
      CongAdd((a / b) * b, 0, a % b, 0, g);
    }
  }

  /** `fmpz_invmod`; the value for a non-invertible argument is never used. */
  function InvMod(a: int, p: Modulus): (r: int)
    ensures Reduced(r, p)
  {
    var (g, s, t) := ExtendedGcd(a % p, p);
    if g == 1 then s % p else 0
  }

  lemma CoprimeToPrime(a: int, p: Modulus)
    requires Prime(p) && 0 < a < p
    ensures var (g, s, t) := ExtendedGcd(a, p); g == 1 && 1 == a * s + p * t
  {
    Bezout(a, p);
    GcdDivides(a, p);
    DivisorBound(a, ExtendedGcd(a, p).0);
  }

  lemma InvModCorrect(a: int, p: Modulus)
    requires Prime(p) && !Cong(a, 0, p)
    ensures Cong(a * InvMod(a, p), 1, p)
  {
    var (g, s, t) := ExtendedGcd(a % p, p);
    CoprimeToPrime(a % p, p);
    CongMod(a, p);
    CongMod(s, p);
    CongMul(a, a % p, s % p, s, p);
    CongIntro((a % p) * s, 1, -t, p);
  }

  lemma InvModCong(a: int, b: int, p: Modulus)
    requires Cong(a, b, p)
    ensures InvMod(a, p) == InvMod(b, p)
  {
    hide ExtendedGcd;
  }

  lemma DivisorBound(a: nat, g: nat)
    requires a > 0 && g > 0 && a % g == 0
    ensures g <= a
  {
    MulAtLeast(a / g, g);
  }

  lemma Cancel(c: int, a: int, b: int, p: Modulus)
    requires Prime(p) && !Cong(c, 0, p) && Cong(c * a, c * b, p)
    ensures Cong(a, b, p)
  {
    var i := InvMod(c, p);
    InvModCorrect(c, p);
    CongMul(c * i, 1, a, a, p);
    CongMul(c * i, 1, b, b, p);
    CongMul(i, i, c * a, c * b, p);
    assert i * (c * a) == c * i * a && i * (c * b) == c * i * b;
  }

  lemma ZeroProduct(a: int, b: int, p: Modulus)
    requires Prime(p) && Cong(a * b, 0, p)
    ensures Cong(a, 0, p) || Cong(b, 0, p)
  {
    if !Cong(a, 0, p) {
      Cancel(a, b, 0, p);
    }
  }

  lemma CongZeroDifference(a: int, b: int, p: Modulus)
    ensures Cong(a - b, 0, p) <==> Cong(a, b, p)
  {
    if Cong(a - b, 0, p) {
      CongAdd(a - b, 0, b, b, p);
    }
    if Cong(a, b, p) {
      CongSub(a, b, b, b, p);
    }
  }
}
