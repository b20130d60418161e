/** Additive shares modulo p and Beaver triples: share.cpp and share.h. */
module Shares {
  import opened Modular
  import opened RootsOfUnity

  /** The smallest power of two above n. */
  ghost predicate IsNextPower(n: nat, N: nat) {
    PowerOfTwo(N) && n < N && (N == 1 || N / 2 <= n)
  }

  lemma NextPowerUnique(n: nat, N: nat, M: nat)
    requires IsNextPower(n, N) && IsNextPower(n, M)
    ensures N == M
  {
    if N < M {
      PowersGap(N, M);
    } else if M < N {
      PowersGap(M, N);
    }
  }

  /** The result fits an `unsigned int` exactly when n is below 2^31. */
  method NextPowerOfTwo(n: nat) returns (ans: nat)
    requires n < 0x8000_0000
    ensures IsNextPower(n, ans) && ans <= 0x8000_0000
  {
    ans := 1;
    ghost var k := 0;
    Pow2At31();
    while n + 1 > ans
      invariant 1 <= ans == Pow2(k) && k <= 31 && ans <= 0x8000_0000
      invariant ans == 1 || ans / 2 <= n
    {
      Pow2Monotone(k + 1, 31);
      ans := ans * 2;
      k := k + 1;
    }
    Pow2IsPowerOfTwo(k);
  }

  lemma {:induction false} Pow2Plus(a: nat, b: nat)
    ensures Pow2(a + b) == Pow2(a) * Pow2(b)
  {
    if a > 0 {
      Pow2Plus(a - 1, b);
      Assoc(2, Pow2(a - 1), Pow2(b));
    }
  }

  lemma Pow2At31()
    ensures Pow2(31) == 0x8000_0000
  {
    assert Pow2(2) == 4 by { assert Pow2(1) == 2; }
    Pow2Plus(2, 2);
    Pow2Plus(4, 4);
    Pow2Plus(8, 8);
    Pow2Plus(8, 4);
    Pow2Plus(12, 2);
    Pow2Plus(14, 1);
    Pow2Plus(16, 15);
  }

  lemma {:induction false} Pow2Monotone(a: nat, b: nat)
    requires a <= b
    ensures Pow2(a) <= Pow2(b)
    decreases b
  {
    if a < b {
      Pow2Monotone(a, b - 1);
    }
  }

  /** `SplitShare`: a random share and the rest. */
  method SplitShare(val: int, p: Modulus) returns (a: int, b: int)
    ensures Reduced(a, p) && Reduced(b, p) && Cong(a + b, val, p)
  {
    a :| Reduced(a, p);
    b := SubMod(val, a, p);
    SubModCong(val, a, p);
    CongAdd(a, a, b, val - a, p);
  }

  /** The splits are all pairs of reduced shares of the value. */
  lemma EverySplitOccurs(val: int, a: int, b: int, p: Modulus)
    requires Reduced(a, p) && Reduced(b, p) && Cong(a + b, val, p)
    ensures b == SubMod(val, a, p)
  {
    SubModCong(val, a, p);
    CongSub(a + b, val, a, a, p);
    ReducedEqual(b, SubMod(val, a, p), p);
  }

  /** a and b add to c, entry by entry. */
  ghost predicate SharesOf(a: seq<int>, b: seq<int>, c: seq<int>, p: Modulus) {
    |a| == |b| == |c| && forall i :: 0 <= i < |c| ==> Cong(a[i] + b[i], c[i], p)
  }

  datatype BeaverTripleShare = BeaverTripleShare(a: int, b: int, c: int)

  /** The two shares reconstruct a multiplication triple. */
  ghost predicate IsTriple(t0: BeaverTripleShare, t1: BeaverTripleShare, p: Modulus) {
    Cong((t0.a + t1.a) * (t0.b + t1.b), t0.c + t1.c, p)
  }

  /** `NewBeaverTriple` followed by `BeaverTripleShares`. */
  method NewTripleShares(p: Modulus) returns (t0: BeaverTripleShare, t1: BeaverTripleShare)
    ensures IsTriple(t0, t1, p)
  {
    var a: int :| Reduced(a, p);
    var b: int :| Reduced(b, p);
    var c := MulMod(a, b, p);
    var a0, a1 := SplitShare(a, p);
    var b0, b1 := SplitShare(b, p);
    var c0, c1 := SplitShare(c, p);
    t0, t1 := BeaverTripleShare(a0, b0, c0), BeaverTripleShare(a1, b1, c1);
    CongMul(a0 + a1, a, b0 + b1, b, p);
    MulModCong(a, b, p);
  }

  datatype CorShare = CorShare(d: int, e: int)

  /** `Cor`: the opened pair. */
  function OpenCor(x: CorShare, y: CorShare, p: Modulus): CorShare {
    CorShare(AddMod(x.d, y.d, p), AddMod(x.e, y.e, p))
  }
}
