/** How many random draws of the servers accept a submission that the circuit rejects. */
module SoundnessError {
  import opened Modular
  import opened Poly
  import opened Sets
  import Shares
  import opened Snip
  import opened SnipTheorems
  import opened VerdictSoundness

  // ---------- counting coefficient vectors ----------

  ghost predicate IsVector(t: seq<int>, m: nat, p: Modulus) {
    |t| == m && AllReduced(t, p)
  }

  /** The number with these digits, the lowest first. */
  function Digits(t: seq<int>, p: Modulus): int {
    if t == [] then 0 else t[0] + p * Digits(t[1..], p)
  }

  lemma {:induction false} DigitsBelow(t: seq<int>, p: Modulus)
    requires AllReduced(t, p)
    ensures 0 <= Digits(t, p) < Pow(p, |t|)
  {
    if t != [] {
      DigitsBelow(t[1..], p);
      assert Reduced(t[0], p);
      TopDigit(Digits(t[1..], p), Pow(p, |t| - 1), p);
    }
  }

  lemma TopDigit(d: int, m: int, p: Modulus)
    requires 0 <= d < m
    ensures 0 <= p * d <= p * m - p
  {
    AtMostTimes(d, m - 1, p);
    Commute(p, d);
    Distribute(p, m, 1);
    Commute(p, m - 1);
    AtMostTimes(0, d, p);
  }

  lemma LowDigit(a: int, b: int, d: int, e: int, p: Modulus)
    requires Reduced(a, p) && Reduced(b, p) && a + p * d == b + p * e
    ensures a == b && d == e
  {
    Distribute(p, d, e);
    Commute(p, d - e);
    SmallMultiple(d - e, p);
  }

  lemma {:induction false} DigitsDistinct(t: seq<int>, u: seq<int>, p: Modulus)
    requires |t| == |u| && AllReduced(t, p) && AllReduced(u, p) && Digits(t, p) == Digits(u, p)
    ensures t == u
  {
    if t != [] {
      var d, e := Digits(t[1..], p), Digits(u[1..], p);
      assert Reduced(t[0], p) && Reduced(u[0], p);
      LowDigit(t[0], u[0], d, e, p);
      DigitsDistinct(t[1..], u[1..], p);
      assert t == [t[0]] + t[1..] && u == [u[0]] + u[1..];
    }
  }

  /** There are at most p^m reduced vectors of length m. */
  lemma VectorCount(T: set<seq<int>>, m: nat, p: Modulus)
    requires forall t :: t in T ==> IsVector(t, m, p)
    ensures |T| <= Pow(p, m)
  {
    var f := t => Digits(t, p);
    forall t, u | t in T && u in T && f(t) == f(u) ensures t == u {
      DigitsDistinct(t, u, p);
    }
    ImageSize(T, f);
    forall x | x in Image(T, f) ensures 0 <= x < Pow(p, m) {
      var t :| t in T && x == f(t);
      DigitsBelow(t, p);
    }
    PowPositive(p, m);
    RangeSize(Image(T, f), Pow(p, m));
  }

  lemma {:induction false} PowPositive(p: Modulus, m: nat)
    ensures Pow(p, m) > 0
  {
    if m > 0 {
      PowPositive(p, m - 1);
      MulAtLeast(p, Pow(p, m - 1));
    }
  }

  /** At most p^(m-1) vectors, when any two that differ at most at i are equal. */
  lemma DeterminedCount(T: set<seq<int>>, m: nat, i: nat, p: Modulus)
    requires i < m && forall t :: t in T ==> IsVector(t, m, p)
    requires forall t, u :: t in T && u in T && DifferOnlyAt(t, u, i) ==> t == u
    ensures |T| <= Pow(p, m - 1)
  {
    var f := (t: seq<int>) requires i < |t| => Without(t, i);
    forall t, u | t in T && u in T && f(t) == f(u) ensures t == u {
      SameElsewhere(t, u, i);
    }
    ImageSize(T, f);
    forall x | x in Image(T, f) ensures IsVector(x, m - 1, p) {
      var t :| t in T && x == f(t);
    }
    VectorCount(Image(T, f), m - 1, p);
  }

  lemma SameElsewhere(t: seq<int>, u: seq<int>, i: nat)
    requires i < |t| == |u| && Without(t, i) == Without(u, i)
    ensures DifferOnlyAt(t, u, i)
  {
    forall j | 0 <= j < |t| && j != i ensures t[j] == u[j] {
      var k := if j < i then j else j - 1;
      assert Without(t, i)[k] == t[j] && Without(u, i)[k] == u[j];
    }
  }

  // ---------- one point ----------

  /** The servers' evaluations at r and the coefficients t accept. */
  ghost predicate AcceptedAt(s: Submission, dom: Domain, r: int, t: seq<int>)
    requires s.Valid(dom)
  {
    && IsVector(t, |s.zeros| + 1, dom.p)
    && exists e0: Evals, e1: Evals :: s.EvaluatedAt(dom, r, e0, e1) && s.AcceptedWith(dom, e0, e1, t)
  }

  lemma SameDifference(a: int, b: int, c: int, p: Modulus)
    requires Cong(a, b, p)
    ensures SubMod(a, c, p) == SubMod(b, c, p) && SubMod(c, a, p) == SubMod(c, b, p)
  {
    CongSub(a, b, c, c, p);
    CongSub(c, c, a, b, p);
  }

  lemma SameEvals(dom: Domain, x: Side, r: int, e: Evals, e': Evals)
    requires dom.Valid() && x.Fits(|dom.roots|) && EvalsOf(dom, x, r, e) && EvalsOf(dom, x, r, e')
    ensures Cong(e.f, e'.f, dom.p) && Cong(e.g, e'.g, dom.p) && Cong(e.h, e'.h, dom.p)
  {
  }

  /** All evaluations at one point give the same entries. */
  lemma SameEntries(s: Submission, dom: Domain, r: int, e0: Evals, e1: Evals, d0: Evals, d1: Evals)
    requires s.Valid(dom) && s.EvaluatedAt(dom, r, e0, e1) && s.EvaluatedAt(dom, r, d0, d1)
    ensures s.Entries(dom, e0, e1) == s.Entries(dom, d0, d1)
  {
    hide EvalsOf, Cong, MulMod, AddMod, SubMod, CheckVector;
    var s0, s1, p := SideOf(s.pk0, s.gates, s.w0), SideOf(s.pk1, s.gates, s.w1), dom.p;
    SameEvals(dom, s0, r, e0, d0);
    SameEvals(dom, s1, r, e1, d1);
    SameDifference(e0.f, d0.f, s0.triple.a, p);
    SameDifference(e0.g, d0.g, s0.triple.b, p);
    SameDifference(e1.f, d1.f, s1.triple.a, p);
    SameDifference(e1.g, d1.g, s1.triple.b, p);
    SameChecks(0, OpenedCor(e0, e1, s0, s1, p), s0, e0, d0, p);
    SameChecks(1, OpenedCor(e0, e1, s0, s1, p), s1, e1, d1, p);
  }

  lemma SameChecks(serverNum: int, cor: Shares.CorShare, x: Side, e: Evals, d: Evals, p: Modulus)
    requires Cong(e.h, d.h, p)
    ensures MulCheckOf(serverNum, cor, x, e, p) == MulCheckOf(serverNum, cor, x, d, p)
  {
    hide Cong, MulMod, AddMod, SubMod;
    var m0 := if serverNum == 0 then MulMod(cor.d, cor.e, p) else 0;
    var m1 := AddMod(m0, MulMod(cor.d, x.triple.b, p), p);
    var m2 := AddMod(m1, MulMod(cor.e, x.triple.a, p), p);
    SameDifference(e.h, d.h, AddMod(m2, x.triple.c, p), p);
  }

  lemma AcceptedWithAny(s: Submission, dom: Domain, r: int, t: seq<int>, e0: Evals, e1: Evals)
    requires s.Valid(dom) && AcceptedAt(s, dom, r, t) && s.EvaluatedAt(dom, r, e0, e1)
    ensures s.AcceptedWith(dom, e0, e1, t)
  {
    hide Submission.Valid, Submission.EvaluatedAt, Submission.AcceptedWith, Submission.Entries;
    var d0: Evals, d1: Evals :| s.EvaluatedAt(dom, r, d0, d1) && s.AcceptedWith(dom, d0, d1, t);
    SameEntries(s, dom, r, e0, e1, d0, d1);
    VerdictIsSum(s, dom, e0, e1, t);
    VerdictIsSum(s, dom, d0, d1, t);
  }

  /** At a point where some entry is not 0, at most p^|zeros| coefficient vectors are accepted. */
  lemma AcceptedVectors(s: Submission, dom: Domain, r: int, T: set<seq<int>>)
    requires s.Valid(dom) && !s.Vanishes(dom, r) && forall t :: t in T ==> AcceptedAt(s, dom, r, t)
    ensures |T| <= Pow(dom.p, |s.zeros|)
  {
    hide Submission.Valid, Submission.EvaluatedAt, Submission.AcceptedWith, Submission.Vanishes, Submission.Entries;
    PowPositive(dom.p, |s.zeros|);
    if T != {} {
      assert AcceptedAt(s, dom, r, Member(T));
      var e0: Evals, e1: Evals :| s.EvaluatedAt(dom, r, e0, e1);
      var i := OneVectorAccepted(s, dom, r, e0, e1);
      forall t, u | t in T && u in T && DifferOnlyAt(t, u, i) ensures t == u {
        AcceptedWithAny(s, dom, r, t, e0, e1);
        AcceptedWithAny(s, dom, r, u, e0, e1);
        assert BothAccepted(s, dom, e0, e1, t, u, i);
      }
      DeterminedCount(T, |s.zeros| + 1, i, dom.p);
    }
  }

  // ---------- points and vectors together ----------

  /** What the servers draw: a point and a coefficient for each entry. */
  datatype Draw = Draw(r: int, t: seq<int>)

  ghost predicate AcceptedDraw(s: Submission, dom: Domain, x: Draw)
    requires s.Valid(dom)
  {
    Reduced(x.r, dom.p) && AcceptedAt(s, dom, x.r, x.t)
  }

  /** The accepted draws whose point is r. */
  lemma DrawsAt(s: Submission, dom: Domain, P: set<Draw>, r: int)
    requires s.Valid(dom) && forall x :: x in P ==> x.r == r && AcceptedDraw(s, dom, x)
    ensures |P| <= Pow(dom.p, if s.Vanishes(dom, r) then |s.zeros| + 1 else |s.zeros|)
  {
    hide Submission.Valid, Submission.Vanishes;
    var f := (x: Draw) => x.t;
    ImageSize(P, f);
    var T := Image(P, f);
    if s.Vanishes(dom, r) {
      VectorCount(T, |s.zeros| + 1, dom.p);
    } else {
      AcceptedVectors(s, dom, r, T);
    }
  }

  ghost function Bad(s: Submission, dom: Domain, R: set<int>): (B: set<int>)
    requires s.Valid(dom)
  {
    set r | r in R && s.Vanishes(dom, r)
  }

  /** b p^(z+1) + (n - b) p^z for n points of which b are bad. */
  ghost function Bound(b: int, n: int, z: nat, p: Modulus): int {
    b * Pow(p, z + 1) + (n - b) * Pow(p, z)
  }

  lemma {:induction false} DrawsOver(s: Submission, dom: Domain, P: set<Draw>, R: set<int>)
    requires s.Valid(dom) && forall x :: x in P ==> x.r in R && AcceptedDraw(s, dom, x)
    ensures |P| <= Bound(|Bad(s, dom, R)|, |R|, |s.zeros|, dom.p)
    decreases |R|
  {
    hide Submission.Valid, Submission.Vanishes, AcceptedDraw, Bound, Bad, Pow;
    if R == {} {
      forall x ensures x !in P {
        assert x in P ==> x.r in R;
      }
      EmptyIfNone(P);
      NoneBad(s, dom);
    } else {
      var r := Member(R);
      var rest := R - {r};
      var here, others := set x | x in P && x.r == r, set x | x in P && x.r != r;
      DrawsOver(s, dom, others, rest);
      DrawsAt(s, dom, here, r);
      SplitSize(P, here, others);
      BadStep(s, dom, R, r);
      BoundStep(|Bad(s, dom, rest)|, |rest|, |s.zeros|, dom.p);
    }
  }

  lemma SplitSize(P: set<Draw>, here: set<Draw>, others: set<Draw>)
    requires P == here + others && here !! others
    ensures |P| == |here| + |others|
  {
  }

  lemma NoneBad(s: Submission, dom: Domain)
    requires s.Valid(dom)
    ensures Bad(s, dom, {}) == {} && Bound(|Bad(s, dom, {})|, 0, |s.zeros|, dom.p) == 0
  {
    hide Submission.Valid, Submission.Vanishes, Pow;
    assert Bad(s, dom, {}) == {};
  }

  lemma BadStep(s: Submission, dom: Domain, R: set<int>, r: int)
    requires s.Valid(dom) && r in R
    ensures |Bad(s, dom, R)| == |Bad(s, dom, R - {r})| + if s.Vanishes(dom, r) then 1 else 0
  {
    hide Submission.Valid, Submission.Vanishes;
    var bad := Bad(s, dom, R - {r});
    assert Bad(s, dom, R) == if s.Vanishes(dom, r) then bad + {r} else bad;
  }

  lemma BoundStep(b: int, n: int, z: nat, p: Modulus)
    ensures Bound(b + 1, n + 1, z, p) == Bound(b, n, z, p) + Pow(p, z + 1)
    ensures Bound(b, n + 1, z, p) == Bound(b, n, z, p) + Pow(p, z)
  {
    hide Pow;
    Distribute(Pow(p, z + 1), b, 1);
    Distribute(Pow(p, z), n - b, 1);
  }

  /**
   The soundness error: if the circuit rejects the combined input, then of all p^(|zeros| + 2) draws of
   a point and coefficients at most (2N + 1) p^(|zeros| + 1) accept it, whatever the packets.
   */
  lemma AcceptedDraws(s: Submission, dom: Domain, P: set<Draw>)
    requires s.Valid(dom) && s.Rejected(dom) && forall x :: x in P ==> AcceptedDraw(s, dom, x)
    ensures |P| <= (2 * |dom.roots| + 1) * Pow(dom.p, |s.zeros| + 1)
  {
    hide Submission.Valid, Submission.Vanishes, Submission.Rejected, AcceptedAt;
    var R := set x | x in P :: x.r;
    DrawsOver(s, dom, P, R);
    FewPointsVanish(s, dom, Bad(s, dom, R));
    RangeSize(R, dom.p);
    ErrorBound(|Bad(s, dom, R)|, |R|, 2 * |dom.roots|, |s.zeros|, dom.p);
  }

  lemma ErrorBound(b: nat, n: nat, m: nat, z: nat, p: Modulus)
    requires b <= m && n <= p
    ensures Bound(b, n, z, p) <= (m + 1) * Pow(p, z + 1)
  {
    PowPositive(p, z);
    PowPositive(p, z + 1);
    var q := Pow(p, z);
    Distribute(q, p, n - b);
    Distribute(Pow(p, z + 1), m, b);
    Distribute(Pow(p, z + 1), m, 1);
    AtMostTimes(n - b, p, q);
    AtMostTimes(b, m, Pow(p, z + 1));
  }

  lemma AtMostTimes(a: int, b: int, q: int)
    requires a <= b && q >= 0
    ensures a * q <= b * q
  {
    Distribute(q, b - a, a);
  }
}
