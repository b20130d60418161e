/** The moments of the clients' data, and when they come out exactly. */
module LinRegMoments {
  import opened Modular
  import opened RootsOfUnity
  import opened Shares
  import opened Words
  import opened Rows
  import opened Permutations
  import opened LinReg
  import opened LinRegClients
  import VC = ValidCircuits

  // ---------- the moments of the clients' data ----------

  ghost predicate Shaped(samples: seq<Sample>, degree: nat) {
    forall k :: 0 <= k < |samples| ==> |samples[k].x| == degree - 1
  }

  ghost function SampleFeature(s: Sample, i: nat): nat
    requires i <= |s.x|
  {
    if i == 0 then 1 else s.x[i-1]
  }

  /** The sum over the first n clients of x_i x_j, where x_0 is 1. */
  ghost function SampleMoment(samples: seq<Sample>, degree: nat, i: nat, j: nat, n: nat): nat
    requires n <= |samples| && Shaped(samples, degree) && i < degree && j < degree
  {
    if n == 0 then 0 else
      SampleMoment(samples, degree, i, j, n - 1) + SampleFeature(samples[n-1], i) * SampleFeature(samples[n-1], j)
  }

  /** The sum over the first n clients of x_i y. */
  ghost function SampleTarget(samples: seq<Sample>, degree: nat, i: nat, n: nat): nat
    requires n <= |samples| && Shaped(samples, degree) && i < degree
  {
    if n == 0 then 0 else
      SampleTarget(samples, degree, i, n - 1) + SampleFeature(samples[n-1], i) * samples[n-1].y
  }

  /** v holds the encodings of the samples. */
  ghost predicate FromSamples(v: seq<int>, samples: seq<Sample>, degree: nat)
    requires degree >= 1
  {
    && Shaped(samples, degree) && |v| == RowStart(|samples|, VC.NumFields(degree))
    && forall k :: 0 <= k < |samples| ==> RowFromSample(v, samples[k], degree, k)
  }

  ghost predicate RowFromSample(v: seq<int>, s: Sample, degree: nat, k: nat)
    requires degree >= 1
  {
    var at := RowStart(k, VC.NumFields(degree));
    at + VC.NumFields(degree) <= |v| && IsEncoding(v[at..at+VC.NumFields(degree)], s.x, s.y, degree)
  }

  lemma FeatureOfSample(v: seq<int>, s: Sample, degree: nat, k: nat, i: nat)
    requires degree >= 1 && i < degree && RowFromSample(v, s, degree, k) && |s.x| == degree - 1
    requires RowStart(k + 1, VC.NumFields(degree)) <= |v|
    ensures Feature(v, degree, k, i) == SampleFeature(s, i) && Target(v, degree, k) == s.y
  {
    hide VC.NumFields, RowStart;
    FeaturesAgree(v, degree, k, i);
  }

  lemma {:induction false} MomentOfSamples(v: seq<int>, valid: seq<bool>, samples: seq<Sample>, degree: nat, i: nat,
                                           j: nat, n: nat)
    requires degree >= 1 && i < degree && j < degree && n <= |samples| == |valid| && FromSamples(v, samples, degree)
    requires forall k :: 0 <= k < |valid| ==> valid[k]
    ensures RowStart(n, VC.NumFields(degree)) <= |v|
    ensures Moment(v, valid, degree, i, j, n) == SampleMoment(samples, degree, i, j, n)
  {
    hide VC.NumFields, RowStart, RowFromSample, Feature, SampleFeature;
    if n < |samples| {
      RowsFit(n, |samples|, VC.NumFields(degree));
    }
    if n > 0 {
      MomentOfSamples(v, valid, samples, degree, i, j, n - 1);
      FeatureOfSample(v, samples[n-1], degree, n - 1, i);
      FeatureOfSample(v, samples[n-1], degree, n - 1, j);
    }
  }

  lemma {:induction false} TargetOfSamples(v: seq<int>, valid: seq<bool>, samples: seq<Sample>, degree: nat, i: nat,
                                           n: nat)
    requires degree >= 1 && i < degree && n <= |samples| == |valid| && FromSamples(v, samples, degree)
    requires forall k :: 0 <= k < |valid| ==> valid[k]
    ensures RowStart(n, VC.NumFields(degree)) <= |v|
    ensures TargetMoment(v, valid, degree, i, n) == SampleTarget(samples, degree, i, n)
  {
    hide VC.NumFields, RowStart, RowFromSample, Feature, Target, SampleFeature;
    if n < |samples| {
      RowsFit(n, |samples|, VC.NumFields(degree));
    }
    if n > 0 {
      TargetOfSamples(v, valid, samples, degree, i, n - 1);
      FeatureOfSample(v, samples[n-1], degree, n - 1, i);
    }
  }

  /** The encodings are correct, whoever is accepted. */
  lemma SamplesCorrect(v: seq<int>, valid: seq<bool>, samples: seq<Sample>, degree: nat, p: Modulus)
    requires degree >= 1 && |valid| == |samples| && FromSamples(v, samples, degree)
    ensures AcceptedCorrect(v, valid, degree, p)
  {
    hide VC.NumFields, RowStart, VC.ProductsCorrect, IsEncoding;
    forall k | 0 <= k < |samples| ensures ClientCorrect(v, degree, k, p) {
      var at := RowStart(k, VC.NumFields(degree));
      assert RowFromSample(v, samples[k], degree, k);
      EncodingAccepted(v[at..at+VC.NumFields(degree)], samples[k].x, samples[k].y, degree, p);
    }
  }

  // ---------- when the moments are exact ----------

  ghost predicate AllFit(samples: seq<Sample>, degree: nat, bits: nat) {
    forall i :: 0 <= i < |samples| ==> samples[i].Fits(degree, bits)
  }

  /** The largest number of this many bits. */
  function Largest(bits: nat): nat {
    Pow2(bits) - 1
  }

  /** The largest summand of a moment with fields in it: two fields, or without features the target. */
  function LargestTerm(degree: nat, bits: nat): (m: nat) {
    LargestSquare(bits);
    if degree >= 2 then Largest(bits) * Largest(bits) else Largest(bits)
  }

  lemma LargestSquare(bits: nat)
    ensures 0 <= Largest(bits) * Largest(bits) < Pow2(2 * bits) && Largest(bits) < Pow2(2 * bits)
  {
    Pow2Plus(bits, bits);
    StrictProduct(Largest(bits), Largest(bits), Pow2(bits));
    MulAtLeast(Pow2(bits), Pow2(bits));
  }

  /** No moment of these samples loses anything modulo p or in a signed word. */
  ghost predicate MomentsExact(samples: seq<Sample>, degree: nat, p: Modulus) {
    && Shaped(samples, degree)
    && (forall i, j :: 0 <= i < degree && 0 <= j < degree ==> Exact(SampleMoment(samples, degree, i, j, |samples|), p))
    && (forall i :: 0 <= i < degree ==> Exact(SampleTarget(samples, degree, i, |samples|), p))
  }

  /** The number of clients and the largest possible moment are below p and fit a signed word. */
  predicate Roomy(n: nat, degree: nat, bits: nat, p: Modulus) {
    Exact(n, p) && Exact(n * LargestTerm(degree, bits), p)
  }

  /** This is exactly when the moments of all n clients with fields of this width are exact. */
  lemma RoomyIsExact(n: nat, degree: nat, bits: nat, p: Modulus)
    requires degree >= 1
    ensures Roomy(n, degree, bits, p)
        <==> forall samples :: |samples| == n && AllFit(samples, degree, bits) ==> MomentsExact(samples, degree, p)
  {
    hide Roomy, MomentsExact, AllFit;
    if Roomy(n, degree, bits, p) {
      forall samples | |samples| == n && AllFit(samples, degree, bits) ensures MomentsExact(samples, degree, p) {
        RoomyMoments(samples, degree, bits, p);
      }
    } else {
      var largest := seq(n, _ => Sample(seq(degree - 1, _ => Largest(bits)), Largest(bits)));
      LargestFit(largest, degree, bits);
      if MomentsExact(largest, degree, p) {
        LargestNeedRoom(largest, degree, bits, p);
      }
    }
  }

  ghost predicate AllLargest(samples: seq<Sample>, degree: nat, bits: nat) {
    && Shaped(samples, degree)
    && forall k :: 0 <= k < |samples| ==>
         samples[k].y == Largest(bits) && forall i :: 0 <= i < degree - 1 ==> samples[k].x[i] == Largest(bits)
  }

  lemma LargestFit(samples: seq<Sample>, degree: nat, bits: nat)
    requires degree >= 1
    requires samples == seq(|samples|, _ => Sample(seq(degree - 1, _ => Largest(bits)), Largest(bits)))
    ensures AllLargest(samples, degree, bits) && AllFit(samples, degree, bits)
  {
  }

  lemma {:induction false} LargestMoments(samples: seq<Sample>, degree: nat, bits: nat, n: nat)
    requires degree >= 1 && AllLargest(samples, degree, bits) && n <= |samples|
    ensures SampleMoment(samples, degree, 0, 0, n) == n
    ensures (if degree >= 2 then SampleMoment(samples, degree, 1, 1, n) else SampleTarget(samples, degree, 0, n))
         == n * LargestTerm(degree, bits)
  {
    if n > 0 {
      LargestMoments(samples, degree, bits, n - 1);
      Distribute(LargestTerm(degree, bits), n - 1, 1);
    }
  }

  lemma LargestNeedRoom(samples: seq<Sample>, degree: nat, bits: nat, p: Modulus)
    requires degree >= 1 && AllLargest(samples, degree, bits) && MomentsExact(samples, degree, p)
    ensures Roomy(|samples|, degree, bits, p)
  {
    hide Exact, LargestTerm;
    LargestMoments(samples, degree, bits, |samples|);
  }

  lemma ProductAtMost(a: nat, b: nat, m: nat)
    requires a <= m && b <= m
    ensures 0 <= a * b <= m * m
  {
    Distribute(a, b, m - b);
    Distribute(m, a, m - a);
  }

  function AtLeastOne(m: nat): nat {
    if m == 0 then 1 else m
  }

  lemma TermsBelow(s: Sample, degree: nat, bits: nat, i: nat, j: nat)
    requires s.Fits(degree, bits) && i < degree && j < degree
    ensures 0 <= SampleFeature(s, i) * SampleFeature(s, j) <= AtLeastOne(LargestTerm(degree, bits))
    ensures 0 <= SampleFeature(s, i) * s.y <= AtLeastOne(LargestTerm(degree, bits))
  {
    var m := AtLeastOne(Largest(bits));
    if degree >= 2 {
      ProductAtMost(SampleFeature(s, i), SampleFeature(s, j), m);
      ProductAtMost(SampleFeature(s, i), s.y, m);
      MulAtLeast(m, m);
    }
  }

  lemma {:induction false} MomentsBelow(samples: seq<Sample>, degree: nat, bits: nat, i: nat, j: nat, n: nat)
    requires n <= |samples| && AllFit(samples, degree, bits) && Shaped(samples, degree) && i < degree && j < degree
    ensures SampleMoment(samples, degree, i, j, n) <= n * AtLeastOne(LargestTerm(degree, bits))
    ensures SampleTarget(samples, degree, i, n) <= n * AtLeastOne(LargestTerm(degree, bits))
  {
    hide LargestTerm, AtLeastOne, SampleFeature, Sample.Fits;
    if n > 0 {
      MomentsBelow(samples, degree, bits, i, j, n - 1);
      TermsBelow(samples[n-1], degree, bits, i, j);
      Distribute(AtLeastOne(LargestTerm(degree, bits)), n - 1, 1);
    }
  }

  lemma RoomyMoments(samples: seq<Sample>, degree: nat, bits: nat, p: Modulus)
    requires degree >= 1 && AllFit(samples, degree, bits) && Roomy(|samples|, degree, bits, p)
    ensures MomentsExact(samples, degree, p)
  {
    hide LargestTerm, SampleMoment, SampleTarget;
    assert Shaped(samples, degree) by {
      forall k | 0 <= k < |samples| ensures |samples[k].x| == degree - 1 {
        assert samples[k].Fits(degree, bits);
      }
    }
    forall i, j | 0 <= i < degree && 0 <= j < degree
      ensures Exact(SampleMoment(samples, degree, i, j, |samples|), p)
      ensures Exact(SampleTarget(samples, degree, i, |samples|), p)
    {
      MomentsBelow(samples, degree, bits, i, j, |samples|);
    }
    assert 0 < degree;
    forall i | 0 <= i < degree ensures Exact(SampleTarget(samples, degree, i, |samples|), p) {
      MomentsBelow(samples, degree, bits, i, 0, |samples|);
    }
  }

  // ---------- the client's test of the modulus ----------

  /** `(1ULL << (2 * num_bits)) * numreqs`, in a word, is at most the modulus. */
  predicate ModulusTest(n: nat, bits: nat, p: Modulus) {
    Word(n * Pow2(2 * bits)) <= p
  }

  /** The test gives the bound it is meant for. */
  ghost predicate TestBounds(n: nat, bits: nat) {
    forall p: Modulus :: ModulusTest(n, bits, p) ==> n * Pow2(2 * bits) <= p
  }

  /** It does for every modulus exactly when the product fits a word. */
  lemma ModulusTestExact(n: nat, bits: nat)
    ensures 0 <= n * Pow2(2 * bits)
    ensures TestBounds(n, bits) <==> n * Pow2(2 * bits) < TWO64
  {
    var x := n * Pow2(2 * bits);
    if x >= TWO64 {
      var p: Modulus := if Word(x) >= 2 then Word(x) else 2;
      assert ModulusTest(n, bits, p) && x > p;
    }
  }

  /** With 31 bits and four clients the product wraps to 0, and every 64-bit modulus passes. */
  lemma ModulusTestWraps(p: Modulus)
    requires p < TWO64
    ensures ModulusTest(4, 31, p) && 4 * Pow2(2 * 31) > p
  {
    Pow2At64();
    assert Pow2(64) == 2 * Pow2(63) && Pow2(63) == 2 * Pow2(62);
  }

  /** Where the test gives its bound, only the signed word remains to be asked for. */
  lemma TestGivesRoom(n: nat, degree: nat, bits: nat, p: Modulus)
    requires degree >= 1 && ModulusTest(n, bits, p) && n * Pow2(2 * bits) < TWO64 && (bits > 0 || n < p)
    ensures Roomy(n, degree, bits, p) <==> SignedFits(n) && SignedFits(n * LargestTerm(degree, bits))
  {
    LargestSquare(bits);
    TermsFit(n, LargestTerm(degree, bits), Pow2(2 * bits));
    if bits > 0 {
      assert Pow2(2 * bits) == 2 * Pow2(2 * bits - 1);
      TermsFit(n, 1, Pow2(2 * bits));
    }
  }

  predicate SignedFits(m: int) {
    m < 0x8000_0000_0000_0000
  }

  lemma TermsFit(n: nat, m: nat, q: nat)
    requires m < q
    ensures 0 <= n * m && 0 <= n * q && (n * m < n * q || n == 0)
  {
    Distribute(n, m, q - m);
    if n > 0 {
      MulAtLeast(n, q - m);
    }
  }

  // ---------- the order of the clients ----------

  ghost function MomentTerm(degree: nat, i: nat, j: nat): Sample -> int
    requires i < degree && j < degree
  {
    (s: Sample) => if |s.x| == degree - 1 then SampleFeature(s, i) * SampleFeature(s, j) else 0
  }

  ghost function TargetTerm(degree: nat, i: nat): Sample -> int
    requires i < degree
  {
    (s: Sample) => if |s.x| == degree - 1 then SampleFeature(s, i) * s.y else 0
  }

  lemma {:induction false} MomentIsSum(samples: seq<Sample>, degree: nat, i: nat, j: nat, n: nat)
    requires Shaped(samples, degree) && i < degree && j < degree && n <= |samples|
    ensures SampleMoment(samples, degree, i, j, n) == Sum(samples[..n], MomentTerm(degree, i, j))
    ensures SampleTarget(samples, degree, i, n) == Sum(samples[..n], TargetTerm(degree, i))
  {
    hide SampleFeature;
    if n > 0 {
      MomentIsSum(samples, degree, i, j, n - 1);
      assert samples[..n][..n-1] == samples[..n-1];
    }
  }

  lemma ShapedPermuted(a: seq<Sample>, b: seq<Sample>, degree: nat)
    requires Permuted(a, b) && Shaped(b, degree)
    ensures |a| == |b| && Shaped(a, degree)
  {
    SameLength(a, b);
    forall k | 0 <= k < |a| ensures |a[k].x| == degree - 1 {
      assert a[k] in multiset(b);
    }
  }

  /** The moments do not depend on the order of the clients. */
  lemma MomentsPermuted(a: seq<Sample>, b: seq<Sample>, degree: nat, i: nat, j: nat)
    requires Permuted(a, b) && Shaped(b, degree) && i < degree && j < degree
    ensures |a| == |b| && Shaped(a, degree)
    ensures SampleMoment(a, degree, i, j, |a|) == SampleMoment(b, degree, i, j, |b|)
    ensures SampleTarget(a, degree, i, |a|) == SampleTarget(b, degree, i, |b|)
  {
    hide SampleFeature, Permuted;
    ShapedPermuted(a, b, degree);
    MomentIsSum(a, degree, i, j, |a|);
    MomentIsSum(b, degree, i, j, |b|);
    assert a[..|a|] == a && b[..|b|] == b;
    SumPermuted(a, b, MomentTerm(degree, i, j));
    SumPermuted(a, b, TargetTerm(degree, i));
  }
}
