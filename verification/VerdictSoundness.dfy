/** What a verdict of `validate_snips` says about a rejected input, whatever the packets. */
module VerdictSoundness {
  import opened Modular
  import Sets
  import opened Circuits
  import opened Snip
  import opened SnipTheorems
  import opened SnipSoundness
  import opened Checkers
  import opened Validation

  /** The two packets and the wires the servers imported from them. */
  datatype Submission = Submission(gates: seq<Gate>, zeros: seq<nat>, in0: seq<int>, in1: seq<int>,
                                   w0: seq<int>, w1: seq<int>, pk0: Packet, pk1: Packet)
  {
    ghost predicate Valid(dom: Domain) {
      && dom.Valid() && |in0| == |in1| >= InputCount(gates)
      && Imported(gates, in0, pk0.mulShares, 0, w0, dom.p) && Imported(gates, in1, pk1.mulShares, 1, w1, dom.p)
      && WellSized(pk0, gates, |dom.roots|) && WellSized(pk1, gates, |dom.roots|)
      && forall k :: 0 <= k < |zeros| ==> zeros[k] < |gates|
    }

    /** The circuit does not accept the combined input. */
    ghost predicate Rejected(dom: Domain)
      requires Valid(dom)
    {
      forall w :: Evaluated(gates, Combine(in0, in1, dom.p), w, dom.p) ==> !Accepting(zeros, w)
    }

    /** Both servers' evaluations at r. */
    ghost predicate EvaluatedAt(dom: Domain, r: int, e0: Evals, e1: Evals)
      requires Valid(dom)
    {
      EvalsOf(dom, SideOf(pk0, gates, w0), r, e0) && EvalsOf(dom, SideOf(pk1, gates, w1), r, e1)
    }

    /** The check vectors of both servers, added entry by entry. */
    ghost function Entries(dom: Domain, e0: Evals, e1: Evals): (v: seq<int>)
      requires Valid(dom)
      ensures |v| == |zeros| + 1
    {
      var s0, s1 := SideOf(pk0, gates, w0), SideOf(pk1, gates, w1);
      var cor := OpenedCor(e0, e1, s0, s1, dom.p);
      Combine(CheckVector(MulCheckOf(0, cor, s0, e0, dom.p), zeros, w0),
              CheckVector(MulCheckOf(1, cor, s1, e1, dom.p), zeros, w1), dom.p)
    }

    /** Some evaluation at r makes every entry vanish. */
    ghost predicate Vanishes(dom: Domain, r: int)
      requires Valid(dom)
    {
      exists e0: Evals, e1: Evals :: EvaluatedAt(dom, r, e0, e1) && AllZero(Entries(dom, e0, e1))
    }

    /** The verdict with coefficients t. */
    ghost predicate AcceptedWith(dom: Domain, e0: Evals, e1: Evals, t: seq<int>)
      requires Valid(dom) && |t| == |zeros| + 1
    {
      VerdictOf(true, dom, gates, zeros, w0, w1, pk0, pk1, e0, e1, t)
    }
  }

  ghost predicate AllZero(v: seq<int>) {
    forall i :: 0 <= i < |v| ==> v[i] == 0
  }

  lemma ZeroEntry(a: int, b: int, p: Modulus)
    ensures AddMod(a, b, p) == 0 <==> Cong(a + b, 0, p)
  {
    hide Cong;
    AddToZeroMeaning(a, b, p);
  }

  /** If the circuit rejects the combined input, at most 2N points make every entry vanish. */
  lemma FewPointsVanish(s: Submission, dom: Domain, S: set<int>)
    requires s.Valid(dom) && s.Rejected(dom)
    requires forall r :: r in S ==> Reduced(r, dom.p) && s.Vanishes(dom, r)
    ensures |S| <= 2 * |dom.roots|
  {
    hide Submission.Valid, Submission.Rejected, Submission.Vanishes;
    if S != {} {
      FewPointsBeside(s, dom, S, Sets.Member(S));
    }
  }

  lemma FewPointsBeside(s: Submission, dom: Domain, S: set<int>, r0: int)
    requires s.Valid(dom) && s.Rejected(dom) && r0 in S
    requires forall r :: r in S ==> Reduced(r, dom.p) && s.Vanishes(dom, r)
    ensures |S| <= 2 * |dom.roots|
  {
    hide Evaluated, GateImported, MulChecksCancel, Submission.Vanishes, Accepting;
    VanishingPoint(s, dom, r0);
    forall r | r in S
      ensures MulChecksCancel(dom, SideOf(s.pk0, s.gates, s.w0), SideOf(s.pk1, s.gates, s.w1), r)
    {
      VanishingPoint(s, dom, r);
    }
    Soundness(dom, s.gates, s.zeros, s.in0, s.in1, s.w0, s.w1, s.pk0, s.pk1, S);
  }

  lemma VanishingPoint(s: Submission, dom: Domain, r: int)
    requires s.Valid(dom) && s.Vanishes(dom, r)
    ensures MulChecksCancel(dom, SideOf(s.pk0, s.gates, s.w0), SideOf(s.pk1, s.gates, s.w1), r)
    ensures forall k :: 0 <= k < |s.zeros| ==> Cong(s.w0[s.zeros[k]] + s.w1[s.zeros[k]], 0, dom.p)
  {
    hide GateImported, MulCheckOf, EvalsOf, Cong, AddMod, OpenedCor;
    var e0: Evals, e1: Evals :| s.EvaluatedAt(dom, r, e0, e1) && AllZero(s.Entries(dom, e0, e1));
    var v := s.Entries(dom, e0, e1);
    var s0, s1 := SideOf(s.pk0, s.gates, s.w0), SideOf(s.pk1, s.gates, s.w1);
    var cor := OpenedCor(e0, e1, s0, s1, dom.p);
    assert v[0] == 0;
    ZeroEntry(MulCheckOf(0, cor, s0, e0, dom.p), MulCheckOf(1, cor, s1, e1, dom.p), dom.p);
    forall k | 0 <= k < |s.zeros| ensures Cong(s.w0[s.zeros[k]] + s.w1[s.zeros[k]], 0, dom.p) {
      assert v[k+1] == 0;
      ZeroEntry(s.w0[s.zeros[k]], s.w1[s.zeros[k]], dom.p);
    }
  }

  /** The verdict is whether the weighted sum of the entries vanishes. */
  lemma VerdictIsSum(s: Submission, dom: Domain, e0: Evals, e1: Evals, t: seq<int>)
    requires s.Valid(dom) && |t| == |s.zeros| + 1
    ensures s.AcceptedWith(dom, e0, e1, t) <==> Cong(Dot(t, s.Entries(dom, e0, e1)), 0, dom.p)
  {
    hide GateImported, MulCheckOf, Cong, AddMod, OpenedCor, Dot, CheckVector, Combine;
    var s0, s1 := SideOf(s.pk0, s.gates, s.w0), SideOf(s.pk1, s.gates, s.w1);
    var cor := OpenedCor(e0, e1, s0, s1, dom.p);
    var a := CheckVector(MulCheckOf(0, cor, s0, e0, dom.p), s.zeros, s.w0);
    var b := CheckVector(MulCheckOf(1, cor, s1, e1, dom.p), s.zeros, s.w1);
    CombineShares(a, b, dom.p);
    DotShares(t, a, b, s.Entries(dom, e0, e1), dom.p);
    SameZero(Dot(t, a) + Dot(t, b), Dot(t, s.Entries(dom, e0, e1)), dom.p);
  }

  /** The vectors agree everywhere but at i. */
  ghost predicate DifferOnlyAt(t: seq<int>, u: seq<int>, i: nat) {
    |t| == |u| && forall j :: 0 <= j < |t| && j != i ==> t[j] == u[j]
  }

  /** Two reduced coefficient vectors that differ at most at i are both accepted. */
  ghost predicate BothAccepted(s: Submission, dom: Domain, e0: Evals, e1: Evals, t: seq<int>, u: seq<int>, i: nat)
    requires s.Valid(dom) && i <= |s.zeros|
  {
    && |t| == |s.zeros| + 1 && DifferOnlyAt(t, u, i) && Reduced(t[i], dom.p) && Reduced(u[i], dom.p)
    && s.AcceptedWith(dom, e0, e1, t) && s.AcceptedWith(dom, e0, e1, u)
  }

  /**
   Where not every entry vanishes, some entry i is not 0, and of all coefficient vectors that
   differ only at i at most one accepts.
   */
  lemma OneVectorAccepted(s: Submission, dom: Domain, r: int, e0: Evals, e1: Evals) returns (i: nat)
    requires s.Valid(dom) && s.EvaluatedAt(dom, r, e0, e1) && !s.Vanishes(dom, r)
    ensures i <= |s.zeros| && s.Entries(dom, e0, e1)[i] != 0
    ensures forall t, u :: BothAccepted(s, dom, e0, e1, t, u, i) ==> t == u
  {
    hide Imported, WellSized, EvalsOf, Combine, CheckVector, OpenedCor, VerdictOf, Dot, Cong;
    var v := s.Entries(dom, e0, e1);
    assert !AllZero(v);
    i :| 0 <= i < |v| && v[i] != 0;
    EntriesReduced(s, dom, e0, e1);
    CongIntro(0, 0, 0, dom.p);
    if Cong(v[i], 0, dom.p) {
      ReducedEqual(v[i], 0, dom.p);
    }
    forall t, u | BothAccepted(s, dom, e0, e1, t, u, i)
      ensures t == u
    {
      VerdictIsSum(s, dom, e0, e1, t);
      VerdictIsSum(s, dom, e0, e1, u);
      OneCoefficientPasses(v, t, u, i, dom.p);
    }
  }

  lemma EntriesReduced(s: Submission, dom: Domain, e0: Evals, e1: Evals)
    requires s.Valid(dom)
    ensures AllReduced(s.Entries(dom, e0, e1), dom.p)
  {
    hide Imported, MulCheckOf, OpenedCor, CheckVector;
  }

  // ---------- the checkers of validate_snips ----------

  /** What the two checkers of a client work on. */
  ghost function SubmissionOf(ch0: Checker, ch1: Checker, in0: seq<int>, in1: seq<int>): Submission
    reads ch0, ch0.req, ch0.ckt, ch1, ch1.req, ch1.ckt
  {
    Submission(ch0.ckt.gates, ch0.ckt.resultZero, in0, in1, ch0.ckt.wire, ch1.ckt.wire, ch0.req.View(), ch1.req.View())
  }

  /** The verdict of `validate_snips` is the one the bounds speak about. */
  lemma DecidedIsAccepted(ok: bool, ch0: Checker, ch1: Checker, dom: Domain, in0: seq<int>, in1: seq<int>, r: int,
                          t: seq<int>)
    requires CheckerReady(ch0, 0, dom, in0, r) && CheckerReady(ch1, 1, dom, in1, r) && Decided(ok, ch0, ch1, dom, t)
    requires |in0| == |in1|
    ensures var s := SubmissionOf(ch0, ch1, in0, in1);
            var e0, e1 := Evals(ch0.evalF, ch0.evalG, ch0.evalH), Evals(ch1.evalF, ch1.evalG, ch1.evalH);
            s.Valid(dom) && s.EvaluatedAt(dom, r, e0, e1) && (ok <==> s.AcceptedWith(dom, e0, e1, t))
  {
    hide GateImported, EvalsAt, Dot, CheckVector, OpenedCor, MulCheckOf;
  }
}
