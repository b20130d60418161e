/** What a verdict of `validate_snips` means for any client, honest or not. */
module Verdicts {
  import opened Modular
  import opened Rows
  import opened Circuits
  import opened Snip
  import opened SnipTheorems
  import opened Checkers
  import opened Validation
  import opened VerdictSoundness
  import opened SoundnessError
  import Poly
  import Sessions

  // ---------- what a submission is ----------

  /** A submission over this circuit with these input shares and packets. */
  ghost predicate Consists(s: Submission, dom: Domain, gates: seq<Gate>, zeros: seq<nat>, in0: seq<int>, in1: seq<int>,
                           pk0: Packet, pk1: Packet)
  {
    && s.Valid(dom) && s.gates == gates && s.zeros == zeros && s.in0 == in0 && s.in1 == in1
    && s.pk0 == pk0 && s.pk1 == pk1
  }

  /** The imported wires are determined by the shares and the packet. */
  lemma {:induction false} ImportedUnique(gates: seq<Gate>, inShares: seq<int>, mulShares: seq<int>, serverNum: int,
                                          w: seq<int>, u: seq<int>, i: nat, p: Modulus)
    requires Imported(gates, inShares, mulShares, serverNum, w, p)
    requires Imported(gates, inShares, mulShares, serverNum, u, p) && i <= |gates|
    ensures w[..i] == u[..i]
  {
    hide AddMod, MulMod, InputCount, MulPositions;
    if i > 0 {
      ImportedUnique(gates, inShares, mulShares, serverNum, w, u, i - 1, p);
      var k := i - 1;
      forall j | 0 <= j < k ensures w[j] == u[j] {
        assert w[..k][j] == u[..k][j];
      }
      assert ParentsBelow(gates[k], k);
      assert GateImported(gates, k, inShares, mulShares, serverNum, w, p);
      assert GateImported(gates, k, inShares, mulShares, serverNum, u, p);
      assert w[..i] == w[..k] + [w[k]] && u[..i] == u[..k] + [u[k]];
    }
  }

  /** So there is one submission for what a client sent, whatever is drawn afterwards. */
  lemma SubmissionUnique(s: Submission, u: Submission, dom: Domain, gates: seq<Gate>, zeros: seq<nat>, in0: seq<int>,
                         in1: seq<int>, pk0: Packet, pk1: Packet)
    requires Consists(s, dom, gates, zeros, in0, in1, pk0, pk1) && Consists(u, dom, gates, zeros, in0, in1, pk0, pk1)
    ensures s == u
  {
    hide GateImported;
    ImportedUnique(gates, in0, pk0.mulShares, 0, s.w0, u.w0, |gates|, dom.p);
    ImportedUnique(gates, in1, pk1.mulShares, 1, s.w1, u.w1, |gates|, dom.p);
    assert s.w0[..|gates|] == s.w0 && u.w0[..|gates|] == u.w0;
    assert s.w1[..|gates|] == s.w1 && u.w1[..|gates|] == u.w1;
  }

  // ---------- verdicts ----------

  /** The verdict is whether the servers' draw accepts the submission of client i. */
  lemma VerdictIsDraw(ok: bool, b: Sessions.Batch, i: nat, dom: Domain, r: int, ch0: Checker, ch1: Checker)
    returns (s: Submission)
    requires b.Has(i) && Sessions.DecidedByCheckers(ok, b, i, dom, r, ch0, ch1)
    requires Reduced(r, dom.p) && AllReduced(b.coins[i], dom.p)
    ensures RowStart(i, b.numInputs) + b.numInputs <= |b.shares0|
    ensures RowStart(i, b.numInputs) + b.numInputs <= |b.shares1|
    ensures Consists(s, dom, b.gates[i], b.zeros[i], b.Inputs0(i), b.Inputs1(i), b.packets0[i].View(),
                     b.packets1[i].View())
    ensures ok <==> AcceptedDraw(s, dom, Draw(r, b.coins[i]))
  {
    hide CheckerReady, Decided, RowStart, Submission.Valid, Submission.EvaluatedAt, Submission.AcceptedWith;
    s := SubmissionOf(ch0, ch1, b.Inputs0(i), b.Inputs1(i));
    var e0, e1 := Evals(ch0.evalF, ch0.evalG, ch0.evalH), Evals(ch1.evalF, ch1.evalG, ch1.evalH);
    DecidedIsAccepted(ok, ch0, ch1, dom, b.Inputs0(i), b.Inputs1(i), r, b.coins[i]);
    DecidedSizes(ok, ch0, ch1, dom, b.coins[i]);
    if AcceptedAt(s, dom, r, b.coins[i]) {
      AcceptedWithAny(s, dom, r, b.coins[i], e0, e1);
    }
  }

  lemma DecidedSizes(ok: bool, ch0: Checker, ch1: Checker, dom: Domain, t: seq<int>)
    requires Decided(ok, ch0, ch1, dom, t)
    ensures |t| == |ch0.ckt.resultZero| + 1
  {
  }

  /** At most (2N + 1) p^(z + 1) draws accept. */
  ghost predicate FewDrawsAccept(s: Submission, dom: Domain)
    requires s.Valid(dom)
  {
    forall P: set<Draw> :: (forall x :: x in P ==> AcceptedDraw(s, dom, x))
                           ==> |P| <= (2 * |dom.roots| + 1) * Poly.Pow(dom.p, |s.zeros| + 1)
  }

  lemma RejectedIsRare(s: Submission, dom: Domain)
    requires s.Valid(dom) && s.Rejected(dom)
    ensures FewDrawsAccept(s, dom)
  {
    hide Submission.Valid, Submission.Rejected, AcceptedDraw;
    forall P: set<Draw> | forall x :: x in P ==> AcceptedDraw(s, dom, x)
      ensures |P| <= (2 * |dom.roots| + 1) * Poly.Pow(dom.p, |s.zeros| + 1)
    {
      AcceptedDraws(s, dom, P);
    }
  }
}
