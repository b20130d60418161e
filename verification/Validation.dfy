/** `validate_snips`: the verdicts that both servers reach on a batch of submissions. */
module Validation {
  import opened Modular
  import opened Permutations
  import opened Rows
  import opened RootTables
  import opened Circuits
  import opened Shares
  import opened Snip
  import opened SnipTheorems
  import opened Checkers
  import opened Servers

  // ---------- one server's checkers ----------

  /** The checker has imported these inputs and evaluated its polynomials at r. */
  ghost predicate CheckerReady(ch: Checker, idx: nat, dom: Domain, inputs: seq<int>, r: int)
    reads ch, ch.req, ch.ckt
  {
    && dom.Valid() && ch.ckt.Valid() && ch.ckt.p == dom.p && ch.serverNum == idx
    && InputCount(ch.ckt.gates) <= |inputs|
    && WellSized(ch.req.View(), ch.ckt.gates, |dom.roots|)
    && Imported(ch.ckt.gates, inputs, ch.req.mulShares, idx, ch.ckt.wire, dom.p)
    && EvalsOf(dom, SideOf(ch.req.View(), ch.ckt.gates, ch.ckt.wire), r, Evals(ch.evalF, ch.evalG, ch.evalH))
  }

  /** A circuit and a packet that fit the domain, with enough inputs. */
  ghost predicate Submittable(circuit: Circuit, packet: ClientPacket, dom: Domain, numInputs: nat)
    reads circuit, packet
  {
    && circuit.Valid() && circuit.p == dom.p && InputCount(circuit.gates) <= numInputs
    && IsNextPower(|circuit.mulGates|, |dom.roots|) && |circuit.mulGates| < 0x8000_0000
    && |packet.mulShares| == |circuit.mulGates| && |packet.hPoints| == |dom.roots|
  }

  method BuildChecker(idx: nat, circuit: Circuit, packet: ClientPacket, pre: CheckerPreComp, inputs: seq<int>,
                      ghost dom: Domain)
    returns (ch: Checker)
    requires dom.Valid() && pre.ReadyAt(dom, pre.x) && Submittable(circuit, packet, dom, |inputs|)
    modifies circuit
    ensures fresh(ch) && ch.ckt == circuit && ch.req == packet && CheckerReady(ch, idx, dom, inputs, pre.x)
    ensures circuit.gates == old(circuit.gates) && circuit.resultZero == old(circuit.resultZero)
  {
    hide Imported, EvalsAt, IsNextPower;
    ch := new Checker(circuit, idx, packet, pre, inputs, dom);
    assert |circuit.mulGates| < |dom.roots| by { NextPowerAbove(|circuit.mulGates|, |dom.roots|); }
  }

  lemma NextPowerAbove(n: nat, N: nat)
    requires IsNextPower(n, N)
    ensures n < N
  {
  }

  ghost predicate AllSubmittable(circuits: seq<Circuit>, packets: seq<ClientPacket>, dom: Domain, numInputs: nat)
    reads circuits, packets
  {
    |circuits| == |packets| && forall i :: 0 <= i < |circuits| ==> Submittable(circuits[i], packets[i], dom, numInputs)
  }

  ghost predicate AllReady(checkers: seq<Checker>, circuits: seq<Circuit>, packets: seq<ClientPacket>, idx: nat,
                           dom: Domain, shares: seq<int>, numInputs: nat, r: int)
    reads checkers, circuits, packets
  {
    && |checkers| <= |circuits| == |packets| && RowStart(|checkers|, numInputs) <= |shares|
    && forall i :: 0 <= i < |checkers| ==> OneReady(checkers[i], circuits[i], packets[i], idx, dom, shares, numInputs,
                                                    i, r)
  }

  ghost predicate OneReady(ch: Checker, circuit: Circuit, packet: ClientPacket, idx: nat, dom: Domain, shares: seq<int>,
                           numInputs: nat, i: nat, r: int)
    reads ch, circuit, packet
  {
    && ch.ckt == circuit && ch.req == packet && RowStart(i, numInputs) + numInputs <= |shares|
    && CheckerReady(ch, idx, dom, shares[RowStart(i, numInputs)..RowStart(i, numInputs)+numInputs], r)
  }

  /** The circuits have these gates and result_zero lists. */
  ghost predicate BuiltFrom(circuits: seq<Circuit>, gates: seq<seq<Gate>>, zeros: seq<seq<nat>>)
    reads circuits
  {
    && |circuits| == |gates| == |zeros|
    && forall i :: 0 <= i < |circuits| ==> circuits[i].gates == gates[i] && circuits[i].resultZero == zeros[i]
  }

  method BuildCheckers(idx: nat, circuits: seq<Circuit>, packets: seq<ClientPacket>, pre: CheckerPreComp,
                       shares: seq<int>, numInputs: nat, ghost dom: Domain,
                       ghost gates: seq<seq<Gate>>, ghost zeros: seq<seq<nat>>)
    returns (checkers: seq<Checker>)
    requires dom.Valid() && pre.ReadyAt(dom, pre.x)
    requires AllSubmittable(circuits, packets, dom, numInputs) && Distinct(circuits)
    requires |shares| == RowStart(|circuits|, numInputs) && BuiltFrom(circuits, gates, zeros)
    modifies circuits
    ensures |checkers| == |circuits| && (forall i :: 0 <= i < |checkers| ==> fresh(checkers[i]))
    ensures AllReady(checkers, circuits, packets, idx, dom, shares, numInputs, pre.x)
    ensures BuiltFrom(circuits, gates, zeros)
  {
    hide RowStart, CheckerReady, Submittable, Domain.Valid, CheckerPreComp.ReadyAt;
    checkers := [];
    ghost var r := pre.x;
    assert RowStart(0, numInputs) <= |shares| by { RowZero(numInputs); }
    for i := 0 to |circuits|
      invariant |checkers| == i && pre.ReadyAt(dom, r) && pre.x == r
      invariant forall k :: 0 <= k < i ==> fresh(checkers[k])
      invariant AllReady(checkers, circuits, packets, idx, dom, shares, numInputs, r)
      invariant forall k :: i <= k < |circuits| ==> Submittable(circuits[k], packets[k], dom, numInputs)
      invariant BuiltFrom(circuits, gates, zeros)
    {
      RowsFit(i, |circuits|, numInputs);
      var at := RowStart(i, numInputs);
      var ch := BuildChecker(idx, circuits[i], packets[i], pre, shares[at..at+numInputs], dom);
      checkers := checkers + [ch];
    }
  }

  /** The reduced number that completes a to x is x - a reduced. */
  lemma OnlyDifference(d: int, x: int, a: int, p: Modulus)
    requires Reduced(d, p) && Cong(d + a, x, p)
    ensures d == SubMod(x, a, p)
  {
    CongSub(d + a, x, a, a, p);
    SubModCong(x, a, p);
    ReducedEqual(d, SubMod(x, a, p), p);
  }

  method CorShares(checkers: seq<Checker>) returns (cor: seq<CorShare>)
    ensures |cor| == |checkers|
    ensures forall i :: 0 <= i < |cor| ==>
              cor[i] == CorShareOf(checkers[i].evalF, checkers[i].evalG, checkers[i].req.triple, checkers[i].ckt.p)
  {
    cor := [];
    for i := 0 to |checkers|
      invariant |cor| == i
      invariant forall k :: 0 <= k < i ==>
                  cor[k] == CorShareOf(checkers[k].evalF, checkers[k].evalG, checkers[k].req.triple, checkers[k].ckt.p)
    {
      var ch := checkers[i];
      var c := ch.CorShareFn();
      OnlyDifference(c.d, ch.evalF, ch.req.triple.a, ch.ckt.p);
      OnlyDifference(c.e, ch.evalG, ch.req.triple.b, ch.ckt.p);
      cor := cor + [c];
    }
  }

  /** What one server's output share is, up to reduction. */
  ghost predicate IsOutShare(out: int, ch: Checker, idx: nat, cor: CorShare, coins: seq<int>)
    reads ch, ch.req, ch.ckt
  {
    && ch.ckt.Valid() && |coins| == |ch.ckt.resultZero| + 1
    && Cong(out, Dot(coins, CheckVector(MulCheck(idx, cor, ch.req.triple, ch.evalH, ch.ckt.p),
                                        ch.ckt.resultZero, ch.ckt.wire)), ch.ckt.p)
  }

  method OutShares(checkers: seq<Checker>, idx: nat, mine: seq<CorShare>, other: seq<CorShare>, coins: seq<seq<int>>)
    returns (out: seq<int>)
    requires |mine| == |other| == |coins| == |checkers|
    requires forall i :: 0 <= i < |checkers| ==>
               checkers[i].ckt.Valid() && checkers[i].serverNum == idx
               && |coins[i]| == |checkers[i].ckt.resultZero| + 1
    ensures |out| == |checkers|
    ensures forall i :: 0 <= i < |out| ==>
              IsOutShare(out[i], checkers[i], idx, OpenCor(mine[i], other[i], checkers[i].ckt.p), coins[i])
  {
    hide Dot, MulCheck, OpenCor;
    out := [];
    for i := 0 to |checkers|
      invariant |out| == i
      invariant forall k :: 0 <= k < i ==>
                  IsOutShare(out[k], checkers[k], idx, OpenCor(mine[k], other[k], checkers[k].ckt.p), coins[k])
    {
      var share := checkers[i].OutShare(OpenCor(mine[i], other[i], checkers[i].ckt.p), coins[i]);
      out := out + [share];
    }
  }

  // ---------- verdicts ----------

  /** What decides a submission: the randomly weighted sum of both servers' check vectors. */
  ghost predicate VerdictOf(ok: bool, dom: Domain, gates: seq<Gate>, zeros: seq<nat>, w0: seq<int>, w1: seq<int>,
                            pk0: Packet, pk1: Packet, e0: Evals, e1: Evals, t: seq<int>)
    requires Topological(gates) && |w0| == |w1| == |gates| && |t| == |zeros| + 1
    requires forall k :: 0 <= k < |zeros| ==> zeros[k] < |gates|
  {
    var s0, s1 := SideOf(pk0, gates, w0), SideOf(pk1, gates, w1);
    var cor := OpenedCor(e0, e1, s0, s1, dom.p);
    ok <==> Cong(Dot(t, CheckVector(MulCheckOf(0, cor, s0, e0, dom.p), zeros, w0))
                 + Dot(t, CheckVector(MulCheckOf(1, cor, s1, e1, dom.p), zeros, w1)), 0, dom.p)
  }

  /** The submission comes from an honest client whose input the circuit accepts. */
  ghost predicate Honest(dom: Domain, gates: seq<Gate>, zeros: seq<nat>, in0: seq<int>, in1: seq<int>, pk0: Packet,
                         pk1: Packet)
    requires Topological(gates) && |dom.roots2| == 2 * |dom.roots|
  {
    exists inps: seq<int>, w: seq<int>, f0: int, g0: int ::
      HonestBy(dom, gates, zeros, in0, in1, pk0, pk1, inps, w, f0, g0)
  }

  ghost predicate HonestBy(dom: Domain, gates: seq<Gate>, zeros: seq<nat>, in0: seq<int>, in1: seq<int>, pk0: Packet,
                           pk1: Packet,
                           inps: seq<int>, w: seq<int>, f0: int, g0: int)
    requires Topological(gates) && |dom.roots2| == 2 * |dom.roots|
  {
    && Evaluated(gates, inps, w, dom.p) && InputCount(gates) <= |inps|
    && (forall k :: 0 <= k < |zeros| ==> zeros[k] < |gates|) && Accepting(zeros, w)
    && SharesOf(in0, in1, inps, dom.p) && HonestPackets(dom, gates, w, pk0, pk1, f0, g0)
  }

  /** What `share_polynomials` makes from an accepted evaluation is an honest submission. */
  lemma ClientIsHonest(c: Params, N: nat, roots: seq<int>, invroots: seq<int>, roots2: seq<int>,
                       gates: seq<Gate>, zeros: seq<nat>, inps: seq<int>, w: seq<int>,
                       in0: seq<int>, in1: seq<int>, pk0: Packet, pk1: Packet, f0: int, g0: int)
    requires c.Valid() && c.Supports(N) && AreTables(roots, invroots, roots2, N, c)
    requires Evaluated(gates, inps, w, c.p) && InputCount(gates) <= |inps|
    requires (forall k :: 0 <= k < |zeros| ==> zeros[k] < |gates|) && Accepting(zeros, w)
    requires SharesOf(in0, in1, inps, c.p) && |roots2| == 2 * |roots|
    requires HonestPackets(Domain(c.p, roots, roots2), gates, w, pk0, pk1, f0, g0)
    ensures Honest(DomainFor(c, N), gates, zeros, in0, in1, pk0, pk1)
  {
    hide HonestPackets, AreTables, DomainFor, GateEvaluated;
    TablesAreDomainFor(roots, invroots, roots2, N, c);
    assert HonestBy(DomainFor(c, N), gates, zeros, in0, in1, pk0, pk1, inps, w, f0, g0);
  }

  /** Submission i of the batch, in the terms of the two checkers. */
  ghost predicate Decided(ok: bool, ch0: Checker, ch1: Checker, dom: Domain, t: seq<int>)
    reads ch0, ch0.req, ch0.ckt, ch1, ch1.req, ch1.ckt
  {
    && ch0.ckt.Valid() && ch1.ckt.Valid() && ch0.ckt.gates == ch1.ckt.gates && ch0.ckt.resultZero == ch1.ckt.resultZero
    && |t| == |ch0.ckt.resultZero| + 1
    && VerdictOf(ok, dom, ch0.ckt.gates, ch0.ckt.resultZero, ch0.ckt.wire, ch1.ckt.wire, ch0.req.View(), ch1.req.View(),
                 Evals(ch0.evalF, ch0.evalG, ch0.evalH), Evals(ch1.evalF, ch1.evalG, ch1.evalH), t)
  }

  lemma SharesDecide(ch0: Checker, ch1: Checker, dom: Domain, cor0: CorShare, cor1: CorShare, out0: int, out1: int,
                     t: seq<int>)
    requires ch0.ckt.p == ch1.ckt.p == dom.p
    requires ch0.ckt.gates == ch1.ckt.gates && ch0.ckt.resultZero == ch1.ckt.resultZero
    requires cor0 == CorShareOf(ch0.evalF, ch0.evalG, ch0.req.triple, dom.p)
    requires cor1 == CorShareOf(ch1.evalF, ch1.evalG, ch1.req.triple, dom.p)
    requires IsOutShare(out0, ch0, 0, OpenCor(cor0, cor1, dom.p), t)
    requires IsOutShare(out1, ch1, 1, OpenCor(cor1, cor0, dom.p), t)
    ensures Decided(AddToZero(out0, out1, dom.p), ch0, ch1, dom, t)
  {
    hide Dot, MulCheck, Cong, CorShareOf, LeftWires, RightWires, CheckVector;
    assert OpenCor(cor1, cor0, dom.p) == OpenCor(cor0, cor1, dom.p);
    var d0 := Dot(t, CheckVector(MulCheck(0, OpenCor(cor0, cor1, dom.p), ch0.req.triple, ch0.evalH, dom.p),
                                 ch0.ckt.resultZero, ch0.ckt.wire));
    var d1 := Dot(t, CheckVector(MulCheck(1, OpenCor(cor0, cor1, dom.p), ch1.req.triple, ch1.evalH, dom.p),
                                 ch1.ckt.resultZero, ch1.ckt.wire));
    CongAdd(out0, d0, out1, d1, dom.p);
    AddToZeroMeaning(out0, out1, dom.p);
    SameZero(out0 + out1, d0 + d1, dom.p);
  }

  lemma SameZero(a: int, b: int, p: Modulus)
    requires Cong(a, b, p)
    ensures Cong(a, 0, p) <==> Cong(b, 0, p)
  {
  }

  /** An honest submission passes. */
  lemma HonestDecided(ok: bool, ch0: Checker, ch1: Checker, dom: Domain, in0: seq<int>, in1: seq<int>, r: int,
                      t: seq<int>)
    requires CheckerReady(ch0, 0, dom, in0, r) && CheckerReady(ch1, 1, dom, in1, r) && Decided(ok, ch0, ch1, dom, t)
    requires Honest(dom, ch0.ckt.gates, ch0.ckt.resultZero, in0, in1, ch0.req.View(), ch1.req.View())
    ensures ok
  {
    hide Evaluated, HonestPackets, Imported, EvalsAt, Dot, MulCheck, LeftWires, RightWires, CheckVector, Cong,
         OpenCor, CorShareOf, SharesOf, Accepting;
    var gates, zeros := ch0.ckt.gates, ch0.ckt.resultZero;
    var pk0, pk1 := ch0.req.View(), ch1.req.View();
    var inps: seq<int>, w: seq<int>, f0: int, g0: int :|
      HonestBy(dom, gates, zeros, in0, in1, pk0, pk1, inps, w, f0, g0);
    Completeness(dom, gates, zeros, inps, w, in0, in1, ch0.ckt.wire, ch1.ckt.wire, pk0, pk1, f0, g0, r,
                 Evals(ch0.evalF, ch0.evalG, ch0.evalH), Evals(ch1.evalF, ch1.evalG, ch1.evalH), t);
  }
}
