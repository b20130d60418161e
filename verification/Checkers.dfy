/** The verifier objects of server.h. */
module Checkers {
  import opened Modular
  import opened Poly
  import opened PolyBatch
  import opened PolyOnce
  import opened Circuits
  import opened Shares
  import opened Snip
  import opened SnipTheorems

  /** `ClientPacket`: what one server receives from one client. */
  class ClientPacket {
    var mulShares: seq<int>
    var f0: int
    var g0: int
    var h0: int
    var hPoints: seq<int>
    var triple: BeaverTripleShare

    /** An all-zero packet for `nMul` multiplication gates. */
    constructor (nMul: nat, N: nat)
      ensures |mulShares| == nMul && |hPoints| == N && f0 == g0 == h0 == 0 && triple == BeaverTripleShare(0, 0, 0)
      ensures (forall i :: 0 <= i < nMul ==> mulShares[i] == 0) && (forall j :: 0 <= j < N ==> hPoints[j] == 0)
    {
      mulShares := seq(nMul, _ => 0);
      f0, g0, h0 := 0, 0, 0;
      hPoints := seq(N, _ => 0);
      triple := BeaverTripleShare(0, 0, 0);
    }

    function View(): Packet
      reads this
    {
      Packet(mulShares, f0, g0, h0, hPoints, triple)
    }
  }

  /** `CheckerPreComp`: both domains, prepared for one point x. */
  class CheckerPreComp {
    const degN: Precomp
    const deg2N: Precomp
    var x: int
    var xN: PreX?
    var x2N: PreX?

    /** The batch precomputes belong to this domain. */
    ghost predicate For(dom: Domain) {
      && degN.Valid() && deg2N.Valid() && degN.p == deg2N.p == dom.p
      && degN.xPoints == dom.roots && deg2N.xPoints == dom.roots2
    }

    /** Ready to evaluate at `r` on this domain. */
    ghost predicate ReadyAt(dom: Domain, r: int)
      reads this
    {
      && x == r && xN != null && x2N != null
      && xN.Valid() && xN.p == dom.p && xN.x == r && xN.xs == dom.roots
      && x2N.Valid() && x2N.p == dom.p && x2N.x == r && x2N.xs == dom.roots2
    }

    constructor (ghost dom: Domain, p: Modulus, N: nat, roots: array<int>, roots2: array<int>)
      requires dom.Valid() && p == dom.p && N == |dom.roots|
      requires roots[..] == dom.roots && roots2[..] == dom.roots2
      ensures For(dom) && xN == null && x2N == null
    {
      assert |roots[..]| == N && |roots2[..]| == 2 * N;
      degN := new Precomp(p, N, roots);
      deg2N := new Precomp(p, 2 * N, roots2);
      x, xN, x2N := 0, null, null;
    }

    method SetCheckerPrecomp(val: int, ghost dom: Domain)
      requires dom.Valid() && For(dom) && Reduced(val, dom.p)
      modifies this
      ensures ReadyAt(dom, val)
    {
      x := val;
      xN := new PreX(degN, x);
      x2N := new PreX(deg2N, x);
    }
  }

  lemma {:induction false} LagrangePrefix(xs: seq<int>, ys: seq<int>, zs: seq<int>, m: nat, p: Modulus)
    requires m <= |xs| <= |ys| && |xs| <= |zs| && ys[..|xs|] == zs[..|xs|]
    ensures LagrangeTerms(xs, ys, m, p) == LagrangeTerms(xs, zs, m, p)
  {
    if m > 0 {
      LagrangePrefix(xs, ys, zs, m - 1, p);
      assert ys[m-1] == ys[..|xs|][m-1] && zs[m-1] == zs[..|xs|][m-1];
    }
  }

  /** Cells beyond the number of nodes do not matter. */
  lemma ValueOfPrefix(xs: seq<int>, ys: seq<int>, zs: seq<int>, x: int, p: Modulus)
    requires |xs| <= |ys| && |zs| == |xs| && ys[..|xs|] == zs
    ensures InterpolatedValue(xs, ys, x, p) == InterpolatedValue(xs, zs, x, p)
  {
    assert zs[..|xs|] == zs;
    LagrangePrefix(xs, ys, zs, |xs|, p);
  }

  lemma PadPrefix(c0: int, ws: seq<int>, N: nat)
    requires |ws| < N
    ensures PadPoints(c0, ws, N + 1)[..N] == PadPoints(c0, ws, N)
  {
  }

  lemma TimesPoint(a: int, b: int, x: int, p: Modulus)
    requires Cong(a, b, p)
    ensures Cong(MulMod(a, x, p), b * x, p)
  {
    MulModCong(a, x, p);
    CongMul(a, b, x, x, p);
  }

  /** pointsH: output wires at even cells, the packet's points at odd cells. */
  method FillProductPoints(points: array<int>, c0: int, outs: seq<int>, odds: seq<int>, N: nat)
    requires |outs| < N <= |odds| && 2 * N <= points.Length
    requires forall k :: 0 <= k < points.Length ==> points[k] == 0
    modifies points
    ensures points[..2*N] == ProductPoints(c0, outs, odds, N)
  {
    ghost var pad := PadPoints(c0, outs, N);
    points[0] := c0;
    for i := 0 to |outs|
      invariant forall k :: 0 <= k < points.Length && k % 2 == 1 ==> points[k] == 0
      invariant forall k :: 0 <= k < 2 * N && k % 2 == 0 ==> points[k] == if k / 2 <= i then pad[k/2] else 0
    {
      points[2*(i+1)] := outs[i];
    }
    for j := 0 to N
      invariant forall k :: 0 <= k < 2 * N && k % 2 == 1 ==> points[k] == if k / 2 < j then odds[k/2] else 0
      invariant forall k :: 0 <= k < 2 * N && k % 2 == 0 ==> points[k] == pad[k/2]
    {
      points[2*j+1] := odds[j];
    }
  }

  class Checker {
    const serverNum: int
    const req: ClientPacket
    const ckt: Circuit
    const N: nat
    const pointsF: array<int>
    const pointsG: array<int>
    const pointsH: array<int>
    var evalF: int
    var evalG: int
    var evalH: int

    /** Imports the wires and evaluates the three polynomials at the prepared point. */
    constructor (c: Circuit, idx: int, req: ClientPacket, pre: CheckerPreComp, inputShares: seq<int>, ghost dom: Domain)
      requires c.Valid() && c.p == dom.p && InputCount(c.gates) <= |inputShares|
      requires dom.Valid() && pre.ReadyAt(dom, pre.x)
      requires IsNextPower(|c.mulGates|, |dom.roots|) && |c.mulGates| < 0x8000_0000
      requires |req.mulShares| == |c.mulGates| && |req.hPoints| == |dom.roots|
      modifies c
      ensures c.Valid() && c.gates == old(c.gates) && c.resultZero == old(c.resultZero)
      ensures Imported(c.gates, inputShares, req.mulShares, idx, c.wire, c.p)
      ensures serverNum == idx && this.req == req && ckt == c
      ensures SideOf(req.View(), c.gates, c.wire).Fits(|dom.roots|)
      ensures EvalsAt(dom, SideOf(req.View(), c.gates, c.wire), pre.x, evalF, evalG, evalH)
    {
      serverNum := idx;
      this.req := req;
      ckt := c;
      var size := NextPowerOfTwo(|c.mulGates|);
      NextPowerUnique(|c.mulGates|, size, |dom.roots|);
      N := size;
      pointsF := new int[size + 1](_ => 0);
      pointsG := new int[size + 1](_ => 0);
      pointsH := new int[2 * (size + 1)](_ => 0);
      c.ImportWires(inputShares, req.mulShares, idx);
      evalF, evalG, evalH := 0, 0, 0;
      new;
      EvalPoly(pre, dom);
    }

    method EvalPoly(pre: CheckerPreComp, ghost dom: Domain)
      requires ckt.Valid() && ckt.p == dom.p && dom.Valid() && pre.ReadyAt(dom, pre.x)
      requires N == |dom.roots| && |ckt.mulGates| < N && |req.hPoints| == N
      requires pointsF.Length == pointsG.Length == N + 1 && pointsH.Length == 2 * (N + 1)
      requires pointsF != pointsG && pointsF != pointsH && pointsG != pointsH
      requires forall k :: 0 <= k < N + 1 ==> pointsF[k] == 0 && pointsG[k] == 0
      requires forall k :: 0 <= k < 2 * (N + 1) ==> pointsH[k] == 0
      modifies this, pointsF, pointsG, pointsH
      ensures EvalsAt(dom, SideOf(req.View(), ckt.gates, ckt.wire), pre.x, evalF, evalG, evalH)
    {
      hide InterpolatedValue, LeftWires, RightWires, PadPoints, ProductPoints;
      var left := LeftWires(ckt.gates, ckt.wire);
      var right := RightWires(ckt.gates, ckt.wire);
      var outs := Pick(ckt.wire, ckt.mulGates);
      FillWirePoints(pointsF, req.f0, left);
      FillWirePoints(pointsG, req.g0, right);
      FillProductPoints(pointsH, req.h0, outs, req.hPoints, N);
      ghost var side := SideOf(req.View(), ckt.gates, ckt.wire);
      PadPrefix(req.f0, left, N);
      PadPrefix(req.g0, right, N);
      ValueOfPrefix(dom.roots, pointsF[..], side.F(N), pre.x, dom.p);
      ValueOfPrefix(dom.roots, pointsG[..], side.G(N), pre.x, dom.p);
      ValueOfPrefix(dom.roots2, pointsH[..], side.H(N), pre.x, dom.p);
      evalF := pre.xN.Eval(pointsF);
      evalG := pre.xN.Eval(pointsG);
      TimesPoint(evalG, InterpolatedValue(dom.roots, side.G(N), pre.x, dom.p), pre.x, dom.p);
      evalG := MulMod(evalG, pre.x, ckt.p);
      evalH := pre.x2N.Eval(pointsH);
      TimesPoint(evalH, InterpolatedValue(dom.roots2, side.H(N), pre.x, dom.p), pre.x, dom.p);
      evalH := MulMod(evalH, pre.x, ckt.p);
    }

    /** This server's shares of f(r) - a and r g(r) - b. */
    method CorShareFn() returns (out: CorShare)
      ensures Reduced(out.d, ckt.p) && Cong(out.d + req.triple.a, evalF, ckt.p)
      ensures Reduced(out.e, ckt.p) && Cong(out.e + req.triple.b, evalG, ckt.p)
    {
      SubModCong(evalF, req.triple.a, ckt.p);
      SubModCong(evalG, req.triple.b, ckt.p);
      CongAdd(SubMod(evalF, req.triple.a, ckt.p), evalF - req.triple.a, req.triple.a, req.triple.a, ckt.p);
      CongAdd(SubMod(evalG, req.triple.b, ckt.p), evalG - req.triple.b, req.triple.b, req.triple.b, ckt.p);
      out := CorShare(SubMod(evalF, req.triple.a, ckt.p), SubMod(evalG, req.triple.b, ckt.p));
    }

    /** This server's share of the verdict, for the coefficients both servers draw. */
    method OutShare(corIn: CorShare, coins: seq<int>) returns (out: int)
      requires ckt.Valid() && |coins| == |ckt.resultZero| + 1
      ensures Cong(out, Dot(coins, CheckVector(MulCheck(serverNum, corIn, req.triple, evalH, ckt.p),
                                               ckt.resultZero, ckt.wire)), ckt.p)
    {
      hide Dot;
      var mulCheck := 0;
      if serverNum == 0 {
        mulCheck := MulMod(corIn.d, corIn.e, ckt.p);
      }
      var term := MulMod(corIn.d, req.triple.b, ckt.p);
      mulCheck := AddMod(mulCheck, term, ckt.p);
      term := MulMod(corIn.e, req.triple.a, ckt.p);
      mulCheck := AddMod(mulCheck, term, ckt.p);
      mulCheck := AddMod(mulCheck, req.triple.c, ckt.p);
      mulCheck := SubMod(mulCheck, evalH, ckt.p);
      var arr := [mulCheck] + Pick(ckt.wire, ckt.resultZero);
      out := RandSum(0, arr, coins, ckt.p);
    }
  }

  /** Adds the randomly weighted entries of arr to out. */
  method RandSum(out0: int, arr: seq<int>, coins: seq<int>, p: Modulus) returns (out: int)
    requires |arr| <= |coins|
    ensures Cong(out, out0 + Dot(coins, arr), p) && Reduced(out, p)
  {
    out := out0;
    for i := 0 to |arr|
      invariant Cong(out, out0 + Dot(coins, arr[..i]), p)
    {
      var tmp := MulMod(coins[i], arr[i], p);
      MulModCong(coins[i], arr[i], p);
      CongAdd(out, out0 + Dot(coins, arr[..i]), tmp, coins[i] * arr[i], p);
      assert arr[..i+1][..i] == arr[..i];
      out := out + tmp;
    }
    assert arr[..|arr|] == arr;
    CongMod(out, p);
    out := out % p;
  }
}
