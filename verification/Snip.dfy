/** The SNIP proof system: what client.h and server.h compute, and why it works. */
module Snip {
  import opened Modular
  import opened Poly
  import opened PolyBatch
  import opened PolyOnce
  import opened Circuits
  import opened Shares

  /** The evaluation points: N-th roots of unity and the 2N-th roots that extend them. */
  datatype Domain = Domain(p: Modulus, roots: seq<int>, roots2: seq<int>) {
    ghost predicate Valid() {
      && Prime(p) && |roots| >= 1 && |roots2| == 2 * |roots|
      && DistinctMod(roots, p) && DistinctMod(roots2, p)
      && AllReduced(roots, p) && AllReduced(roots2, p)
      && forall i :: 0 <= i < |roots| ==> roots2[2*i] == roots[i]
    }
  }

  // ---------- points on f, g and h ----------

  /** v is the wire of the left parent of the multiplication gate at position i. */
  ghost predicate IsLeft(gates: seq<Gate>, w: seq<int>, i: nat, v: int) {
    i < |gates| && gates[i].Mul? && gates[i].l < |w| && v == w[gates[i].l]
  }

  ghost predicate IsRight(gates: seq<Gate>, w: seq<int>, i: nat, v: int) {
    i < |gates| && gates[i].Mul? && gates[i].r < |w| && v == w[gates[i].r]
  }

  function LeftWires(gates: seq<Gate>, w: seq<int>): (r: seq<int>)
    requires Topological(gates) && |w| == |gates|
    ensures |r| == |MulPositions(gates)|
  {
    var m := MulPositions(gates);
    seq(|m|, k requires 0 <= k < |m| => MulOperands(gates, m[k]); w[gates[m[k]].l])
  }

  function RightWires(gates: seq<Gate>, w: seq<int>): (r: seq<int>)
    requires Topological(gates) && |w| == |gates|
    ensures |r| == |MulPositions(gates)|
  {
    var m := MulPositions(gates);
    seq(|m|, k requires 0 <= k < |m| => MulOperands(gates, m[k]); w[gates[m[k]].r])
  }

  /** Entry k belongs to the parents of the k-th multiplication gate. */
  lemma OperandWires(gates: seq<Gate>, w: seq<int>, k: nat)
    requires Topological(gates) && |w| == |gates| && k < |MulPositions(gates)|
    ensures IsLeft(gates, w, MulPositions(gates)[k], LeftWires(gates, w)[k])
    ensures IsRight(gates, w, MulPositions(gates)[k], RightWires(gates, w)[k])
  {
    hide MulPositions;
    MulOperands(gates, MulPositions(gates)[k]);
  }

  lemma MulOperands(gates: seq<Gate>, i: nat)
    requires Topological(gates) && i < |gates| && gates[i].Mul?
    ensures gates[i].l < |gates| && gates[i].r < |gates|
  {
    assert ParentsBelow(gates[i], i);
  }

  /** [c0, w_1, ..., w_n, 0, ..., 0] */
  function PadPoints(c0: int, ws: seq<int>, N: nat): (f: seq<int>)
    requires |ws| < N
    ensures |f| == N
  {
    [c0] + ws + Zeros(N - 1 - |ws|)
  }

  /** The constant first, then the wires, then zeros. */
  lemma PadCells(c0: int, ws: seq<int>, N: nat, k: nat)
    requires |ws| < N && k < N
    ensures PadPoints(c0, ws, N)[k] == if k == 0 then c0 else if k <= |ws| then ws[k-1] else 0
  {
  }

  /** Points of h on the 2N-th roots: output wires at the even ones, the packet at the odd ones. */
  function ProductPoints(h0: int, outs: seq<int>, odds: seq<int>, N: nat): (h: seq<int>)
    requires |outs| < N && |odds| >= N
    ensures |h| == 2 * N
  {
    seq(2 * N, k requires 0 <= k < 2 * N =>
      if k % 2 == 1 then odds[k/2] else PadPoints(h0, outs, N)[k/2])
  }

  /** The constant, the output wires and zeros at even cells, the packet's points at odd ones. */
  lemma ProductCells(h0: int, outs: seq<int>, odds: seq<int>, N: nat, k: nat)
    requires |outs| < N <= |odds| && k < N
    ensures var h := ProductPoints(h0, outs, odds, N);
            && h[2*k] == (if k == 0 then h0 else if k <= |outs| then outs[k-1] else 0)
            && h[2*k+1] == odds[k]
  {
    PadCells(h0, outs, N, k);
  }

  /** points[1..] receive the wires, on top of the constant and the zeros. */
  method FillWirePoints(points: array<int>, c0: int, ws: seq<int>)
    requires |ws| < points.Length && forall k :: 0 <= k < points.Length ==> points[k] == 0
    modifies points
    ensures points[..] == PadPoints(c0, ws, points.Length)
  {
    points[0] := c0;
    for i := 0 to |ws|
      invariant points[0] == c0
      invariant forall k :: 1 <= k <= i ==> points[k] == ws[k-1]
      invariant forall k :: i < k < points.Length ==> points[k] == 0
    {
      points[i+1] := ws[i];
    }
  }

  // ---------- sharing ----------

  lemma PadPointsShares(c0: int, c1: int, c: int, ws0: seq<int>, ws1: seq<int>, ws: seq<int>, N: nat, p: Modulus)
    requires Cong(c0 + c1, c, p) && SharesOf(ws0, ws1, ws, p) && |ws| < N
    ensures SharesOf(PadPoints(c0, ws0, N), PadPoints(c1, ws1, N), PadPoints(c, ws, N), p)
  {
  }

  /** Combining the shares of the two servers. */
  function Combine(a: seq<int>, b: seq<int>, p: Modulus): (c: seq<int>)
    requires |a| == |b|
    ensures |c| == |a|
  {
    seq(|a|, i requires 0 <= i < |a| => AddMod(a[i], b[i], p))
  }

  lemma CombineShares(a: seq<int>, b: seq<int>, p: Modulus)
    requires |a| == |b|
    ensures SharesOf(a, b, Combine(a, b, p), p) && AllReduced(Combine(a, b, p), p)
  {
    forall i | 0 <= i < |a| ensures Cong(a[i] + b[i], Combine(a, b, p)[i], p) {
      AddModCong(a[i], b[i], p);
    }
  }

  // ---------- one server's part of the check ----------

  /** One server's shares: its packet constants and its shares of the multiplication wires. */
  datatype Side = Side(f0: int, g0: int, h0: int, odds: seq<int>,
                       left: seq<int>, right: seq<int>, outs: seq<int>, triple: BeaverTripleShare)
  {
    ghost predicate Fits(N: nat) {
      |left| == |right| == |outs| < N && |odds| >= N
    }

    function F(N: nat): seq<int> requires Fits(N) { PadPoints(f0, left, N) }
    function G(N: nat): seq<int> requires Fits(N) { PadPoints(g0, right, N) }
    function H(N: nat): seq<int> requires Fits(N) { ProductPoints(h0, outs, odds, N) }
  }

  /** `CorShareFn` */
  function CorShareOf(evalF: int, evalG: int, t: BeaverTripleShare, p: Modulus): CorShare {
    CorShare(SubMod(evalF, t.a, p), SubMod(evalG, t.b, p))
  }

  /** `mulCheck` in `OutShare`, with the reductions in the order of the source. */
  function MulCheck(serverNum: int, cor: CorShare, t: BeaverTripleShare, evalH: int, p: Modulus): (r: int)
  {
    var m0 := if serverNum == 0 then MulMod(cor.d, cor.e, p) else 0;
    var m1 := AddMod(m0, MulMod(cor.d, t.b, p), p);
    var m2 := AddMod(m1, MulMod(cor.e, t.a, p), p);
    var m3 := AddMod(m2, t.c, p);
    SubMod(m3, evalH, p)
  }

  lemma MulCheckValue(serverNum: int, cor: CorShare, t: BeaverTripleShare, evalH: int, p: Modulus)
    ensures Cong(MulCheck(serverNum, cor, t, evalH, p),
                 (if serverNum == 0 then cor.d * cor.e else 0) + cor.d * t.b + cor.e * t.a + t.c - evalH, p)
  {
    hide MulMod, AddMod, SubMod;
    var m0 := if serverNum == 0 then MulMod(cor.d, cor.e, p) else 0;
    var m1 := AddMod(m0, MulMod(cor.d, t.b, p), p);
    var m2 := AddMod(m1, MulMod(cor.e, t.a, p), p);
    var m3 := AddMod(m2, t.c, p);
    var v0 := if serverNum == 0 then cor.d * cor.e else 0;
    MulModCong(cor.d, cor.e, p);
    MulModCong(cor.d, t.b, p);
    MulModCong(cor.e, t.a, p);
    AddModCong(m0, MulMod(cor.d, t.b, p), p);
    AddModCong(m1, MulMod(cor.e, t.a, p), p);
    AddModCong(m2, t.c, p);
    SubModCong(m3, evalH, p);
    CongAdd(m0, v0, MulMod(cor.d, t.b, p), cor.d * t.b, p);
    CongAdd(m1, v0 + cor.d * t.b, MulMod(cor.e, t.a, p), cor.e * t.a, p);
    CongAdd(m2, v0 + cor.d * t.b + cor.e * t.a, t.c, t.c, p);
    CongSub(m3, v0 + cor.d * t.b + cor.e * t.a + t.c, evalH, evalH, p);
  }

  /** Beaver's identity: the two results add to f g - h + (c - a b). */
  lemma BeaverIdentity(d: int, e: int, a0: int, a1: int, b0: int, b1: int, c0: int, c1: int, h0: int, h1: int)
    ensures (d * e + d * b0 + e * a0 + c0 - h0) + (0 + d * b1 + e * a1 + c1 - h1)
         == (d + (a0 + a1)) * (e + (b0 + b1)) - (a0 + a1) * (b0 + b1) + (c0 + c1) - (h0 + h1)
  {
    var a, b := a0 + a1, b0 + b1;
    Distribute(d, b0, b1);
    Distribute(e, a0, a1);
    assert (d + a) * (e + b) == d * e + d * b + a * e + a * b;
  }

  /** The opened D is f - a. */
  lemma OpenedValue(e0: int, e1: int, a0: int, a1: int, f: int, p: Modulus)
    requires Cong(e0 + e1, f, p)
    ensures Cong(AddMod(SubMod(e0, a0, p), SubMod(e1, a1, p), p) + (a0 + a1), f, p)
  {
    var s0, s1 := SubMod(e0, a0, p), SubMod(e1, a1, p);
    SubModCong(e0, a0, p);
    SubModCong(e1, a1, p);
    AddModCong(s0, s1, p);
    CongAdd(s0, e0 - a0, s1, e1 - a1, p);
    CongAdd(AddMod(s0, s1, p), (e0 - a0) + (e1 - a1), a0 + a1, a0 + a1, p);
  }

  /** What the two `mulCheck` values add to, for any triple. */
  lemma MulChecksAdd(f0: int, f1: int, g0: int, g1: int, h0: int, h1: int,
                     t0: BeaverTripleShare, t1: BeaverTripleShare, f: int, g: int, h: int, p: Modulus)
    requires Cong(f0 + f1, f, p) && Cong(g0 + g1, g, p) && Cong(h0 + h1, h, p)
    ensures var cor := OpenCor(CorShareOf(f0, g0, t0, p), CorShareOf(f1, g1, t1, p), p);
            Cong(MulCheck(0, cor, t0, h0, p) + MulCheck(1, cor, t1, h1, p),
                 f * g - h + ((t0.c + t1.c) - (t0.a + t1.a) * (t0.b + t1.b)), p)
  {
    hide MulCheck, SubMod, AddMod;
    var cor := OpenCor(CorShareOf(f0, g0, t0, p), CorShareOf(f1, g1, t1, p), p);
    var a, b, c, d, e := t0.a + t1.a, t0.b + t1.b, t0.c + t1.c, cor.d, cor.e;
    OpenedValue(f0, f1, t0.a, t1.a, f, p);
    OpenedValue(g0, g1, t0.b, t1.b, g, p);
    MulCheckValue(0, cor, t0, h0, p);
    MulCheckValue(1, cor, t1, h1, p);
    var v0, v1 := d * e + d * t0.b + e * t0.a + t0.c - h0, 0 + d * t1.b + e * t1.a + t1.c - h1;
    CongAdd(MulCheck(0, cor, t0, h0, p), v0, MulCheck(1, cor, t1, h1, p), v1, p);
    BeaverIdentity(d, e, t0.a, t1.a, t0.b, t1.b, t0.c, t1.c, h0, h1);
    CongMul(d + a, f, e + b, g, p);
    CongSub((d + a) * (e + b), f * g, h0 + h1, h, p);
    CongAdd((d + a) * (e + b) - (h0 + h1), f * g - h, c - a * b, c - a * b, p);
  }

  // ---------- packets ----------

  /** The contents of a `ClientPacket`. */
  datatype Packet = Packet(mulShares: seq<int>, f0: int, g0: int, h0: int, hPoints: seq<int>,
                           triple: BeaverTripleShare)

  ghost function SideOf(pk: Packet, gates: seq<Gate>, w: seq<int>): Side
    requires Topological(gates) && |w| == |gates|
  {
    Side(pk.f0, pk.g0, pk.h0, pk.hPoints, LeftWires(gates, w), RightWires(gates, w),
         Pick(w, MulPositions(gates)), pk.triple)
  }

  ghost predicate WellSized(pk: Packet, gates: seq<Gate>, N: nat) {
    |pk.mulShares| == |MulPositions(gates)| < N == |pk.hPoints|
  }

  /** Points on f for the wires w and the random value f0 at the first root. */
  ghost function LeftPoints(f0: int, gates: seq<Gate>, w: seq<int>, N: nat): seq<int>
    requires Topological(gates) && |w| == |gates| && |MulPositions(gates)| < N
  {
    PadPoints(f0, LeftWires(gates, w), N)
  }

  ghost function RightPoints(g0: int, gates: seq<Gate>, w: seq<int>, N: nat): seq<int>
    requires Topological(gates) && |w| == |gates| && |MulPositions(gates)| < N
  {
    PadPoints(g0, RightWires(gates, w), N)
  }

  /** f(x) g(x) for the polynomials through the client's points. */
  ghost function ProductAt(dom: Domain, gates: seq<Gate>, w: seq<int>, f0: int, g0: int, x: int): int
    requires Topological(gates) && |w| == |gates| && |MulPositions(gates)| < |dom.roots|
  {
    InterpolatedValue(dom.roots, LeftPoints(f0, gates, w, |dom.roots|), x, dom.p)
    * InterpolatedValue(dom.roots, RightPoints(g0, gates, w, |dom.roots|), x, dom.p)
  }

  /** What `share_polynomials` produces from the wires w, for some choice of its randomness. */
  ghost predicate HonestPackets(dom: Domain, gates: seq<Gate>, w: seq<int>, pk0: Packet, pk1: Packet, f0: int, g0: int)
    requires Topological(gates) && |w| == |gates| && |dom.roots2| == 2 * |dom.roots|
  {
    && WellSized(pk0, gates, |dom.roots|) && WellSized(pk1, gates, |dom.roots|)
    && SharesOf(pk0.mulShares, pk1.mulShares, Pick(w, MulPositions(gates)), dom.p)
    && Cong(pk0.f0 + pk1.f0, f0, dom.p) && Cong(pk0.g0 + pk1.g0, g0, dom.p)
    && Cong(pk0.h0 + pk1.h0, f0 * g0, dom.p)
    && (forall j :: 0 <= j < |dom.roots| ==>
          Cong(pk0.hPoints[j] + pk1.hPoints[j], ProductAt(dom, gates, w, f0, g0, dom.roots2[2*j+1]), dom.p))
    && IsTriple(pk0.triple, pk1.triple, dom.p)
  }

  // ---------- the final linear combination ----------

  /** Sum of t[i] v[i]. */
  function Dot(t: seq<int>, v: seq<int>): int
    requires |v| <= |t|
  {
    if v == [] then 0 else Dot(t, v[..|v|-1]) + t[|v|-1] * v[|v|-1]
  }

  lemma {:induction false} DotShares(t: seq<int>, a: seq<int>, b: seq<int>, v: seq<int>, p: Modulus)
    requires SharesOf(a, b, v, p) && |v| <= |t|
    ensures Cong(Dot(t, a) + Dot(t, b), Dot(t, v), p)
  {
    if v != [] {
      var m := |v| - 1;
      DotShares(t, a[..m], b[..m], v[..m], p);
      CongScale(t[m], a[m] + b[m], v[m], p);
      Distribute(t[m], a[m], b[m]);
      CongAdd(Dot(t, a[..m]) + Dot(t, b[..m]), Dot(t, v[..m]), t[m] * (a[m] + b[m]), t[m] * v[m], p);
    }
  }

  lemma {:induction false} DotZero(t: seq<int>, v: seq<int>, p: Modulus)
    requires |v| <= |t| && forall i :: 0 <= i < |v| ==> Cong(v[i], 0, p)
    ensures Cong(Dot(t, v), 0, p)
  {
    if v != [] {
      var m := |v| - 1;
      DotZero(t, v[..m], p);
      CongScale(t[m], v[m], 0, p);
      CongAdd(Dot(t, v[..m]), 0, t[m] * v[m], 0, p);
    }
  }

  /** Changing one coefficient of a nonzero entry changes the combination. */
  lemma {:induction false} DotSensitive(t: seq<int>, u: seq<int>, v: seq<int>, i: nat, p: Modulus)
    requires |t| == |u| >= |v| && i < |v| && (forall j :: 0 <= j < |t| && j != i ==> t[j] == u[j])
    ensures Dot(t, v) - Dot(u, v) == (t[i] - u[i]) * v[i]
  {
    var m := |v| - 1;
    if i == m {
      DotAgree(t, u, v[..m]);
      Distribute(v[m], t[m], u[m]);
    } else {
      DotSensitive(t, u, v[..m], i, p);
    }
  }

  lemma {:induction false} DotAgree(t: seq<int>, u: seq<int>, v: seq<int>)
    requires |t| == |u| >= |v| && (forall j :: 0 <= j < |v| ==> t[j] == u[j])
    ensures Dot(t, v) == Dot(u, v)
  {
    if v != [] {
      DotAgree(t, u, v[..|v|-1]);
    }
  }

  /** `AddToZero` */
  predicate AddToZero(x: int, y: int, p: Modulus) {
    AddMod(x, y, p) == 0
  }

  lemma AddToZeroMeaning(x: int, y: int, p: Modulus)
    ensures AddToZero(x, y, p) <==> Cong(x + y, 0, p)
  {
    AddModCong(x, y, p);
    if Cong(x + y, 0, p) {
      ReducedEqual(AddMod(x, y, p), 0, p);
    }
  }
}
