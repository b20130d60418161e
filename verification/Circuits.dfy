/** Arithmetic circuits and their evaluation on values and on shares, circuit.h. */
module Circuits {
  import opened Modular
  import opened Shares

  /** A gate of each type; a parent is named by its position in `gates`. */
  datatype Gate =
    | Input
    | Add(l: nat, r: nat)
    | AddConst(l: nat, c: int)
    | Mul(l: nat, r: nat)
    | MulConst(l: nat, c: int)

  predicate ParentsBelow(g: Gate, i: nat) {
    match g
    case Input => true
    case Add(l, r) => l < i && r < i
    case AddConst(l, _) => l < i
    case Mul(l, r) => l < i && r < i
    case MulConst(l, _) => l < i
  }

  /** Every parent comes earlier in the vector. */
  ghost predicate Topological(gates: seq<Gate>) {
    forall i :: 0 <= i < |gates| ==> ParentsBelow(gates[i], i)
  }

  // ---------- counting gates ----------

  function InputCount(gates: seq<Gate>): nat {
    if gates == [] then 0
    else InputCount(gates[..|gates|-1]) + if gates[|gates|-1].Input? then 1 else 0
  }

  /** Positions of the multiplication gates, in order: the vector `mul_gates`. */
  function MulPositions(gates: seq<Gate>): (m: seq<nat>)
    ensures forall k :: 0 <= k < |m| ==> m[k] < |gates| && gates[m[k]].Mul?
  {
    if gates == [] then []
    else
      var m := MulPositions(gates[..|gates|-1]);
      if gates[|gates|-1].Mul? then m + [|gates| - 1] else m
  }

  lemma {:induction false} MulPositionsPrefix(gates: seq<Gate>, i: nat)
    requires i <= |gates|
    ensures MulPositions(gates[..i]) <= MulPositions(gates)
    ensures i < |gates| && gates[i].Mul? ==>
              && |MulPositions(gates[..i])| < |MulPositions(gates)|
              && MulPositions(gates)[|MulPositions(gates[..i])|] == i
    decreases |gates|
  {
    if i < |gates| {
      var init := gates[..|gates|-1];
      if i == |init| {
      } else {
        MulPositionsPrefix(init, i);
        assert init[..i] == gates[..i];
      }
    } else {
      assert gates[..i] == gates;
    }
  }

  lemma {:induction false} InputCountPrefix(gates: seq<Gate>, i: nat)
    requires i <= |gates|
    ensures InputCount(gates[..i]) <= InputCount(gates)
    ensures i < |gates| && gates[i].Input? ==> InputCount(gates[..i]) < InputCount(gates)
    decreases |gates|
  {
    if i < |gates| {
      var init := gates[..|gates|-1];
      if i < |init| {
        InputCountPrefix(init, i);
        assert init[..i] == gates[..i];
      }
    } else {
      assert gates[..i] == gates;
    }
  }

  // ---------- what the wires hold ----------

  /** The value `Eval` gives gate g when its parents hold w and the next input is inp. */
  function GateValue(g: Gate, w: seq<int>, inp: int, p: Modulus): int
    requires ParentsBelow(g, |w|)
  {
    match g
    case Input => inp
    case Add(l, r) => AddMod(w[l], w[r], p)
    case AddConst(l, c) => AddMod(w[l], c, p)
    case Mul(l, r) => MulMod(w[l], w[r], p)
    case MulConst(l, c) => MulMod(w[l], c, p)
  }

  /** The share `ImportWires` gives gate g on one server. */
  function GateShare(g: Gate, w: seq<int>, inp: int, mul: int, serverNum: int, p: Modulus): int
    requires ParentsBelow(g, |w|)
  {
    match g
    case Input => inp
    case Add(l, r) => AddMod(w[l], w[r], p)
    case AddConst(l, c) => if serverNum == 0 then AddMod(w[l], c, p) else w[l] % p
    case Mul(_, _) => mul
    case MulConst(l, c) => MulMod(w[l], c, p)
  }

  function At(s: seq<int>, i: nat): int {
    if i < |s| then s[i] else 0
  }

  ghost predicate GateEvaluated(gates: seq<Gate>, i: nat, inps: seq<int>, w: seq<int>, p: Modulus)
    requires i < |gates| == |w| && Topological(gates)
  {
    w[i] == GateValue(gates[i], w, At(inps, InputCount(gates[..i])), p)
  }

  ghost predicate Evaluated(gates: seq<Gate>, inps: seq<int>, w: seq<int>, p: Modulus) {
    && |w| == |gates| && Topological(gates)
    && forall i :: 0 <= i < |gates| ==> GateEvaluated(gates, i, inps, w, p)
  }

  ghost predicate GateImported(gates: seq<Gate>, i: nat, inShares: seq<int>, mulShares: seq<int>,
                               serverNum: int, w: seq<int>, p: Modulus)
    requires i < |gates| == |w| && Topological(gates)
  {
    w[i] == GateShare(gates[i], w, At(inShares, InputCount(gates[..i])),
                      At(mulShares, |MulPositions(gates[..i])|), serverNum, p)
  }

  ghost predicate Imported(gates: seq<Gate>, inShares: seq<int>, mulShares: seq<int>, serverNum: int,
                           w: seq<int>, p: Modulus) {
    && |w| == |gates| && Topological(gates)
    && forall i :: 0 <= i < |gates| ==> GateImported(gates, i, inShares, mulShares, serverNum, w, p)
  }

  /** All gates that must be zero are zero. */
  ghost predicate Accepting(zeros: seq<nat>, w: seq<int>) {
    forall k :: 0 <= k < |zeros| && zeros[k] < |w| ==> w[zeros[k]] == 0
  }

  // ---------- shares of wires ----------

  function Pick(w: seq<int>, at: seq<nat>): (r: seq<int>)
    requires forall k :: 0 <= k < |at| ==> at[k] < |w|
    ensures |r| == |at| && forall k :: 0 <= k < |at| ==> r[k] == w[at[k]]
  {
    seq(|at|, k requires 0 <= k < |at| => w[at[k]])
  }

  lemma AddShares(a0: int, a1: int, a: int, b0: int, b1: int, b: int, p: Modulus)
    requires Cong(a0 + a1, a, p) && Cong(b0 + b1, b, p)
    ensures Cong(AddMod(a0, b0, p) + AddMod(a1, b1, p), AddMod(a, b, p), p)
  {
    AddModCong(a0, b0, p);
    AddModCong(a1, b1, p);
    AddModCong(a, b, p);
    CongAdd(AddMod(a0, b0, p), a0 + b0, AddMod(a1, b1, p), a1 + b1, p);
    CongAdd(a0 + a1, a, b0 + b1, b, p);
  }

  lemma AddConstShares(a0: int, a1: int, a: int, c: int, p: Modulus)
    requires Cong(a0 + a1, a, p)
    ensures Cong(AddMod(a0, c, p) + a1 % p, AddMod(a, c, p), p)
  {
    AddModCong(a0, c, p);
    AddModCong(a, c, p);
    CongMod(a1, p);
    CongAdd(AddMod(a0, c, p), a0 + c, a1 % p, a1, p);
    CongAdd(a0 + a1, a, c, c, p);
  }

  lemma MulConstShares(a0: int, a1: int, a: int, c: int, p: Modulus)
    requires Cong(a0 + a1, a, p)
    ensures Cong(MulMod(a0, c, p) + MulMod(a1, c, p), MulMod(a, c, p), p)
  {
    hide MulMod, Cong;
    MulModCong(a0, c, p);
    MulModCong(a1, c, p);
    MulModCong(a, c, p);
    CongAdd(MulMod(a0, c, p), a0 * c, MulMod(a1, c, p), a1 * c, p);
    CongScale(c, a0 + a1, a, p);
    Distribute(c, a0, a1);
    CongTrans(MulMod(a0, c, p) + MulMod(a1, c, p), c * (a0 + a1), c * a, p);
    CongTrans(MulMod(a0, c, p) + MulMod(a1, c, p), a * c, MulMod(a, c, p), p);
  }

  ghost predicate ParentsShared(g: Gate, w: seq<int>, w0: seq<int>, w1: seq<int>, p: Modulus)
    requires |w| == |w0| == |w1| && ParentsBelow(g, |w|)
  {
    match g
    case Input => true
    case Add(l, r) => Cong(w0[l] + w1[l], w[l], p) && Cong(w0[r] + w1[r], w[r], p)
    case AddConst(l, _) => Cong(w0[l] + w1[l], w[l], p)
    case Mul(l, r) => true
    case MulConst(l, _) => Cong(w0[l] + w1[l], w[l], p)
  }

  /** One gate: shares of its parents (and of its client-supplied value) give shares of it. */
  lemma GateShares(g: Gate, w: seq<int>, w0: seq<int>, w1: seq<int>,
                   inp: int, in0: int, in1: int, mul0: int, mul1: int, p: Modulus)
    requires |w| == |w0| == |w1| && ParentsBelow(g, |w|) && ParentsShared(g, w, w0, w1, p)
    requires g.Input? ==> Cong(in0 + in1, inp, p)
    requires g.Mul? ==> Cong(mul0 + mul1, MulMod(w[g.l], w[g.r], p), p)
    ensures Cong(GateShare(g, w0, in0, mul0, 0, p) + GateShare(g, w1, in1, mul1, 1, p), GateValue(g, w, inp, p), p)
  {
    match g {
      case Input =>
      case Add(l, r) => AddShares(w0[l], w1[l], w[l], w0[r], w1[r], w[r], p);
      case AddConst(l, c) => AddConstShares(w0[l], w1[l], w[l], c, p);
      case Mul(l, r) =>
      case MulConst(l, c) => MulConstShares(w0[l], w1[l], w[l], c, p);
    }
  }

  lemma {:induction false} ShareOfGate(gates: seq<Gate>, i: nat, inps: seq<int>, w: seq<int>,
      in0: seq<int>, in1: seq<int>, mul0: seq<int>, mul1: seq<int>, w0: seq<int>, w1: seq<int>, p: Modulus)
    requires Evaluated(gates, inps, w, p) && InputCount(gates) <= |inps|
    requires Imported(gates, in0, mul0, 0, w0, p) && Imported(gates, in1, mul1, 1, w1, p)
    requires SharesOf(in0, in1, inps, p) && SharesOf(mul0, mul1, Pick(w, MulPositions(gates)), p)
    requires i < |gates|
    ensures Cong(w0[i] + w1[i], w[i], p)
    decreases i
  {
    hide Cong, InputCount, MulPositions, AddMod, MulMod;
    var g := gates[i];
    assert ParentsBelow(g, i);
    assert GateEvaluated(gates, i, inps, w, p);
    assert GateImported(gates, i, in0, mul0, 0, w0, p) && GateImported(gates, i, in1, mul1, 1, w1, p);
    if g.Add? || g.AddConst? || g.MulConst? {
      ShareOfGate(gates, g.l, inps, w, in0, in1, mul0, mul1, w0, w1, p);
    }
    if g.Add? {
      ShareOfGate(gates, g.r, inps, w, in0, in1, mul0, mul1, w0, w1, p);
    }
    InputCountPrefix(gates, i);
    MulPositionsPrefix(gates, i);
    var k, m := InputCount(gates[..i]), |MulPositions(gates[..i])|;
    GateShares(g, w, w0, w1, At(inps, k), At(in0, k), At(in1, k), At(mul0, m), At(mul1, m), p);
  }

  /** `ImportWires` on both servers yields shares of every wire `Eval` computes. */
  lemma ImportIsHomomorphic(gates: seq<Gate>, inps: seq<int>, w: seq<int>,
      in0: seq<int>, in1: seq<int>, mul0: seq<int>, mul1: seq<int>, w0: seq<int>, w1: seq<int>, p: Modulus)
    requires Evaluated(gates, inps, w, p) && InputCount(gates) <= |inps|
    requires Imported(gates, in0, mul0, 0, w0, p) && Imported(gates, in1, mul1, 1, w1, p)
    requires SharesOf(in0, in1, inps, p) && SharesOf(mul0, mul1, Pick(w, MulPositions(gates)), p)
    ensures SharesOf(w0, w1, w, p)
  {
    forall i | 0 <= i < |gates| ensures Cong(w0[i] + w1[i], w[i], p) {
      ShareOfGate(gates, i, inps, w, in0, in1, mul0, mul1, w0, w1, p);
    }
  }

  // ---------- the circuit object ----------

  class Circuit {
    const p: Modulus
    var gates: seq<Gate>
    var mulGates: seq<nat>
    var resultZero: seq<nat>
    var wire: seq<int>    // `WireValue` of each gate

    ghost predicate Valid()
      reads this
    {
      && Topological(gates) && |wire| == |gates|
      && mulGates == MulPositions(gates)
      && forall k :: 0 <= k < |resultZero| ==> resultZero[k] < |gates|
    }

    /** A circuit of `numInputs` input gates. */
    constructor (p: Modulus, numInputs: nat)
      ensures Valid() && this.p == p
      ensures gates == Inputs(numInputs) && resultZero == []
    {
      this.p := p;
      gates, mulGates, resultZero, wire := [], [], [], [];
      new;
      for i := 0 to numInputs
        invariant Valid() && resultZero == [] && gates == Inputs(i)
      {
        AddGate(Input);
      }
    }

    method AddGate(g: Gate)
      requires Valid() && ParentsBelow(g, |gates|)
      modifies this
      ensures Valid() && gates == old(gates) + [g] && resultZero == old(resultZero) && wire == old(wire) + [0]
    {
      assert (gates + [g])[..|gates|] == gates;
      gates := gates + [g];
      wire := wire + [0];
      if g.Mul? {
        mulGates := mulGates + [|gates| - 1];
      }
    }

    method AddZeroGate(i: nat)
      requires Valid() && i < |gates|
      modifies this
      ensures Valid() && gates == old(gates) && resultZero == old(resultZero) + [i]
    {
      resultZero := resultZero + [i];
    }

    /** Adds gate[i] * gate[j] = gate[k] to the circuit. */
    method AddCheckMulEqual(i: nat, j: nat, k: nat)
      requires Valid() && i < |gates| && j < |gates| && k < |gates|
      modifies this
      ensures Valid()
      ensures gates == old(gates) + CheckGates(|old(gates)|, i, j, k, p)
      ensures resultZero == old(resultZero) + [|old(gates)| + 2]
    {
      var n := |gates|;
      AddGate(Mul(i, j));
      AddGate(MulConst(k, -1 % p));
      AddGate(Add(n, n + 1));
      AddZeroGate(n + 2);
    }

    /** Evaluates the circuit; true when every result_zero gate is zero. */
    method Eval(inps: seq<int>) returns (ok: bool)
      requires Valid() && InputCount(gates) <= |inps|
      modifies this
      ensures Valid() && gates == old(gates) && resultZero == old(resultZero)
      ensures Evaluated(gates, inps, wire, p)
      ensures ok <==> Accepting(resultZero, wire)
    {
      hide GateValue, MulPositions;
      var inpCount := 0;
      assert gates[..0] == [];
      for i := 0 to |gates|
        invariant gates == old(gates) && resultZero == old(resultZero) && mulGates == old(mulGates)
        invariant |wire| == |gates| && inpCount == InputCount(gates[..i])
        invariant forall j :: 0 <= j < i ==> GateEvaluated(gates, j, inps, wire, p)
      {
        assert gates[..i+1][..i] == gates[..i];
        InputCountPrefix(gates, i);
        assert ParentsBelow(gates[i], i);
        var v := GateValue(gates[i], wire, if gates[i].Input? then inps[inpCount] else 0, p);
        UpdateKeepsEvaluated(gates, i, inps, wire, wire[i := v], v, p);
        wire := wire[i := v];
        if gates[i].Input? {
          inpCount := inpCount + 1;
        }
      }
      ok := true;
      for k := 0 to |resultZero|
        invariant forall j :: 0 <= j < k ==> wire[resultZero[j]] == 0
      {
        if wire[resultZero[k]] != 0 {
          return false;
        }
      }
    }

    /** Rebuilds one server's shares of the wires from its input shares and packet. */
    method ImportWires(inputShares: seq<int>, mulShares: seq<int>, serverNum: int)
      requires Valid() && InputCount(gates) <= |inputShares| && |mulGates| <= |mulShares|
      modifies this
      ensures Valid() && gates == old(gates) && resultZero == old(resultZero)
      ensures Imported(gates, inputShares, mulShares, serverNum, wire, p)
    {
      hide GateShare;
      var mulIdx, inpIdx := 0, 0;
      assert gates[..0] == [];
      for i := 0 to |gates|
        invariant gates == old(gates) && resultZero == old(resultZero) && mulGates == old(mulGates)
        invariant |wire| == |gates| && inpIdx == InputCount(gates[..i]) && mulIdx == |MulPositions(gates[..i])|
        invariant forall j :: 0 <= j < i ==> GateImported(gates, j, inputShares, mulShares, serverNum, wire, p)
      {
        assert gates[..i+1][..i] == gates[..i];
        InputCountPrefix(gates, i);
        MulPositionsPrefix(gates, i);
        assert ParentsBelow(gates[i], i);
        var v := GateShare(gates[i], wire, if gates[i].Input? then inputShares[inpIdx] else 0,
                           if gates[i].Mul? then mulShares[mulIdx] else 0, serverNum, p);
        UpdateKeepsImported(gates, i, inputShares, mulShares, serverNum, wire, wire[i := v], v, p);
        wire := wire[i := v];
        if gates[i].Input? {
          inpIdx := inpIdx + 1;
        }
        if gates[i].Mul? {
          mulIdx := mulIdx + 1;
        }
      }
    }
  }

  function Inputs(n: nat): (g: seq<Gate>)
    ensures |g| == n && forall i :: 0 <= i < n ==> g[i] == Input
  {
    seq(n, _ => Input)
  }

  /** Gates of one multiplication check, placed at position n. */
  function CheckGates(n: nat, i: nat, j: nat, k: nat, p: Modulus): (g: seq<Gate>) {
    [Mul(i, j), MulConst(k, -1 % p), Add(n, n + 1)]
  }

  lemma UpdateKeepsEvaluated(gates: seq<Gate>, i: nat, inps: seq<int>, w: seq<int>, w': seq<int>, v: int, p: Modulus)
    requires Topological(gates) && i < |gates| == |w| && w' == w[i := v]
    requires forall j :: 0 <= j < i ==> GateEvaluated(gates, j, inps, w, p)
    requires ParentsBelow(gates[i], i)
    requires v == GateValue(gates[i], w, if gates[i].Input? then At(inps, InputCount(gates[..i])) else 0, p)
    ensures forall j :: 0 <= j <= i ==> GateEvaluated(gates, j, inps, w', p)
  {
    forall j | 0 <= j <= i ensures GateEvaluated(gates, j, inps, w', p) {
      assert ParentsBelow(gates[j], j);
      assert j < i ==> GateEvaluated(gates, j, inps, w, p);
    }
  }

  lemma UpdateKeepsImported(gates: seq<Gate>, i: nat, ins: seq<int>, muls: seq<int>, srv: int,
                            w: seq<int>, w': seq<int>, v: int, p: Modulus)
    requires Topological(gates) && i < |gates| == |w| && w' == w[i := v]
    requires forall j :: 0 <= j < i ==> GateImported(gates, j, ins, muls, srv, w, p)
    requires ParentsBelow(gates[i], i)
    requires v == GateShare(gates[i], w, if gates[i].Input? then At(ins, InputCount(gates[..i])) else 0,
                            if gates[i].Mul? then At(muls, |MulPositions(gates[..i])|) else 0, srv, p)
    ensures forall j :: 0 <= j <= i ==> GateImported(gates, j, ins, muls, srv, w', p)
  {
    forall j | 0 <= j <= i ensures GateImported(gates, j, ins, muls, srv, w', p) {
      assert ParentsBelow(gates[j], j);
      assert j < i ==> GateImported(gates, j, ins, muls, srv, w, p);
    }
  }

  // ---------- what the wires mean ----------

  /** `Eval` computes the circuit modulo p: every wire is its gate's operation on its parents' wires. */
  lemma WireMeans(gates: seq<Gate>, i: nat, inps: seq<int>, w: seq<int>, p: Modulus)
    requires Evaluated(gates, inps, w, p) && i < |gates| && InputCount(gates) <= |inps|
    ensures match gates[i]
            case Input => InputCount(gates[..i]) < |inps| && w[i] == inps[InputCount(gates[..i])]
            case Add(l, r) => l < i && r < i && Reduced(w[i], p) && Cong(w[i], w[l] + w[r], p)
            case AddConst(l, c) => l < i && Reduced(w[i], p) && Cong(w[i], w[l] + c, p)
            case Mul(l, r) => l < i && r < i && Reduced(w[i], p) && Cong(w[i], w[l] * w[r], p)
            case MulConst(l, c) => l < i && Reduced(w[i], p) && Cong(w[i], w[l] * c, p)
  {
    hide AddMod, MulMod, Cong, InputCount;
    assert ParentsBelow(gates[i], i) && GateEvaluated(gates, i, inps, w, p);
    match gates[i] {
      case Input => InputCountPrefix(gates, i);
      case Add(l, r) => AddModCong(w[l], w[r], p);
      case AddConst(l, c) => AddModCong(w[l], c, p);
      case Mul(l, r) => MulModCong(w[l], w[r], p);
      case MulConst(l, c) => MulModCong(w[l], c, p);
    }
  }

  /** `ImportWires` does the same on shares; constants are added by server 0 and products come from the packet. */
  lemma ShareMeans(gates: seq<Gate>, i: nat, ins: seq<int>, muls: seq<int>, serverNum: int, w: seq<int>, p: Modulus)
    requires Imported(gates, ins, muls, serverNum, w, p) && i < |gates|
    requires InputCount(gates) <= |ins| && |MulPositions(gates)| <= |muls|
    ensures match gates[i]
            case Input => InputCount(gates[..i]) < |ins| && w[i] == ins[InputCount(gates[..i])]
            case Add(l, r) => l < i && r < i && Reduced(w[i], p) && Cong(w[i], w[l] + w[r], p)
            case AddConst(l, c) =>
              l < i && Reduced(w[i], p) && Cong(w[i], w[l] + if serverNum == 0 then c else 0, p)
            case Mul(l, r) => |MulPositions(gates[..i])| < |muls| && w[i] == muls[|MulPositions(gates[..i])|]
            case MulConst(l, c) => l < i && Reduced(w[i], p) && Cong(w[i], w[l] * c, p)
  {
    hide AddMod, MulMod, Cong, InputCount, MulPositions;
    assert ParentsBelow(gates[i], i) && GateImported(gates, i, ins, muls, serverNum, w, p);
    InputCountPrefix(gates, i);
    MulPositionsPrefix(gates, i);
    match gates[i] {
      case Input =>
      case Add(l, r) => AddModCong(w[l], w[r], p);
      case AddConst(l, c) =>
        AddModCong(w[l], c, p);
        CongMod(w[l], p);
      case Mul(l, r) =>
      case MulConst(l, c) => MulModCong(w[l], c, p);
    }
  }
}
