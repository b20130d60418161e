/** The validation circuits of circuit.h: `CheckVar` and `CheckLinReg`. */
module ValidCircuits {
  import opened Modular
  import opened Circuits

  /** One check: input i times input j equals input k. */
  datatype Check = Check(i: nat, j: nat, k: nat)

  ghost predicate InRange(cs: seq<Check>, n: nat) {
    forall t :: 0 <= t < |cs| ==> cs[t].i < n && cs[t].j < n && cs[t].k < n
  }

  /** n input gates followed by three gates for each check. */
  function GatesFor(n: nat, cs: seq<Check>, p: Modulus): (g: seq<Gate>)
    ensures |g| == n + 3 * |cs|
  {
    if cs == [] then Inputs(n)
    else
      var init := cs[..|cs|-1];
      var c := cs[|cs|-1];
      GatesFor(n, init, p) + CheckGates(n + 3 * |init|, c.i, c.j, c.k, p)
  }

  function ZerosFor(n: nat, cs: seq<Check>): (z: seq<nat>)
    ensures |z| == |cs|
  {
    seq(|cs|, t requires 0 <= t < |cs| => n + 3 * t + 2)
  }

  /** The circuit consists of exactly these checks over n inputs. */
  ghost predicate Implements(c: Circuit, n: nat, cs: seq<Check>)
    reads c
  {
    && c.Valid() && InRange(cs, n)
    && c.gates == GatesFor(n, cs, c.p) && c.resultZero == ZerosFor(n, cs)
  }

  lemma {:induction false} InputsAt(n: nat, cs: seq<Check>, i: nat, p: Modulus)
    requires i < n
    ensures GatesFor(n, cs, p)[i] == Input
  {
    if cs != [] {
      InputsAt(n, cs[..|cs|-1], i, p);
    }
  }

  lemma {:induction false} CheckAt(n: nat, cs: seq<Check>, t: nat, p: Modulus)
    requires t < |cs|
    ensures var g, m, c := GatesFor(n, cs, p), n + 3 * t, cs[t];
            g[m] == Mul(c.i, c.j) && g[m+1] == MulConst(c.k, -1 % p) && g[m+2] == Add(m, m + 1)
  {
    if t < |cs| - 1 {
      CheckAt(n, cs[..|cs|-1], t, p);
    }
  }

  lemma {:induction false} InputCountOfInputs(n: nat, gates: seq<Gate>)
    requires |gates| == n && forall i :: 0 <= i < n ==> gates[i].Input?
    ensures InputCount(gates) == n
  {
    if n > 0 {
      InputCountOfInputs(n - 1, gates[..n-1]);
    }
  }

  lemma {:induction false} InputCountFor(n: nat, cs: seq<Check>, p: Modulus)
    ensures InputCount(GatesFor(n, cs, p)) == n
    ensures |MulPositions(GatesFor(n, cs, p))| == |cs|
  {
    var g := GatesFor(n, cs, p);
    if cs == [] {
      InputCountOfInputs(n, g);
      NoMuls(g);
    } else {
      var m := |g| - 3;
      InputCountFor(n, cs[..|cs|-1], p);
      assert g[..m] == GatesFor(n, cs[..|cs|-1], p);
      CountStep(g, m);
      CountStep(g, m + 1);
      CountStep(g, m + 2);
      assert g[..m+3] == g;
    }
  }

  lemma CountStep(g: seq<Gate>, m: nat)
    requires m < |g|
    ensures InputCount(g[..m+1]) == InputCount(g[..m]) + if g[m].Input? then 1 else 0
    ensures MulPositions(g[..m+1]) == MulPositions(g[..m]) + if g[m].Mul? then [m] else []
  {
    assert g[..m+1][..m] == g[..m];
  }

  lemma {:induction false} NoMuls(gates: seq<Gate>)
    requires forall i :: 0 <= i < |gates| ==> gates[i].Input?
    ensures MulPositions(gates) == []
  {
    if gates != [] {
      NoMuls(gates[..|gates|-1]);
    }
  }

  /** Input wires hold the inputs. */
  lemma InputWire(n: nat, cs: seq<Check>, inps: seq<int>, w: seq<int>, i: nat, p: Modulus)
    requires Evaluated(GatesFor(n, cs, p), inps, w, p) && i < n <= |inps|
    ensures w[i] == inps[i]
  {
    var g := GatesFor(n, cs, p);
    assert GateEvaluated(g, i, inps, w, p);
    InputsAt(n, cs, i, p);
    forall j | 0 <= j < i ensures g[..i][j].Input? {
      InputsAt(n, cs, j, p);
    }
    InputCountOfInputs(i, g[..i]);
  }

  ghost predicate Holds(c: Check, inps: seq<int>, p: Modulus) {
    c.i < |inps| && c.j < |inps| && c.k < |inps| && Cong(inps[c.i] * inps[c.j], inps[c.k], p)
  }

  /** x y - z as the three gates compute it. */
  lemma ZeroGate(x: int, y: int, z: int, p: Modulus)
    ensures AddMod(MulMod(x, y, p), MulMod(z, -1 % p, p), p) == 0 <==> Cong(x * y, z, p)
  {
    hide MulMod;
    var a, b := MulMod(x, y, p), MulMod(z, -1 % p, p);
    MulModCong(x, y, p);
    MulModCong(z, -1 % p, p);
    CongMod(-1, p);
    CongScale(z, -1 % p, -1, p);
    CongAdd(a, x * y, b, z * -1, p);
    AddModCong(a, b, p);
    CongZeroDifference(x * y, z, p);
    if Cong(x * y, z, p) {
      ReducedEqual(AddMod(a, b, p), 0, p);
    }
  }

  lemma ZeroWire(n: nat, cs: seq<Check>, inps: seq<int>, w: seq<int>, t: nat, p: Modulus)
    requires Evaluated(GatesFor(n, cs, p), inps, w, p) && InRange(cs, n) && t < |cs| && n <= |inps|
    ensures w[n + 3 * t + 2] == 0 <==> Holds(cs[t], inps, p)
  {
    var g, m, c := GatesFor(n, cs, p), n + 3 * t, cs[t];
    CheckAt(n, cs, t, p);
    assert GateEvaluated(g, m, inps, w, p) && GateEvaluated(g, m + 1, inps, w, p);
    assert GateEvaluated(g, m + 2, inps, w, p);
    InputWire(n, cs, inps, w, c.i, p);
    InputWire(n, cs, inps, w, c.j, p);
    InputWire(n, cs, inps, w, c.k, p);
    ZeroGate(inps[c.i], inps[c.j], inps[c.k], p);
  }

  /** The circuit accepts exactly the inputs on which every check holds. */
  lemma AcceptsExactly(n: nat, cs: seq<Check>, inps: seq<int>, w: seq<int>, p: Modulus)
    requires Evaluated(GatesFor(n, cs, p), inps, w, p) && InRange(cs, n) && n <= |inps|
    ensures Accepting(ZerosFor(n, cs), w) <==> forall t :: 0 <= t < |cs| ==> Holds(cs[t], inps, p)
  {
    var z := ZerosFor(n, cs);
    forall t | 0 <= t < |cs| ensures w[z[t]] == 0 <==> Holds(cs[t], inps, p) {
      ZeroWire(n, cs, inps, w, t, p);
    }
    if Accepting(z, w) {
      forall t | 0 <= t < |cs| ensures Holds(cs[t], inps, p) {
        assert z[t] < |w|;
      }
    }
  }

  method AddCheck(out: Circuit, ghost n: nat, ghost cs: seq<Check>, c: Check)
    requires Implements(out, n, cs) && c.i < n && c.j < n && c.k < n
    modifies out
    ensures Implements(out, n, cs + [c])
  {
    hide MulPositions, CheckGates;
    assert (cs + [c])[..|cs|] == cs;
    out.AddCheckMulEqual(c.i, c.j, c.k);
  }

  /** x^2 = y */
  method CheckVar(p: Modulus) returns (out: Circuit)
    ensures fresh(out) && out.p == p && Implements(out, 2, [Check(0, 0, 1)])
  {
    out := new Circuit(p, 2);
    AddCheck(out, 2, [], Check(0, 0, 1));
    assert [] + [Check(0, 0, 1)] == [Check(0, 0, 1)];
  }

  lemma CheckVarAccepts(inps: seq<int>, w: seq<int>, p: Modulus)
    requires Evaluated(GatesFor(2, [Check(0, 0, 1)], p), inps, w, p) && |inps| == 2
    ensures Accepting(ZerosFor(2, [Check(0, 0, 1)]), w) <==> Cong(inps[0] * inps[0], inps[1], p)
  {
    var cs := [Check(0, 0, 1)];
    AcceptsExactly(2, cs, inps, w, p);
    assert Holds(cs[0], inps, p) <==> Cong(inps[0] * inps[0], inps[1], p);
  }

  // ---------- linear regression ----------

  /** Number of pairs (r, c) with r < i, r <= c < numX. */
  function PairsBefore(numX: nat, i: nat): (s: nat)
    requires i <= numX
  {
    if i == 0 then 0 else PairsBefore(numX, i - 1) + numX - (i - 1)
  }

  lemma {:induction false} PairsBeforeClosed(numX: nat, i: nat)
    requires i <= numX
    ensures 2 * PairsBefore(numX, i) == i * (2 * numX - i + 1)
  {
    if i > 0 {
      PairsBeforeClosed(numX, i - 1);
      assert (i - 1) * (2 * numX - (i - 1) + 1) + 2 * (numX - (i - 1)) == i * (2 * numX - i + 1);
    }
  }

  /** The field count as the source writes it. */
  lemma NumFieldsClosed(degree: nat)
    requires degree >= 1
    ensures var numX := degree - 1; 2 * numX + 1 + numX * (numX + 1) / 2 == NumFields(degree)
  {
    PairsBeforeClosed(degree - 1, degree - 1);
  }

  /** Field holding x_i x_j. */
  function QuadField(degree: nat, i: nat, j: nat): nat
    requires i <= j < degree - 1
  {
    degree + PairsBefore(degree - 1, i) + (j - i)
  }

  /** Field holding y x_i. */
  function CrossField(degree: nat, i: nat): nat
    requires i < degree - 1
  {
    degree + PairsBefore(degree - 1, degree - 1) + i
  }

  function NumFields(degree: nat): nat
    requires degree >= 1
  {
    degree + PairsBefore(degree - 1, degree - 1) + (degree - 1)
  }

  function RowChecks(degree: nat, i: nat): (cs: seq<Check>)
    requires i < degree - 1
    ensures |cs| == degree - 1 - i
  {
    seq(degree - 1 - i, t requires 0 <= t < degree - 1 - i => Check(i, i + t, QuadField(degree, i, i + t)))
  }

  function QuadChecks(degree: nat, m: nat): (cs: seq<Check>)
    requires degree >= 1 && m <= degree - 1
    ensures |cs| == PairsBefore(degree - 1, m)
  {
    if m == 0 then [] else QuadChecks(degree, m - 1) + RowChecks(degree, m - 1)
  }

  function CrossChecks(degree: nat): (cs: seq<Check>)
    requires degree >= 1
    ensures |cs| == degree - 1
  {
    seq(degree - 1, i requires 0 <= i < degree - 1 => Check(degree - 1, i, CrossField(degree, i)))
  }

  function LinRegChecks(degree: nat): seq<Check>
    requires degree >= 1
  {
    QuadChecks(degree, degree - 1) + CrossChecks(degree)
  }

  lemma FieldsInRange(degree: nat, i: nat, j: nat)
    requires i <= j < degree - 1
    ensures QuadField(degree, i, j) < degree + PairsBefore(degree - 1, degree - 1)
  {
    PairsBeforeMonotone(degree - 1, i + 1, degree - 1);
  }

  lemma {:induction false} PairsBeforeMonotone(numX: nat, a: nat, b: nat)
    requires a <= b <= numX
    ensures PairsBefore(numX, a) <= PairsBefore(numX, b)
    decreases b
  {
    if a < b {
      PairsBeforeMonotone(numX, a, b - 1);
    }
  }

  lemma {:induction false} QuadChecksInRange(degree: nat, m: nat)
    requires degree >= 1 && m <= degree - 1
    ensures InRange(QuadChecks(degree, m), NumFields(degree))
  {
    if m > 0 {
      QuadChecksInRange(degree, m - 1);
      var row := RowChecks(degree, m - 1);
      forall t | 0 <= t < |row| ensures row[t].k < NumFields(degree) {
        FieldsInRange(degree, m - 1, m - 1 + t);
      }
    }
  }

  /** The inner loop over j: products of feature i with the features from i on. */
  method AddRow(out: Circuit, ghost cs: seq<Check>, degree: nat, i: nat, start: nat) returns (idx: nat)
    requires i < degree - 1 && start == degree + PairsBefore(degree - 1, i)
    requires Implements(out, NumFields(degree), cs)
    modifies out
    ensures Implements(out, NumFields(degree), cs + RowChecks(degree, i))
    ensures idx == degree + PairsBefore(degree - 1, i + 1)
  {
    hide Implements;
    ghost var row, n := RowChecks(degree, i), NumFields(degree);
    assert cs + row[..0] == cs;
    idx := start;
    for j := i to degree - 1
      invariant Implements(out, n, cs + row[..j-i])
      invariant idx == start + (j - i)
    {
      FieldsInRange(degree, i, j);
      assert row[j-i] == Check(i, j, idx);
      AddCheck(out, n, cs + row[..j-i], Check(i, j, idx));
      assert cs + row[..j-i] + [row[j-i]] == cs + row[..j+1-i];
      idx := idx + 1;
    }
    assert row[..degree-1-i] == row;
  }

  /** The last loop: products of the target with every feature. */
  method AddCross(out: Circuit, ghost cs: seq<Check>, degree: nat, idx: nat)
    requires degree >= 1 && idx == degree + PairsBefore(degree - 1, degree - 1)
    requires Implements(out, NumFields(degree), cs)
    modifies out
    ensures Implements(out, NumFields(degree), cs + CrossChecks(degree))
  {
    hide Implements;
    ghost var cross, n := CrossChecks(degree), NumFields(degree);
    assert cs + cross[..0] == cs;
    for i := 0 to degree - 1
      invariant Implements(out, n, cs + cross[..i])
    {
      assert cross[i] == Check(degree - 1, i, idx + i);
      AddCheck(out, n, cs + cross[..i], Check(degree - 1, i, idx + i));
      assert cs + cross[..i] + [cross[i]] == cs + cross[..i+1];
    }
    assert cross[..degree-1] == cross;
  }

  /** Products of features, then products with the target, for `degree` - 1 features. */
  method CheckLinReg(degree: nat, p: Modulus) returns (out: Circuit)
    requires degree >= 1
    ensures fresh(out) && out.p == p && Implements(out, NumFields(degree), LinRegChecks(degree))
  {
    var numX := degree - 1;
    out := NewInputs(2 * numX + 1 + numX * (numX + 1) / 2, p);
    NumFieldsClosed(degree);
    var idx := AddRows(out, degree);
    AddCross(out, QuadChecks(degree, numX), degree, idx);
  }

  method NewInputs(n: nat, p: Modulus) returns (out: Circuit)
    ensures fresh(out) && out.p == p && Implements(out, n, [])
  {
    out := new Circuit(p, n);
  }

  method AddRows(out: Circuit, degree: nat) returns (idx: nat)
    requires degree >= 1 && Implements(out, NumFields(degree), [])
    modifies out
    ensures Implements(out, NumFields(degree), QuadChecks(degree, degree - 1))
    ensures idx == degree + PairsBefore(degree - 1, degree - 1)
  {
    hide Implements, NumFields;
    idx := degree;
    for i := 0 to degree - 1
      invariant Implements(out, NumFields(degree), QuadChecks(degree, i))
      invariant idx == degree + PairsBefore(degree - 1, i)
    {
      idx := AddRow(out, QuadChecks(degree, i), degree, i, idx);
    }
  }

  /** The fields are the products they should be, modulo p. */
  ghost predicate ProductsCorrect(degree: nat, inps: seq<int>, p: Modulus)
    requires degree >= 1 && |inps| == NumFields(degree)
  {
    && (forall i, j :: 0 <= i <= j < degree - 1 ==>
          && QuadField(degree, i, j) < |inps|
          && Cong(inps[i] * inps[j], inps[QuadField(degree, i, j)], p))
    && (forall i :: 0 <= i < degree - 1 ==> Cong(inps[degree-1] * inps[i], inps[CrossField(degree, i)], p))
  }

  ghost predicate AllHold(cs: seq<Check>, inps: seq<int>, p: Modulus) {
    forall t :: 0 <= t < |cs| ==> Holds(cs[t], inps, p)
  }

  lemma {:induction false} QuadChecksHold(degree: nat, m: nat, inps: seq<int>, p: Modulus)
    requires degree >= 1 && m <= degree - 1 && |inps| == NumFields(degree)
    ensures AllHold(QuadChecks(degree, m), inps, p) <==>
              forall i, j :: 0 <= i < m && i <= j < degree - 1 ==> Holds(Check(i, j, QuadField(degree, i, j)), inps, p)
  {
    if m > 0 {
      var row, init := RowChecks(degree, m - 1), QuadChecks(degree, m - 1);
      QuadChecksHold(degree, m - 1, inps, p);
      assert AllHold(init + row, inps, p) <==> AllHold(init, inps, p) && AllHold(row, inps, p) by {
        AllHoldConcat(init, row, inps, p);
      }
      if AllHold(row, inps, p) {
        forall i, j | i == m - 1 && i <= j < degree - 1 ensures Holds(Check(i, j, QuadField(degree, i, j)), inps, p) {
          assert Holds(row[j-(m-1)], inps, p);
        }
      }
    }
  }

  lemma AllHoldConcat(a: seq<Check>, b: seq<Check>, inps: seq<int>, p: Modulus)
    ensures AllHold(a + b, inps, p) <==> AllHold(a, inps, p) && AllHold(b, inps, p)
  {
    if AllHold(a + b, inps, p) {
      forall t | 0 <= t < |a| ensures Holds(a[t], inps, p) {
        assert (a + b)[t] == a[t];
      }
      forall t | 0 <= t < |b| ensures Holds(b[t], inps, p) {
        assert (a + b)[|a|+t] == b[t];
      }
    }
  }

  /** The regression circuit accepts exactly the inputs whose product blocks are correct. */
  lemma CheckLinRegAccepts(degree: nat, inps: seq<int>, w: seq<int>, p: Modulus)
    requires degree >= 1 && |inps| == NumFields(degree)
    requires Evaluated(GatesFor(NumFields(degree), LinRegChecks(degree), p), inps, w, p)
    ensures Accepting(ZerosFor(NumFields(degree), LinRegChecks(degree)), w) <==> ProductsCorrect(degree, inps, p)
  {
    hide QuadChecks, CrossChecks, GatesFor, ZerosFor, Cong;
    var quads, cross := QuadChecks(degree, degree - 1), CrossChecks(degree);
    LinRegChecksInRange(degree);
    AcceptsExactly(NumFields(degree), LinRegChecks(degree), inps, w, p);
    QuadChecksHold(degree, degree - 1, inps, p);
    AllHoldConcat(quads, cross, inps, p);
    CrossChecksHold(degree, inps, p);
    if AllHold(quads, inps, p) {
      forall i, j | 0 <= i <= j < degree - 1
        ensures QuadField(degree, i, j) < |inps| && Cong(inps[i] * inps[j], inps[QuadField(degree, i, j)], p)
      {
        assert Holds(Check(i, j, QuadField(degree, i, j)), inps, p);
      }
    }
    if ProductsCorrect(degree, inps, p) {
      forall i, j | 0 <= i < degree - 1 && i <= j < degree - 1
        ensures Holds(Check(i, j, QuadField(degree, i, j)), inps, p)
      {
      }
    }
  }

  lemma LinRegChecksInRange(degree: nat)
    requires degree >= 1
    ensures InRange(LinRegChecks(degree), NumFields(degree))
  {
    QuadChecksInRange(degree, degree - 1);
  }

  lemma CrossChecksHold(degree: nat, inps: seq<int>, p: Modulus)
    requires degree >= 1 && |inps| == NumFields(degree)
    ensures AllHold(CrossChecks(degree), inps, p) <==>
              forall i :: 0 <= i < degree - 1 ==> Cong(inps[degree-1] * inps[i], inps[CrossField(degree, i)], p)
  {
    var cross := CrossChecks(degree);
    if AllHold(cross, inps, p) {
      forall i | 0 <= i < degree - 1 ensures Cong(inps[degree-1] * inps[i], inps[CrossField(degree, i)], p) {
        assert Holds(cross[i], inps, p);
      }
    }
  }
}
