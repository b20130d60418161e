/** Honest clients of a linear regression: client.cpp, `lin_reg_helper`. */
module LinRegClients {
  import opened Modular
  import opened RootsOfUnity
  import opened RootTables
  import opened Shares
  import opened Words
  import opened Circuits
  import opened Snip
  import opened Checkers
  import opened Client
  import opened Servers
  import opened LinReg
  import VC = ValidCircuits

  /** What a client knows: its features and its target. */
  datatype Sample = Sample(x: seq<nat>, y: nat)
  {
    ghost predicate Fits(degree: nat, bits: nat)
    {
      |x| == degree - 1 && y < Pow2(bits) && forall k :: 0 <= k < |x| ==> x[k] < Pow2(bits)
    }
  }

  /** The width of each field: products are twice as wide. */
  function Widths(degree: nat, bits: nat): (w: seq<nat>)
    requires degree >= 1
    ensures |w| == VC.NumFields(degree)
  {
    seq(VC.NumFields(degree), i => if i >= degree then 2 * bits else bits)
  }

  function Gates(degree: nat, p: Modulus): (g: seq<Gate>)
    requires degree >= 1
  {
    VC.GatesFor(VC.NumFields(degree), VC.LinRegChecks(degree), p)
  }

  function Zeros(degree: nat): (z: seq<nat>)
    requires degree >= 1
    ensures |z| == |VC.LinRegChecks(degree)|
  {
    VC.ZerosFor(VC.NumFields(degree), VC.LinRegChecks(degree))
  }

  // ---------- the fields fit their widths ----------

  lemma {:induction false} RowOfField(numX: nat, m: nat, t: nat) returns (i: nat)
    requires m <= numX && t < VC.PairsBefore(numX, m)
    ensures i < m && VC.PairsBefore(numX, i) <= t < VC.PairsBefore(numX, i) + (numX - i)
  {
    if t < VC.PairsBefore(numX, m - 1) {
      i := RowOfField(numX, m - 1, t);
    } else {
      i := m - 1;
    }
  }

  lemma ProductFits(a: nat, b: nat, bits: nat)
    requires a < Pow2(bits) && b < Pow2(bits)
    ensures 0 <= a * b < Pow2(2 * bits)
  {
    Pow2Plus(bits, bits);
    StrictProduct(a, b, Pow2(bits));
  }

  ghost predicate FieldFits(inp: seq<int>, k: nat, bits: nat) {
    k < |inp| && 0 <= inp[k] < Pow2(bits)
  }

  /** Every field of an encoding is below its width. */
  lemma FieldBelow(inp: seq<int>, s: Sample, degree: nat, bits: nat, k: nat)
    requires degree >= 1 && s.Fits(degree, bits) && IsEncoding(inp, s.x, s.y, degree) && k < VC.NumFields(degree)
    ensures FieldFits(inp, k, Widths(degree, bits)[k])
  {
    hide Pow2;
    var numX := degree - 1;
    if degree <= k < degree + VC.PairsBefore(numX, numX) {
      var i := RowOfField(numX, numX, k - degree);
      var j := i + (k - degree - VC.PairsBefore(numX, i));
      assert HoldsProduct(inp, VC.QuadField(degree, i, j), s.x[i], s.x[j]);
      ProductFits(s.x[i], s.x[j], bits);
    } else if k >= degree {
      var i := k - degree - VC.PairsBefore(numX, numX);
      assert HoldsProduct(inp, VC.CrossField(degree, i), s.x[i], s.y);
      ProductFits(s.x[i], s.y, bits);
    }
  }

  // ---------- splitting the fields ----------

  ghost predicate FieldSplit(a: nat, b: nat, v: int, bits: nat) {
    0 <= v < Pow2(bits) && a < Pow2(bits) && b < Pow2(bits) && XorShares(a, b, v, bits)
  }

  /** Both halves pass the servers' size test and XOR to the fields. */
  ghost predicate FieldsSplit(a: seq<nat>, b: seq<nat>, inp: seq<int>, widths: seq<nat>) {
    && |a| == |b| == |inp| == |widths|
    && forall k :: 0 <= k < |inp| ==> FieldSplit(a[k], b[k], inp[k], widths[k])
  }

  method SplitFields(inp: seq<int>, widths: seq<nat>) returns (a: seq<nat>, b: seq<nat>)
    requires |inp| == |widths| && forall k :: 0 <= k < |inp| ==> widths[k] <= 64 && FieldFits(inp, k, widths[k])
    ensures FieldsSplit(a, b, inp, widths)
  {
    hide Pow2, XorShares;
    a, b := [], [];
    for k := 0 to |inp|
      invariant |a| == |b| == k
      invariant forall i :: 0 <= i < k ==> FieldSplit(a[i], b[i], inp[i], widths[i])
    {
      assert FieldFits(inp, k, widths[k]);
      var x, y := SplitWord(inp[k], widths[k]);
      a, b := a + [x], b + [y];
    }
  }

  // ---------- the packets ----------

  /** The packets prove that the circuit accepts these inputs. */
  ghost predicate Packed(dom: Domain, gates: seq<Gate>, zeros: seq<nat>, inp: seq<int>, pk0: Packet, pk1: Packet) {
    exists w: seq<int>, f0: int, g0: int :: PackedBy(dom, gates, zeros, inp, pk0, pk1, w, f0, g0)
  }

  ghost predicate PackedBy(dom: Domain, gates: seq<Gate>, zeros: seq<nat>, inp: seq<int>, pk0: Packet, pk1: Packet,
                           w: seq<int>, f0: int, g0: int)
  {
    && Evaluated(gates, inp, w, dom.p) && Accepting(zeros, w) && |dom.roots2| == 2 * |dom.roots|
    && HonestPackets(dom, gates, w, pk0, pk1, f0, g0)
  }

  /** The size of the domain for this circuit. */
  ghost predicate SizeFor(c: Params, degree: nat, N: nat)
    requires degree >= 1
  {
    c.Valid() && |VC.LinRegChecks(degree)| < 0x8000_0000 && IsNextPower(|VC.LinRegChecks(degree)|, N) && c.Supports(N)
  }

  lemma SizePositive(c: Params, degree: nat, N: nat)
    requires degree >= 1 && SizeFor(c, degree, N)
    ensures N > 0
  {
  }

  /** Tables that do not exist yet or belong to size N. */
  ghost predicate TablesFor(tables: Tables, c: Params, N: nat)
    reads tables, tables.roots, tables.invroots, tables.roots2
  {
    tables.Valid(c) && (tables.numRoots == 0 || tables.numRoots == N)
  }

  method MakePackets(c: Params, tables: Tables, inp: seq<int>, degree: nat, ghost N: nat)
    returns (p0: ClientPacket, p1: ClientPacket)
    requires degree >= 1 && SizeFor(c, degree, N) && TablesFor(tables, c, N)
    requires |inp| == VC.NumFields(degree) && VC.ProductsCorrect(degree, inp, c.p)
    modifies tables
    ensures TablesFor(tables, c, N) && fresh(p0) && fresh(p1)
    ensures Packed(DomainFor(c, N), Gates(degree, c.p), Zeros(degree), inp, p0.View(), p1.View())
  {
    hide VC.ProductsCorrect, VC.LinRegChecks, VC.GatesFor, VC.ZerosFor, VC.NumFields, DomainFor, HonestPackets,
         Evaluated, AreTables, ArePowers, IsNextPower,
         MulPositions, InputCount, Accepting, Params.Valid, Params.Supports;
    var circuit := VC.CheckLinReg(degree, c.p);
    VC.InputCountFor(VC.NumFields(degree), VC.LinRegChecks(degree), c.p);
    var ok := circuit.Eval(inp);
    p0 := new ClientPacket(|circuit.mulGates|, 0);
    p1 := new ClientPacket(|circuit.mulGates|, 0);
    ghost var f0, g0 := SharePolynomials(c, tables, circuit, p0, p1, N);
    VC.CheckLinRegAccepts(degree, inp, circuit.wire, c.p);
    SizePositive(c, degree, N);
    TablesAreDomainFor(tables.roots[..], tables.invroots[..], tables.roots2[..], N, c);
    assert PackedBy(DomainFor(c, N), Gates(degree, c.p), Zeros(degree), inp, p0.View(), p1.View(), circuit.wire,
                    f0, g0);
  }

  /** One client: its fields, their halves and its two packets. */
  method EncodeClient(c: Params, tables: Tables, s: Sample, degree: nat, bits: nat, ghost N: nat)
    returns (a: seq<nat>, b: seq<nat>, p0: ClientPacket, p1: ClientPacket, ghost inp: seq<int>)
    requires degree >= 1 && SizeFor(c, degree, N) && TablesFor(tables, c, N)
    requires bits <= 31 && s.Fits(degree, bits)
    modifies tables
    ensures TablesFor(tables, c, N) && fresh(p0) && fresh(p1)
    ensures IsEncoding(inp, s.x, s.y, degree) && FieldsSplit(a, b, inp, Widths(degree, bits))
    ensures Packed(DomainFor(c, N), Gates(degree, c.p), Zeros(degree), inp, p0.View(), p1.View())
  {
    hide IsEncoding, SizeFor, TablesFor, Packed, DomainFor, FieldsSplit, VC.ProductsCorrect, VC.NumFields, Pow2;
    Pow2Monotone(bits, 31);
    Pow2At31();
    var fields := EncodeLinReg(s.x, s.y, degree);
    inp := fields;
    EncodingAccepted(fields, s.x, s.y, degree, c.p);
    EncodingSize(fields, s, degree);
    forall k | 0 <= k < |fields| ensures FieldFits(fields, k, Widths(degree, bits)[k]) {
      FieldBelow(fields, s, degree, bits, k);
    }
    a, b := SplitFields(fields, Widths(degree, bits));
    p0, p1 := MakePackets(c, tables, fields, degree, N);
  }

  lemma EncodingSize(inp: seq<int>, s: Sample, degree: nat)
    requires degree >= 1 && IsEncoding(inp, s.x, s.y, degree)
    ensures |inp| == VC.NumFields(degree)
  {
  }
}
