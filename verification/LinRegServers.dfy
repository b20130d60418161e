/** `linreg_op` on both servers, for any submissions. */
module LinRegServers {
  import opened Modular
  import opened RootsOfUnity
  import opened RootTables
  import Sets
  import opened Permutations
  import opened KeyMatch
  import opened Shares
  import opened Words
  import opened Rows
  import opened Ot
  import opened Correlated
  import opened Conversion
  import opened Aggregation
  import opened Circuits
  import opened Snip
  import opened Checkers
  import opened Servers
  import opened Validation
  import opened Sessions
  import opened LinReg
  import opened LinRegClients
  import VS = VerdictSoundness
  import SE = SoundnessError
  import Verdicts
  import VC = ValidCircuits

  // ---------- receiving ----------

  /** What one server gets from one client: its words and its packet. */
  datatype Entry = Entry(row: seq<nat>, packet: ClientPacket)

  type Message = Submission<Entry>

  /** Every word is below 2 to its width. */
  predicate SizesValid(row: seq<nat>, widths: seq<nat>) {
    |row| == |widths| && forall k :: 0 <= k < |row| ==> row[k] < Pow2(widths[k])
  }

  method TestSizes(row: seq<nat>, widths: seq<nat>) returns (ok: bool)
    requires |row| == |widths|
    ensures ok <==> SizesValid(row, widths)
  {
    ok := true;
    for k := 0 to |row|
      invariant ok <==> forall i :: 0 <= i < k ==> row[i] < Pow2(widths[i])
    {
      if row[k] >= Pow2(widths[k]) {
        ok := false;
      }
    }
  }

  /** The share map after n messages: the first one of the right sizes counts under each key. */
  function SizedMap(inputs: seq<Message>, widths: seq<nat>, n: nat): map<Key, Entry>
    requires n <= |inputs|
  {
    if n == 0 then map[] else
      var m := SizedMap(inputs, widths, n - 1);
      var i := inputs[n-1];
      if i.pk in m || !SizesValid(i.val.row, widths) then m else m[i.pk := i.val]
  }

  method ReceiveEntries(inputs: seq<Message>, widths: seq<nat>) returns (m: map<Key, Entry>)
    requires forall i :: 0 <= i < |inputs| ==> |inputs[i].val.row| == |widths|
    ensures m == SizedMap(inputs, widths, |inputs|)
  {
    hide SizesValid;
    m := map[];
    for i := 0 to |inputs|
      invariant m == SizedMap(inputs, widths, i)
    {
      var sizesValid := TestSizes(inputs[i].val.row, widths);
      if inputs[i].pk in m || !sizesValid {
        continue;
      }
      m := m[inputs[i].pk := inputs[i].val];
    }
  }

  /** Where all words pass the size test the map is that of all messages. */
  lemma {:induction false} AllSizesValid(inputs: seq<Message>, widths: seq<nat>, n: nat)
    requires n <= |inputs| && forall i :: 0 <= i < n ==> SizesValid(inputs[i].val.row, widths)
    ensures SizedMap(inputs, widths, n) == ShareMap(inputs, n)
  {
    hide SizesValid;
    if n > 0 {
      AllSizesValid(inputs, widths, n - 1);
    }
  }

  lemma {:induction false} SizedMapValid(inputs: seq<Message>, widths: seq<nat>, n: nat)
    requires n <= |inputs|
    ensures forall k :: k in SizedMap(inputs, widths, n) ==> SizesValid(SizedMap(inputs, widths, n)[k].row, widths)
  {
    hide SizesValid;
    if n > 0 {
      SizedMapValid(inputs, widths, n - 1);
    }
  }

  /** The words and the packet have the lengths that were asked for. */
  ghost predicate EntryFits(e: Entry, degree: nat, p: Modulus, N: nat)
    requires degree >= 1
    reads e.packet
  {
    |e.row| == VC.NumFields(degree) && WellSized(e.packet.View(), Gates(degree, p), N)
  }

  ghost predicate AllFitIn(m: map<Key, Entry>, degree: nat, p: Modulus, N: nat)
    requires degree >= 1
    reads set k | k in m :: m[k].packet
  {
    forall k :: k in m ==> EntryFits(m[k], degree, p, N)
  }

  ghost predicate InputsFit(inputs: seq<Message>, degree: nat, p: Modulus, N: nat)
    requires degree >= 1
    reads set i | 0 <= i < |inputs| :: inputs[i].val.packet
  {
    forall i :: 0 <= i < |inputs| ==> EntryFits(inputs[i].val, degree, p, N)
  }

  lemma {:induction false} SizedMapFits(inputs: seq<Message>, widths: seq<nat>, n: nat, degree: nat, p: Modulus, N: nat)
    requires degree >= 1 && n <= |inputs| && InputsFit(inputs, degree, p, N)
    ensures AllFitIn(SizedMap(inputs, widths, n), degree, p, N)
  {
    hide EntryFits, SizesValid;
    if n > 0 {
      SizedMapFits(inputs, widths, n - 1, degree, p, N);
    }
  }

  // ---------- matching ----------

  /** The clients in server 1's order, whether server 0 knows them, and the verdicts of the SNIP check. */
  datatype Served = Served(order: seq<Key>, entries0: seq<Entry>, entries1: seq<Entry>, known: seq<bool>,
                           verdicts: seq<bool>)
  {
    predicate Sized(n: nat) {
      |order| == |entries0| == |entries1| == |known| == |verdicts| == n
    }

    /** `valid` */
    function Valid(): (valid: seq<bool>)
      requires Sized(|order|)
      ensures |valid| == |order|
    {
      seq(|order|, i requires 0 <= i < |order| => known[i] && verdicts[i])
    }
  }

  ghost predicate MatchedBy(order: seq<Key>, entries0: seq<Entry>, entries1: seq<Entry>, known: seq<bool>,
                            m0: map<Key, Entry>, m1: map<Key, Entry>)
  {
    && Lists(order, m1) && |order| == |entries0| == |entries1| == |known|
    && forall i :: 0 <= i < |order| ==>
         && order[i] in m1 && entries1[i] == m1[order[i]] && known[i] == (order[i] in m0)
         && (known[i] ==> entries0[i] == m0[order[i]])
  }

  /** Unset words and an empty packet for each place. */
  method EmptyEntries(n: nat, degree: nat, p: Modulus, ghost N: nat) returns (fill: seq<Entry>)
    requires degree >= 1 && |VC.LinRegChecks(degree)| < 0x8000_0000 && IsNextPower(|VC.LinRegChecks(degree)|, N)
    ensures |fill| == n
    ensures forall i :: 0 <= i < n ==> EntryFits(fill[i], degree, p, N) && fresh(fill[i].packet)
  {
    hide VC.GatesFor, VC.LinRegChecks, VC.NumFields, MulPositions, IsNextPower;
    VC.InputCountFor(VC.NumFields(degree), VC.LinRegChecks(degree), p);
    var mock := VC.CheckLinReg(degree, p);
    var nMul := |mock.mulGates|;
    var size := NextPowerOfTwo(nMul);
    NextPowerUnique(nMul, size, N);
    NextPowerAbove(nMul, N);
    fill := [];
    for i := 0 to n
      invariant |fill| == i
      invariant forall k :: 0 <= k < i ==> EntryFits(fill[k], degree, p, N) && fresh(fill[k].packet)
    {
      var packet := new ClientPacket(nMul, size);
      var row := UnsetWords(VC.NumFields(degree));
      fill := fill + [Entry(row, packet)];
    }
  }

  method UnsetWords(n: nat) returns (row: seq<nat>)
    ensures |row| == n
  {
    row := [];
    for i := 0 to n
      invariant |row| == i
    {
      var word: nat := *;
      row := row + [word];
    }
  }

  method MatchEntries(m0: map<Key, Entry>, m1: map<Key, Entry>, degree: nat, p: Modulus, ghost N: nat)
    returns (order: seq<Key>, entries0: seq<Entry>, entries1: seq<Entry>, known: seq<bool>)
    requires degree >= 1 && |VC.LinRegChecks(degree)| < 0x8000_0000 && IsNextPower(|VC.LinRegChecks(degree)|, N)
    requires AllFitIn(m0, degree, p, N) && AllFitIn(m1, degree, p, N)
    ensures MatchedBy(order, entries0, entries1, known, m0, m1)
    ensures forall i :: 0 <= i < |order| ==>
              EntryFits(entries0[i], degree, p, N) && EntryFits(entries1[i], degree, p, N)
  {
    hide EntryFits, Known;
    order := KeyOrder(m1);
    entries1 := SharesInOrder(order, m1);
    var fill := EmptyEntries(|order|, degree, p, N);
    var numKnown;
    entries0, known, numKnown := LookUp(order, m0, fill);
  }

  // ---------- conversion ----------

  /** What the two halves of a client's words open to, cut to their widths. */
  function OpenedRow(row0: seq<nat>, row1: seq<nat>, widths: seq<nat>): (v: seq<int>)
    requires |row0| == |row1| == |widths|
    ensures |v| == |widths|
  {
    seq(|widths|, j requires 0 <= j < |widths| => XorBits(row0[j], row1[j], widths[j]))
  }

  ghost predicate RowOpens(row0: seq<nat>, row1: seq<nat>, field: seq<int>, widths: seq<nat>) {
    |row0| == |row1| == |widths| && field == OpenedRow(row0, row1, widths)
  }

  /** The field is the XOR of the two whole words: nothing is cut off. */
  ghost predicate WholeWords(row0: seq<nat>, row1: seq<nat>, field: seq<int>) {
    |row0| == |row1| == |field| && forall k :: 0 <= k < |field| ==> field[k] == XorBits(row0[k], row1[k], 64)
  }

  /** The size test makes sure of that. */
  lemma SizedOpenWhole(row0: seq<nat>, row1: seq<nat>, field: seq<int>, widths: seq<nat>)
    requires RowOpens(row0, row1, field, widths) && SizesValid(row0, widths) && SizesValid(row1, widths)
    requires forall k :: 0 <= k < |widths| ==> widths[k] <= 64
    ensures WholeWords(row0, row1, field)
  {
    hide Pow2, XorBits;
    forall k | 0 <= k < |field| ensures field[k] == XorBits(row0[k], row1[k], 64) {
      XorWide(row0[k], row1[k], widths[k], 64);
    }
  }

  ghost predicate RowsOpen(rows0: seq<seq<nat>>, rows1: seq<seq<nat>>, fields: seq<seq<int>>, widths: seq<nat>) {
    && |rows0| == |rows1| == |fields|
    && forall i :: 0 <= i < |fields| ==> RowOpens(rows0[i], rows1[i], fields[i], widths)
  }

  ghost function OpenedRows(rows0: seq<seq<nat>>, rows1: seq<seq<nat>>, widths: seq<nat>): (fields: seq<seq<int>>)
    requires |rows0| == |rows1|
    requires forall i :: 0 <= i < |rows0| ==> |rows0[i]| == |rows1[i]| == |widths|
    ensures RowsOpen(rows0, rows1, fields, widths)
  {
    seq(|rows0|, i requires 0 <= i < |rows0| => OpenedRow(rows0[i], rows1[i], widths))
  }

  /** Cell c opens to v[c]. */
  ghost predicate CellShared(ret0: seq<int>, ret1: seq<int>, v: seq<int>, c: nat, p: Modulus) {
    c < |ret0| == |ret1| == |v| && Cong(ret0[c] + ret1[c], v[c], p)
  }

  lemma RowCellShared(ret0: seq<int>, ret1: seq<int>, x0: seq<nat>, x1: seq<nat>, v: seq<int>,
                      row0: seq<nat>, row1: seq<nat>, field: seq<int>, at: nat, j: nat, widths: seq<nat>, p: Modulus)
    requires |ret0| == |ret1| == |v| && j < |widths| && RowOpens(row0, row1, field, widths)
    requires ClientConverted(ret0, ret1, x0, x1, at, widths, p)
    requires IsRow(row0, x0, at, |widths|) && IsRow(row1, x1, at, |widths|) && IsRow(field, v, at, |widths|)
    ensures CellShared(ret0, ret1, v, at + j, p)
  {
    hide XorBits, Cong;
    assert row0[j] == x0[at+j] && row1[j] == x1[at+j] && field[j] == v[at+j];
    assert ValueShared(ret0[at+j], ret1[at+j], XorBits(x0[at+j], x1[at+j], widths[j]), p);
  }

  /** The converted words are shares of what the clients' words open to. */
  lemma RowsShared(rows0: seq<seq<nat>>, rows1: seq<seq<nat>>, fields: seq<seq<int>>, widths: seq<nat>,
                   x0: seq<nat>, x1: seq<nat>, v: seq<int>, ret0: seq<int>, ret1: seq<int>, p: Modulus)
    requires RowsOpen(rows0, rows1, fields, widths) && |ret0| == |ret1| == |x0|
    requires AllRows(rows0, x0, |widths|) && AllRows(rows1, x1, |widths|) && AllRows(fields, v, |widths|)
    requires forall i :: 0 <= i < |fields| ==>
               ClientConverted(ret0, ret1, x0, x1, RowStart(i, |widths|), widths, p)
    ensures SharesOf(ret0, ret1, v, p)
  {
    hide ClientConverted, RowOpens, IsRow, RowStart, Cong;
    forall c | 0 <= c < |v| ensures Cong(ret0[c] + ret1[c], v[c], p) {
      var i, j := RowOfCell(c, |fields|, |widths|);
      RowCellShared(ret0, ret1, x0, x1, v, rows0[i], rows1[i], fields[i], RowStart(i, |widths|), j, widths, p);
      assert CellShared(ret0, ret1, v, c, p);
    }
  }

  method ConvertRows(store: CorrelatedStores, useOt: bool, rows0: seq<seq<nat>>, rows1: seq<seq<nat>>,
                     widths: seq<nat>)
    returns (ret0: seq<int>, ret1: seq<int>, ghost fields: seq<seq<int>>, ghost v: seq<int>)
    requires store.Valid() && (useOt ==> store.p < TWO64)
    requires |rows0| == |rows1| && forall i :: 0 <= i < |rows0| ==> |rows0[i]| == |rows1[i]| == |widths|
    requires forall j :: 0 <= j < |widths| ==> widths[j] <= 64
    modifies store
    ensures store.Valid() && RowsOpen(rows0, rows1, fields, widths) && AllRows(fields, v, |widths|)
    ensures |ret0| == |ret1| == |v| == RowStart(|rows0|, |widths|)
    ensures ConversionSound(store, useOt, widths) ==> SharesOf(ret0, ret1, v, store.p)
  {
    hide RowStart, SharesOf, ClientConverted, IsRow, ConversionSound, CorrelatedStores.Valid, OpenedRow, OpenedRows;
    fields := OpenedRows(rows0, rows1, widths);
    v := JoinRows(fields, |widths|);
    var x0 := Flatten(rows0, |widths|);
    var x1 := Flatten(rows1, |widths|);
    ret0, ret1 := ShareConvert(store, useOt, |rows0|, widths, x0, x1);
    if ConversionSound(store, useOt, widths) {
      RowsShared(rows0, rows1, fields, widths, x0, x1, v, ret0, ret1, store.p);
    }
  }

  lemma SliceShared(ret0: seq<int>, ret1: seq<int>, v: seq<int>, inp: seq<int>, at: nat, n: nat, p: Modulus)
    requires SharesOf(ret0, ret1, v, p) && IsRow(inp, v, at, n)
    ensures at + n <= |ret0| == |ret1| && SharesOf(ret0[at..at+n], ret1[at..at+n], inp, p)
  {
    hide Cong;
    forall j | 0 <= j < n ensures Cong(ret0[at..at+n][j] + ret1[at..at+n][j], inp[j], p) {
      assert Cong(ret0[at+j] + ret1[at+j], v[at+j], p);
    }
  }

  // ---------- the circuits and the batch ----------

  ghost predicate IsLinReg(circuit: Circuit, degree: nat, p: Modulus)
    requires degree >= 1
    reads circuit
  {
    circuit.p == p && VC.Implements(circuit, VC.NumFields(degree), VC.LinRegChecks(degree))
  }

  method BuildCircuits(n: nat, degree: nat, p: Modulus) returns (circuits: seq<Circuit>)
    requires degree >= 1
    ensures |circuits| == n && Distinct(circuits) && forall i :: 0 <= i < n ==> fresh(circuits[i])
    ensures forall i :: 0 <= i < n ==> IsLinReg(circuits[i], degree, p)
  {
    hide VC.Implements;
    circuits := [];
    for i := 0 to n
      invariant |circuits| == i && Distinct(circuits) && forall k :: 0 <= k < i ==> fresh(circuits[k])
      invariant forall k :: 0 <= k < i ==> IsLinReg(circuits[k], degree, p)
    {
      var circuit := VC.CheckLinReg(degree, p);
      circuits := circuits + [circuit];
    }
  }

  lemma LinRegSubmittable(circuit: Circuit, packet: ClientPacket, c: Params, degree: nat, N: nat)
    requires degree >= 1 && SizeFor(c, degree, N) && IsLinReg(circuit, degree, c.p)
    requires WellSized(packet.View(), Gates(degree, c.p), N)
    ensures Submittable(circuit, packet, DomainFor(c, N), VC.NumFields(degree))
  {
    hide VC.NumFields, VC.LinRegChecks, VC.GatesFor, DomainFor, IsNextPower, MulPositions, InputCount, Params.Valid,
         Params.Supports;
    VC.InputCountFor(VC.NumFields(degree), VC.LinRegChecks(degree), c.p);
  }

  ghost predicate AllWellSized(packets: seq<ClientPacket>, degree: nat, p: Modulus, N: nat)
    requires degree >= 1
    reads packets
  {
    forall i :: 0 <= i < |packets| ==> WellSized(packets[i].View(), Gates(degree, p), N)
  }

  /** The batch that both servers check. */
  method MakeBatch(c: Params, packets0: seq<ClientPacket>, packets1: seq<ClientPacket>, ret0: seq<int>,
                   ret1: seq<int>, degree: nat, coins: seq<seq<int>>, ghost N: nat)
    returns (b: Batch)
    requires degree >= 1 && SizeFor(c, degree, N)
    requires AllWellSized(packets0, degree, c.p, N) && AllWellSized(packets1, degree, c.p, N)
    requires |ret0| == |ret1| == RowStart(|packets0|, VC.NumFields(degree))
    requires |coins| == |packets0| == |packets1| > 0
    requires forall i :: 0 <= i < |coins| ==> |coins[i]| == |VC.LinRegChecks(degree)| + 1
    ensures b.Fits(DomainFor(c, N)) && IsBatch(b, packets0, packets1, ret0, ret1, degree, c.p) && b.coins == coins
    ensures forall i :: 0 <= i < |b.circuits0| ==> fresh(b.circuits0[i])
    ensures forall i :: 0 <= i < |b.circuits1| ==> fresh(b.circuits1[i])
  {
    hide DomainFor, VC.GatesFor, VC.LinRegChecks, VC.ZerosFor, VC.NumFields, RowStart, WellSized, Submittable,
         Params.Valid, Params.Supports, IsNextPower;
    var n := |packets0|;
    var circuits0 := BuildCircuits(n, degree, c.p);
    var circuits1 := BuildCircuits(n, degree, c.p);
    b := Batch(seq(n, _ => Gates(degree, c.p)), seq(n, _ => Zeros(degree)), circuits0, circuits1, packets0, packets1,
               ret0, ret1, VC.NumFields(degree), coins);
    forall i | 0 <= i < n
      ensures Submittable(circuits0[i], packets0[i], DomainFor(c, N), VC.NumFields(degree))
      ensures Submittable(circuits1[i], packets1[i], DomainFor(c, N), VC.NumFields(degree))
    {
      LinRegSubmittable(circuits0[i], packets0[i], c, degree, N);
      LinRegSubmittable(circuits1[i], packets1[i], c, degree, N);
    }
  }

  lemma DomainSize(c: Params, degree: nat, N: nat)
    requires degree >= 1 && SizeFor(c, degree, N)
    ensures DomainFor(c, N).p == c.p && |DomainFor(c, N).roots| == N
  {
  }

  ghost predicate IsBatch(b: Batch, packets0: seq<ClientPacket>, packets1: seq<ClientPacket>, ret0: seq<int>,
                          ret1: seq<int>, degree: nat, p: Modulus)
    requires degree >= 1
  {
    && b.packets0 == packets0 && b.packets1 == packets1 && b.shares0 == ret0 && b.shares1 == ret1
    && b.numInputs == VC.NumFields(degree) && b.Sized(|packets0|)
    && forall i :: 0 <= i < |packets0| ==> b.gates[i] == Gates(degree, p) && b.zeros[i] == Zeros(degree)
  }

  /** A client whose input shares open to its fields is honest in the servers' terms. */
  lemma PackedIsHonest(dom: Domain, degree: nat, inp: seq<int>, in0: seq<int>, in1: seq<int>, pk0: Packet, pk1: Packet)
    requires degree >= 1 && |inp| == VC.NumFields(degree) && SharesOf(in0, in1, inp, dom.p)
    requires Packed(dom, Gates(degree, dom.p), Zeros(degree), inp, pk0, pk1)
    ensures Topological(Gates(degree, dom.p)) && |dom.roots2| == 2 * |dom.roots|
    ensures Honest(dom, Gates(degree, dom.p), Zeros(degree), in0, in1, pk0, pk1)
  {
    hide VC.LinRegChecks, VC.GatesFor, VC.NumFields, SharesOf, GateEvaluated, HonestPackets, Accepting, InputCount,
         MulPositions;
    var gates, zeros := Gates(degree, dom.p), Zeros(degree);
    VC.InputCountFor(VC.NumFields(degree), VC.LinRegChecks(degree), dom.p);
    var w: seq<int>, f0: int, g0: int :| PackedBy(dom, gates, zeros, inp, pk0, pk1, w, f0, g0);
    assert HonestBy(dom, gates, zeros, in0, in1, pk0, pk1, inp, w, f0, g0);
  }

  /** A client whose packets prove its opened fields is honest in the servers' terms. */
  lemma ClientHonest(b: Batch, i: nat, c: Params, degree: nat, N: nat, packets0: seq<ClientPacket>,
                     packets1: seq<ClientPacket>, ret0: seq<int>, ret1: seq<int>, inp: seq<int>, v: seq<int>)
    requires degree >= 1 && SizeFor(c, degree, N) && i < |packets0| == |packets1|
    requires IsBatch(b, packets0, packets1, ret0, ret1, degree, c.p)
    requires Packed(DomainFor(c, N), Gates(degree, c.p), Zeros(degree), inp, packets0[i].View(), packets1[i].View())
    requires SharesOf(ret0, ret1, v, c.p) && |inp| == VC.NumFields(degree)
    requires IsRow(inp, v, RowStart(i, VC.NumFields(degree)), VC.NumFields(degree))
    ensures b.Has(i) && b.HonestClient(i, DomainFor(c, N))
  {
    hide Packed, Honest, VC.LinRegChecks, VC.GatesFor, VC.ZerosFor, VC.NumFields, DomainFor, SharesOf, RowStart,
         Topological, Params.Valid, Params.Supports, IsNextPower;
    DomainSize(c, degree, N);
    SliceShared(ret0, ret1, v, inp, RowStart(i, VC.NumFields(degree)), VC.NumFields(degree), c.p);
    PackedIsHonest(DomainFor(c, N), degree, inp, b.Inputs0(i), b.Inputs1(i), packets0[i].View(), packets1[i].View());
  }

  /** The coefficients that both servers draw from the shared seed: number j for the client at place i. */
  type Coins = (nat, nat) -> int

  function CoinsAt(coin: Coins, i: nat, k: nat): (t: seq<int>)
    ensures |t| == k && forall j :: 0 <= j < k ==> t[j] == coin(i, j)
  {
    seq(k, j requires 0 <= j < k => coin(i, j))
  }

  function AllCoins(coin: Coins, n: nat, k: nat): (coins: seq<seq<int>>)
    ensures |coins| == n && forall i :: 0 <= i < n ==> coins[i] == CoinsAt(coin, i, k)
  {
    seq(n, i requires 0 <= i < n => CoinsAt(coin, i, k))
  }

  /** What a client sent and the shares its words became, as a submission to the SNIP check. */
  ghost predicate SubmissionAt(s: VS.Submission, c: Params, N: nat, degree: nat, p0: ClientPacket, p1: ClientPacket)
    requires degree >= 1 && c.Valid() && c.Supports(N)
    reads p0, p1
  {
    Verdicts.Consists(s, DomainFor(c, N), Gates(degree, c.p), Zeros(degree), s.in0, s.in1, p0.View(), p1.View())
  }

  /** The verdict on the client at place i is whether this draw accepts its submission. */
  ghost predicate JudgedBy(ok: bool, s: VS.Submission, c: Params, N: nat, degree: nat, x: int, coin: Coins, i: nat)
    requires degree >= 1 && c.Valid() && c.Supports(N)
  {
    && s.Valid(DomainFor(c, N))
    && (ok <==> SE.AcceptedDraw(s, DomainFor(c, N), SE.Draw(x, CoinsAt(coin, i, |VC.LinRegChecks(degree)| + 1))))
  }

  /** The circuit's product checks depend on the fields mod p only. */
  lemma ProductsModulo(degree: nat, f: seq<int>, g: seq<int>, p: Modulus)
    requires degree >= 1 && |f| == |g| == VC.NumFields(degree) && forall i :: 0 <= i < |f| ==> Cong(f[i], g[i], p)
    requires VC.ProductsCorrect(degree, f, p)
    ensures VC.ProductsCorrect(degree, g, p)
  {
    hide Cong, VC.QuadField;
    forall i, j | 0 <= i <= j < degree - 1
      ensures VC.QuadField(degree, i, j) < |g| && Cong(g[i] * g[j], g[VC.QuadField(degree, i, j)], p)
    {
      ProductModulo(f[i], g[i], f[j], g[j], f[VC.QuadField(degree, i, j)], g[VC.QuadField(degree, i, j)], p);
    }
    forall i | 0 <= i < degree - 1 ensures Cong(g[degree-1] * g[i], g[VC.CrossField(degree, i)], p) {
      ProductModulo(f[degree-1], g[degree-1], f[i], g[i], f[VC.CrossField(degree, i)], g[VC.CrossField(degree, i)], p);
    }
  }

  lemma ProductModulo(a: int, a': int, b: int, b': int, c: int, c': int, p: Modulus)
    requires Cong(a, a', p) && Cong(b, b', p) && Cong(c, c', p) && Cong(a * b, c, p)
    ensures Cong(a' * b', c', p)
  {
    hide Cong;
    CongMul(a, a', b, b', p);
    CongSymmetric(a * b, a' * b', p);
    CongTrans(a' * b', a * b, c, p);
    CongTrans(a' * b', c, c', p);
  }

  /** A client whose opened fields are not the products they should be has a submission that is rejected. */
  lemma WrongIsRejected(s: VS.Submission, c: Params, N: nat, degree: nat, field: seq<int>)
    requires degree >= 1 && SizeFor(c, degree, N) && s.Valid(DomainFor(c, N))
    requires s.gates == Gates(degree, c.p) && s.zeros == Zeros(degree) && |field| == VC.NumFields(degree)
    requires SharesOf(s.in0, s.in1, field, c.p) && !VC.ProductsCorrect(degree, field, c.p)
    ensures s.Rejected(DomainFor(c, N))
  {
    hide VC.ProductsCorrect, VC.LinRegChecks, VC.GatesFor, VC.ZerosFor, VC.NumFields, VS.Submission.Valid, DomainFor,
         GateEvaluated, Accepting, Params.Valid, Params.Supports, IsNextPower;
    DomainSize(c, degree, N);
    var inp := Combine(s.in0, s.in1, c.p);
    CombineShares(s.in0, s.in1, c.p);
    forall i | 0 <= i < |inp| ensures Cong(inp[i], field[i], c.p) {
      SameSum(s.in0[i] + s.in1[i], inp[i], field[i], c.p);
    }
    forall w | Evaluated(s.gates, inp, w, c.p) ensures !Accepting(s.zeros, w) {
      VC.CheckLinRegAccepts(degree, inp, w, c.p);
      if VC.ProductsCorrect(degree, inp, c.p) {
        ProductsModulo(degree, inp, field, c.p);
      }
    }
  }

  lemma SameSum(a: int, b: int, c: int, p: Modulus)
    requires Cong(a, b, p) && Cong(a, c, p)
    ensures Cong(b, c, p)
  {
  }

  /** The packets of client i prove the fields its words open to. */
  ghost predicate ProvesFields(c: Params, N: nat, degree: nat, inp: seq<int>, p0: ClientPacket, p1: ClientPacket)
    requires degree >= 1 && c.Valid() && c.Supports(N)
    reads p0, p1
  {
    Packed(DomainFor(c, N), Gates(degree, c.p), Zeros(degree), inp, p0.View(), p1.View())
  }

  /**
   Both servers check the packets: each verdict is that of the client's two checkers, and clients
   whose packets prove what their words open to are accepted.
   */
  method ValidateClients(vs: Verifiers, packets0: seq<ClientPacket>, packets1: seq<ClientPacket>, ret0: seq<int>,
                         ret1: seq<int>, degree: nat, coin: Coins, ghost fields: seq<seq<int>>, ghost v: seq<int>,
                         ghost N: nat)
    returns (ans: seq<bool>, ghost subs: seq<VS.Submission>)
    requires vs.Valid() && degree >= 1 && SizeFor(vs.s0.c, degree, N)
    requires |packets0| == |packets1| == |fields| > 0
    requires AllWellSized(packets0, degree, vs.s0.c.p, N) && AllWellSized(packets1, degree, vs.s0.c.p, N)
    requires AllRows(fields, v, VC.NumFields(degree)) && |ret0| == |ret1| == |v|
    requires forall i :: 0 <= i < |fields| ==> |fields[i]| == VC.NumFields(degree)
    requires forall i, j :: Reduced(coin(i, j), vs.s0.c.p)
    modifies vs.s0, vs.s0.tables, vs.s1, vs.s1.tables
    ensures vs.Valid() && |ans| == |subs| == |fields| && vs.s0.randomX == old(vs.s0.randomX)
    ensures forall i :: 0 <= i < |ans| ==>
              SubmissionAt(subs[i], vs.s0.c, N, degree, packets0[i], packets1[i])
    ensures forall i :: 0 <= i < |ans| ==>
              JudgedBy(ans[i], subs[i], vs.s0.c, N, degree, vs.s0.randomX, coin, i)
    ensures SharesOf(ret0, ret1, v, vs.s0.c.p) ==> forall i :: 0 <= i < |ans| ==>
              SharesOf(subs[i].in0, subs[i].in1, fields[i], vs.s0.c.p)
    ensures SharesOf(ret0, ret1, v, vs.s0.c.p) ==> forall i :: 0 <= i < |ans| ==>
              (ProvesFields(vs.s0.c, N, degree, fields[i], packets0[i], packets1[i]) ==> ans[i])
  {
    hide DomainFor, VC.LinRegChecks, VC.NumFields, RowStart, Packed, IsRow, SharesOf, Params.Valid, Params.Supports,
         IsNextPower, DecidedByCheckers, Verifiers.Valid, AllSubmittable, Distinct, BuiltFrom, Apart, WellSized,
         Batch.HonestClient;
    ghost var c := vs.s0.c;
    var coins := AllCoins(coin, |packets0|, |VC.LinRegChecks(degree)| + 1);
    var b := MakeBatch(vs.s0.c, packets0, packets1, ret0, ret1, degree, coins, N);
    ghost var checkers0, checkers1;
    ans, checkers0, checkers1 := vs.ValidateSnips(b, N);
    PointReduced(vs);
    subs := SubmissionsOf(ans, b, c, N, degree, vs.s0.randomX, coin, checkers0, checkers1, packets0, packets1, ret0,
                          ret1);
    if SharesOf(ret0, ret1, v, c.p) {
      forall i | 0 <= i < |ans| ensures SharesOf(subs[i].in0, subs[i].in1, fields[i], c.p) {
        InputsShared(subs[i], ret0, ret1, v, fields, i, VC.NumFields(degree), c.p);
      }
      forall i | 0 <= i < |ans| && ProvesFields(c, N, degree, fields[i], packets0[i], packets1[i]) ensures ans[i] {
        ClientHonest(b, i, c, degree, N, packets0, packets1, ret0, ret1, fields[i], v);
      }
    }
  }

  lemma PointReduced(vs: Verifiers)
    requires vs.Valid()
    ensures Reduced(vs.s0.randomX, vs.s0.c.p)
  {
  }

  /** The submissions behind the verdicts of a batch. */
  lemma SubmissionsOf(ans: seq<bool>, b: Batch, c: Params, N: nat, degree: nat, x: int, coin: Coins,
                      checkers0: seq<Checker>, checkers1: seq<Checker>, packets0: seq<ClientPacket>,
                      packets1: seq<ClientPacket>, ret0: seq<int>, ret1: seq<int>)
    returns (subs: seq<VS.Submission>)
    requires degree >= 1 && SizeFor(c, degree, N) && Reduced(x, c.p)
    requires |packets0| == |packets1| && IsBatch(b, packets0, packets1, ret0, ret1, degree, c.p)
    requires b.coins == AllCoins(coin, |packets0|, |VC.LinRegChecks(degree)| + 1)
    requires forall i, j :: Reduced(coin(i, j), c.p)
    requires BatchDecided(ans, b, DomainFor(c, N), x, checkers0, checkers1)
    ensures |subs| == |ans| == |packets0|
    ensures forall i :: 0 <= i < |ans| ==> SubmissionAt(subs[i], c, N, degree, packets0[i], packets1[i])
    ensures forall i :: 0 <= i < |ans| ==> JudgedBy(ans[i], subs[i], c, N, degree, x, coin, i)
    ensures forall i :: 0 <= i < |ans| ==> InputsAt(subs[i], ret0, ret1, i, VC.NumFields(degree))
  {
    hide DomainFor, VC.LinRegChecks, VC.NumFields, VC.GatesFor, VC.ZerosFor, RowStart, Params.Valid, Params.Supports,
         IsNextPower, DecidedByCheckers, Batch.HonestClient, VS.Submission.Valid, SE.AcceptedDraw;
    DomainSize(c, degree, N);
    subs := [];
    for i := 0 to |ans|
      invariant |subs| == i
      invariant forall k :: 0 <= k < i ==> SubmissionAt(subs[k], c, N, degree, packets0[k], packets1[k])
      invariant forall k :: 0 <= k < i ==> JudgedBy(ans[k], subs[k], c, N, degree, x, coin, k)
      invariant forall k :: 0 <= k < i ==> InputsAt(subs[k], ret0, ret1, k, VC.NumFields(degree))
    {
      var s := Verdicts.VerdictIsDraw(ans[i], b, i, DomainFor(c, N), x, checkers0[i], checkers1[i]);
      subs := subs + [s];
    }
  }

  lemma InputsShared(s: VS.Submission, ret0: seq<int>, ret1: seq<int>, v: seq<int>, fields: seq<seq<int>>, i: nat,
                     F: nat, p: Modulus)
    requires SharesOf(ret0, ret1, v, p) && AllRows(fields, v, F) && i < |fields| && InputsAt(s, ret0, ret1, i, F)
    ensures SharesOf(s.in0, s.in1, fields[i], p)
  {
    hide RowStart, SharesOf;
    SliceShared(ret0, ret1, v, fields[i], RowStart(i, F), F, p);
  }

  /** The input shares are row i of the converted words. */
  ghost predicate InputsAt(s: VS.Submission, ret0: seq<int>, ret1: seq<int>, i: nat, F: nat) {
    IsRow(s.in0, ret0, RowStart(i, F), F) && IsRow(s.in1, ret1, RowStart(i, F), F)
  }

  // ---------- the whole operation ----------

  lemma WidthsBelow(degree: nat, bits: nat)
    requires degree >= 1 && bits <= 31
    ensures forall j :: 0 <= j < VC.NumFields(degree) ==> Widths(degree, bits)[j] <= 64
  {
  }

  /** `total_inputs * num_bits * total_dabits` */
  function DaBitCount(n: nat, degree: nat, bits: nat): (m: int)
    requires degree >= 1
  {
    n * bits * (degree * (degree + 2) - 2)
  }

  /** The daBits checked ahead are exactly those that the conversion uses. */
  lemma DaBitsNeeded(n: nat, degree: nat, bits: nat)
    requires degree >= 1
    ensures DaBitCount(n, degree, bits) == n * Start(Widths(degree, bits), VC.NumFields(degree))
  {
    WidthsStart(degree, bits, VC.NumFields(degree));
    VC.PairsBeforeClosed(degree - 1, degree - 1);
    Assoc(n, bits, degree * (degree + 2) - 2);
    var half := VC.PairsBefore(degree - 1, degree - 1) + (degree - 1);
    assert degree + 2 * half == degree * (degree + 2) - 2;
    Distribute(bits, degree, 2 * half);
  }

  lemma {:induction false} WidthsStart(degree: nat, bits: nat, k: nat)
    requires degree >= 1 && k <= VC.NumFields(degree)
    ensures Start(Widths(degree, bits), k) == bits * (if k <= degree then k else degree + 2 * (k - degree))
  {
    if k > 0 {
      WidthsStart(degree, bits, k - 1);
      Distribute(bits, if k <= degree then k - 1 else degree + 2 * (k - 1 - degree), if k <= degree then 1 else 2);
    }
  }

  function RowsOf(entries: seq<Entry>): (rows: seq<seq<nat>>)
    ensures |rows| == |entries| && forall i :: 0 <= i < |rows| ==> rows[i] == entries[i].row
  {
    seq(|entries|, i requires 0 <= i < |entries| => entries[i].row)
  }

  function PacketsOf(entries: seq<Entry>): (packets: seq<ClientPacket>)
    ensures |packets| == |entries| && forall i :: 0 <= i < |packets| ==> packets[i] == entries[i].packet
  {
    seq(|entries|, i requires 0 <= i < |entries| => entries[i].packet)
  }

  /** What the client learns. */
  datatype Result = Invalid | Matrices(X: array2<int>, Y: array<int>)

  /** The matrices hold the moments over the valid clients, where these are small enough. */
  ghost predicate HoldMoments(X: array2<int>, Y: array<int>, v: seq<int>, valid: seq<bool>, degree: nat, p: Modulus)
    requires degree >= 1 && RowStart(|valid|, VC.NumFields(degree)) <= |v|
    reads X, Y
  {
    && X.Length0 == X.Length1 == Y.Length == degree
    && (forall i, j :: 0 <= i < degree && 0 <= j < degree && Exact(Moment(v, valid, degree, i, j, |valid|), p) ==>
          X[i, j] == Moment(v, valid, degree, i, j, |valid|))
    && (forall i :: 0 <= i < degree && Exact(TargetMoment(v, valid, degree, i, |valid|), p) ==>
          Y[i] == TargetMoment(v, valid, degree, i, |valid|))
  }

  /** Some message passes the size test: the source builds its batch from the first client's circuit. */
  ghost predicate SomeSizesValid(inputs: seq<Message>, widths: seq<nat>) {
    exists i :: 0 <= i < |inputs| && SizesValid(inputs[i].val.row, widths)
  }

  lemma {:induction false} SomeKey(inputs: seq<Message>, widths: seq<nat>, n: nat)
    requires n <= |inputs| && exists i :: 0 <= i < n && SizesValid(inputs[i].val.row, widths)
    ensures SizedMap(inputs, widths, n) != map[]
  {
    hide SizesValid;
    var i :| 0 <= i < n && SizesValid(inputs[i].val.row, widths);
    if i < n - 1 {
      SomeKey(inputs, widths, n - 1);
      var k :| k in SizedMap(inputs, widths, n - 1);
      assert k in SizedMap(inputs, widths, n);
    } else {
      assert inputs[i].pk in SizedMap(inputs, widths, n);
    }
  }

  lemma ListsSome(order: seq<Key>, m: map<Key, Entry>)
    requires Lists(order, m) && m != map[]
    ensures order != []
  {
    assert Sets.Member(m.Keys) in order;
  }

  /** The servers' part on any submissions, up to the verdicts. */
  method MatchAndValidate(vs: Verifiers, store: CorrelatedStores, useOt: bool, m0: map<Key, Entry>, m1: map<Key, Entry>,
                          degree: nat, bits: nat, coin: Coins, ghost N: nat)
    returns (b: Served, ret0: seq<int>, ret1: seq<int>, ghost fields: seq<seq<int>>, ghost v: seq<int>,
             ghost subs: seq<VS.Submission>)
    requires vs.Valid() && store.Valid() && store.p == vs.s0.c.p && (useOt ==> store.p < TWO64)
    requires degree >= 1 && SizeFor(vs.s0.c, degree, N) && bits <= 31 && m1 != map[]
    requires AllFitIn(m0, degree, store.p, N) && AllFitIn(m1, degree, store.p, N)
    requires forall i, j :: Reduced(coin(i, j), store.p)
    modifies store, vs.s0, vs.s0.tables, vs.s1, vs.s1.tables
    ensures vs.Valid() && store.Valid() && b.Sized(|b.order|) && vs.s0.randomX == old(vs.s0.randomX)
    ensures |subs| == |b.order| && forall i :: 0 <= i < |subs| ==>
              && SubmissionAt(subs[i], vs.s0.c, N, degree, b.entries0[i].packet, b.entries1[i].packet)
              && JudgedBy(b.verdicts[i], subs[i], vs.s0.c, N, degree, vs.s0.randomX, coin, i)
    ensures MatchedBy(b.order, b.entries0, b.entries1, b.known, m0, m1)
    ensures RowsOpen(RowsOf(b.entries0), RowsOf(b.entries1), fields, Widths(degree, bits))
    ensures AllRows(fields, v, VC.NumFields(degree)) && |ret0| == |ret1| == |v| && |fields| == |b.order|
    ensures ConversionSound(store, useOt, Widths(degree, bits)) ==>
              && SharesOf(ret0, ret1, v, store.p)
              && (forall i :: 0 <= i < |subs| ==> SharesOf(subs[i].in0, subs[i].in1, fields[i], store.p))
              && forall i :: 0 <= i < |fields| ==>
                   (ProvesFields(vs.s0.c, N, degree, fields[i], b.entries0[i].packet, b.entries1[i].packet)
                    ==> b.verdicts[i])
  {
    hide VC.NumFields, VC.LinRegChecks, VC.GatesFor, RowStart, IsRow, RowOpens, SharesOf, ConversionSound, WellSized,
         Packed, Widths, Lists, DomainFor, Params.Valid, Params.Supports, IsNextPower, Verifiers.Valid,
         CorrelatedStores.Valid, ProvesFields, SubmissionAt, JudgedBy;
    WidthsBelow(degree, bits);
    var order, entries0, entries1, known := MatchEntries(m0, m1, degree, store.p, N);
    ListsSome(order, m1);
    ret0, ret1, fields, v := ConvertRows(store, useOt, RowsOf(entries0), RowsOf(entries1), Widths(degree, bits));
    OpenedSizes(RowsOf(entries0), RowsOf(entries1), fields, Widths(degree, bits));
    var ans;
    ans, subs :=
      ValidateClients(vs, PacketsOf(entries0), PacketsOf(entries1), ret0, ret1, degree, coin, fields, v, N);
    b := Served(order, entries0, entries1, known, ans);
  }

  lemma OpenedSizes(rows0: seq<seq<nat>>, rows1: seq<seq<nat>>, fields: seq<seq<int>>, widths: seq<nat>)
    requires RowsOpen(rows0, rows1, fields, widths)
    ensures forall i :: 0 <= i < |fields| ==> |fields[i]| == |widths|
  {
  }

  lemma ValidMeans(b: Served, m0: map<Key, Entry>, m1: map<Key, Entry>)
    requires b.Sized(|b.order|) && MatchedBy(b.order, b.entries0, b.entries1, b.known, m0, m1)
    ensures forall i :: 0 <= i < |b.order| ==> (b.Valid()[i] <==> b.order[i] in m0 && b.verdicts[i])
  {
  }

  lemma KnownWhole(b: Served, m0: map<Key, Entry>, m1: map<Key, Entry>, fields: seq<seq<int>>, degree: nat, bits: nat)
    requires degree >= 1 && bits <= 31 && MatchedBy(b.order, b.entries0, b.entries1, b.known, m0, m1)
    requires RowsOpen(RowsOf(b.entries0), RowsOf(b.entries1), fields, Widths(degree, bits))
    requires forall k :: k in m0 ==> SizesValid(m0[k].row, Widths(degree, bits))
    requires forall k :: k in m1 ==> SizesValid(m1[k].row, Widths(degree, bits))
    ensures |fields| == |b.order| == |b.known| == |b.entries0| == |b.entries1|
    ensures forall i :: 0 <= i < |fields| && b.known[i] ==>
              WholeWords(b.entries0[i].row, b.entries1[i].row, fields[i])
  {
    hide VC.NumFields, SizesValid, RowOpens, WholeWords, Widths, Lists;
    WidthsBelow(degree, bits);
    forall i | 0 <= i < |fields| && b.known[i] ensures WholeWords(b.entries0[i].row, b.entries1[i].row, fields[i]) {
      assert RowOpens(RowsOf(b.entries0)[i], RowsOf(b.entries1)[i], fields[i], Widths(degree, bits));
      SizedOpenWhole(b.entries0[i].row, b.entries1[i].row, fields[i], Widths(degree, bits));
    }
  }

  lemma WrongIsRare(s: VS.Submission, c: Params, N: nat, degree: nat, field: seq<int>, p0: ClientPacket,
                    p1: ClientPacket)
    requires degree >= 1 && SizeFor(c, degree, N) && SubmissionAt(s, c, N, degree, p0, p1)
    requires |field| == VC.NumFields(degree) && SharesOf(s.in0, s.in1, field, c.p)
    requires !VC.ProductsCorrect(degree, field, c.p)
    ensures s.Valid(DomainFor(c, N)) && Verdicts.FewDrawsAccept(s, DomainFor(c, N))
  {
    hide VC.ProductsCorrect, VC.LinRegChecks, VC.GatesFor, VC.ZerosFor, VC.NumFields, VS.Submission.Valid, DomainFor,
         Params.Valid, Params.Supports, IsNextPower, SharesOf, VS.Submission.Rejected, Verdicts.FewDrawsAccept;
    WrongIsRejected(s, c, N, degree, field);
    Verdicts.RejectedIsRare(s, DomainFor(c, N));
  }

  lemma InputSizes(inputs: seq<Message>, degree: nat, p: Modulus, N: nat)
    requires degree >= 1 && InputsFit(inputs, degree, p, N)
    ensures forall i :: 0 <= i < |inputs| ==> |inputs[i].val.row| == VC.NumFields(degree)
  {
    hide VC.NumFields, WellSized;
    forall i | 0 <= i < |inputs| ensures |inputs[i].val.row| == VC.NumFields(degree) {
      assert EntryFits(inputs[i].val, degree, p, N);
    }
  }

  /** Both servers receive, and the daBits for the conversion are made ahead. */
  method ReceiveBoth(store: CorrelatedStores, useOt: bool, inputs0: seq<Message>, inputs1: seq<Message>,
                     degree: nat, bits: nat, ghost N: nat)
    returns (m0: map<Key, Entry>, m1: map<Key, Entry>)
    requires store.Valid() && degree >= 1
    requires InputsFit(inputs0, degree, store.p, N) && InputsFit(inputs1, degree, store.p, N)
    modifies store
    ensures store.Valid() && store.usedBits == old(store.usedBits)
    ensures if useOt then |store.dabits0| == old(|store.dabits0|) && store.bitRounds == old(store.bitRounds)
            else |store.dabits0| >= DaBitCount(|inputs0|, degree, bits)
    ensures m0 == SizedMap(inputs0, Widths(degree, bits), |inputs0|)
    ensures m1 == SizedMap(inputs1, Widths(degree, bits), |inputs1|)
    ensures AllFitIn(m0, degree, store.p, N) && AllFitIn(m1, degree, store.p, N)
  {
    hide CorrelatedStores.Valid, WellSized, DaBitCount, Start, SizedMap, VC.NumFields, Widths;
    var widths := Widths(degree, bits);
    InputSizes(inputs0, degree, store.p, N);
    InputSizes(inputs1, degree, store.p, N);
    m0 := ReceiveEntries(inputs0, widths);
    m1 := ReceiveEntries(inputs1, widths);
    if !useOt {
      DaBitsNeeded(|inputs0|, degree, bits);
      store.CheckDaBits(DaBitCount(|inputs0|, degree, bits));
    }
    SizedMapFits(inputs0, widths, |inputs0|, degree, store.p, N);
    SizedMapFits(inputs1, widths, |inputs1|, degree, store.p, N);
  }

  /**
   `linreg_op` on both servers, for any submissions that fit: clients known to both whose packets prove
   what their words open to are accepted; no answer when fewer than half are; and if the accepted
   fields are correct, the matrices hold their moments.
   */
  method ServeRegression(vs: Verifiers, store: CorrelatedStores, useOt: bool, inputs0: seq<Message>,
                         inputs1: seq<Message>, degree: nat, bits: nat, coin: Coins, ghost N: nat)
    returns (res: Result, b: Served, ghost fields: seq<seq<int>>, ghost v: seq<int>, ghost subs: seq<VS.Submission>)
    requires vs.Valid() && store.Valid() && store.p == vs.s0.c.p && (useOt ==> store.p < TWO64)
    requires degree >= 1 && SizeFor(vs.s0.c, degree, N) && bits <= 31 && |inputs0| == |inputs1|
    requires InputsFit(inputs0, degree, store.p, N) && InputsFit(inputs1, degree, store.p, N)
    requires SomeSizesValid(inputs1, Widths(degree, bits))
    requires forall i, j :: Reduced(coin(i, j), store.p)
    modifies store, vs.s0, vs.s0.tables, vs.s1, vs.s1.tables
    ensures vs.Valid() && store.Valid() && b.Sized(|b.order|) && vs.s0.randomX == old(vs.s0.randomX)
    ensures var widths := Widths(degree, bits);
            MatchedBy(b.order, b.entries0, b.entries1, b.known, SizedMap(inputs0, widths, |inputs0|),
                      SizedMap(inputs1, widths, |inputs1|))
    ensures RowsOpen(RowsOf(b.entries0), RowsOf(b.entries1), fields, Widths(degree, bits))
    ensures AllRows(fields, v, VC.NumFields(degree)) && |fields| == |b.order|
    ensures forall i :: 0 <= i < |fields| && b.known[i] ==>
              WholeWords(b.entries0[i].row, b.entries1[i].row, fields[i])
    ensures ConversionSound(store, useOt, Widths(degree, bits)) ==> forall i :: 0 <= i < |fields| ==>
              (ProvesFields(vs.s0.c, N, degree, fields[i], b.entries0[i].packet, b.entries1[i].packet)
               ==> b.verdicts[i])
    ensures forall i :: 0 <= i < |b.order| ==>
              (b.Valid()[i] <==>
               b.order[i] in SizedMap(inputs0, Widths(degree, bits), |inputs0|) && b.verdicts[i])
    ensures |subs| == |b.order| && forall i :: 0 <= i < |subs| ==>
              && SubmissionAt(subs[i], vs.s0.c, N, degree, b.entries0[i].packet, b.entries1[i].packet)
              && JudgedBy(b.verdicts[i], subs[i], vs.s0.c, N, degree, vs.s0.randomX, coin, i)
    ensures ConversionSound(store, useOt, Widths(degree, bits)) ==> forall i :: 0 <= i < |subs| ==>
              && SharesOf(subs[i].in0, subs[i].in1, fields[i], store.p) && |fields[i]| == VC.NumFields(degree)
              && (!VC.ProductsCorrect(degree, fields[i], store.p) ==>
                    subs[i].Valid(DomainFor(vs.s0.c, N)) && Verdicts.FewDrawsAccept(subs[i], DomainFor(vs.s0.c, N)))
    ensures res.Invalid? <==> 2 * CountValid(b.Valid(), |b.order|) < |inputs0|
    ensures res.Matrices? && ConversionSound(store, useOt, Widths(degree, bits)) ==>
              HoldColumns(res.X, res.Y, v, b.Valid(), degree, store.p)
    ensures res.Matrices? && ConversionSound(store, useOt, Widths(degree, bits))
            && AcceptedCorrect(v, b.Valid(), degree, store.p) ==>
              HoldMoments(res.X, res.Y, v, b.Valid(), degree, store.p)
    ensures res.Matrices? ==> fresh(res.X) && fresh(res.Y)
  {
    hide VC.NumFields, VC.LinRegChecks, VC.GatesFor, RowStart, IsRow, RowsOpen, SharesOf, ConversionSound, EntryFits,
         MatchedBy, Widths, DomainFor, Params.Valid, Params.Supports, IsNextPower, Verifiers.Valid, SizedMap,
         HoldColumns, CorrelatedStores.Valid, AllFitIn, InputsFit, ProvesFields, AcceptedCorrect, Moment,
         TargetMoment, Exact, CountValid, SubmissionAt, JudgedBy, VC.ProductsCorrect, VS.Submission.Valid,
         Verdicts.FewDrawsAccept, Served.Valid, WholeWords, SizesValid;
    var widths := Widths(degree, bits);
    SomeKey(inputs1, widths, |inputs1|);
    var m0, m1 := ReceiveBoth(store, useOt, inputs0, inputs1, degree, bits, N);
    var ret0, ret1;
    b, ret0, ret1, fields, v, subs := MatchAndValidate(vs, store, useOt, m0, m1, degree, bits, coin, N);
    ValidMeans(b, m0, m1);
    SizedMapValid(inputs0, widths, |inputs0|);
    SizedMapValid(inputs1, widths, |inputs1|);
    KnownWhole(b, m0, m1, fields, degree, bits);
    OpenedSizes(RowsOf(b.entries0), RowsOf(b.entries1), fields, widths);
    if ConversionSound(store, useOt, widths) {
      forall i | 0 <= i < |subs| && !VC.ProductsCorrect(degree, fields[i], store.p)
        ensures subs[i].Valid(DomainFor(vs.s0.c, N)) && Verdicts.FewDrawsAccept(subs[i], DomainFor(vs.s0.c, N))
      {
        WrongIsRare(subs[i], vs.s0.c, N, degree, fields[i], b.entries0[i].packet, b.entries1[i].packet);
      }
    }
    var X, Y, numValid := LinRegMatrices(|b.order|, degree, ret0, ret1, b.Valid(), store.p, v);
    // the invalid threshold is one half
    if 2 * numValid < |inputs0| {
      return Invalid, b, fields, v, subs;
    }
    res := Matrices(X, Y);
  }
}
