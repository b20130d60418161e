/** A linear regression over honest clients, from their data to the matrices for the solver. */
module LinRegRun {
  import opened Modular
  import opened RootsOfUnity
  import opened RootTables
  import opened Shares
  import Circuits
  import opened Permutations
  import opened KeyMatch
  import opened Words
  import opened Rows
  import opened Correlated
  import opened Conversion
  import opened Aggregation
  import opened Snip
  import opened Checkers
  import opened Servers
  import opened Sessions
  import opened LinReg
  import opened LinRegClients
  import opened LinRegMoments
  import opened LinRegServers
  import VC = ValidCircuits

  // ---------- the clients ----------

  /** What client i made from its data. */
  ghost predicate Encoded(s: Sample, row0: seq<nat>, row1: seq<nat>, inp: seq<int>, degree: nat, bits: nat)
    requires degree >= 1
  {
    IsEncoding(inp, s.x, s.y, degree) && FieldsSplit(row0, row1, inp, Widths(degree, bits))
  }

  ghost predicate AllEncoded(samples: seq<Sample>, rows0: seq<seq<nat>>, rows1: seq<seq<nat>>, fields: seq<seq<int>>,
                             degree: nat, bits: nat)
    requires degree >= 1
  {
    && |rows0| == |rows1| == |fields| <= |samples|
    && forall i :: 0 <= i < |fields| ==> Encoded(samples[i], rows0[i], rows1[i], fields[i], degree, bits)
  }

  ghost predicate AllPacked(dom: Domain, degree: nat, fields: seq<seq<int>>, packets0: seq<ClientPacket>,
                            packets1: seq<ClientPacket>)
    requires degree >= 1
    reads packets0, packets1
  {
    && |packets0| == |packets1| == |fields|
    && forall i :: 0 <= i < |fields| ==>
         Packed(dom, Gates(degree, dom.p), Zeros(degree), fields[i], packets0[i].View(), packets1[i].View())
  }

  method EncodeClients(c: Params, samples: seq<Sample>, degree: nat, bits: nat, ghost N: nat)
    returns (rows0: seq<seq<nat>>, rows1: seq<seq<nat>>, packets0: seq<ClientPacket>, packets1: seq<ClientPacket>,
             ghost fields: seq<seq<int>>)
    requires degree >= 1 && SizeFor(c, degree, N) && bits <= 31 && AllFit(samples, degree, bits)
    ensures AllEncoded(samples, rows0, rows1, fields, degree, bits) && |fields| == |samples|
    ensures AllPacked(DomainFor(c, N), degree, fields, packets0, packets1)
    ensures forall i :: 0 <= i < |packets0| ==> fresh(packets0[i])
    ensures forall i :: 0 <= i < |packets1| ==> fresh(packets1[i])
  {
    hide Sample.Fits, Packed, DomainFor, TablesFor, Params.Valid, IsEncoding, FieldsSplit, VC.NumFields;
    rows0, rows1, packets0, packets1, fields := [], [], [], [], [];
    var tables := new Tables();
    NewTables(tables, c, N);
    for i := 0 to |samples|
      invariant TablesFor(tables, c, N) && fresh(tables)
      invariant |fields| == i && AllEncoded(samples, rows0, rows1, fields, degree, bits)
      invariant AllPacked(DomainFor(c, N), degree, fields, packets0, packets1)
      invariant forall k :: 0 <= k < |packets0| ==> fresh(packets0[k])
      invariant forall k :: 0 <= k < |packets1| ==> fresh(packets1[k])
    {
      var a, b, p0, p1, inp := EncodeClient(c, tables, samples[i], degree, bits, N);
      rows0, rows1, fields := rows0 + [a], rows1 + [b], fields + [inp];
      packets0, packets1 := packets0 + [p0], packets1 + [p1];
    }
  }

  lemma NewTables(tables: Tables, c: Params, N: nat)
    requires tables.numRoots == 0 && tables.roots == null
    ensures TablesFor(tables, c, N)
  {
  }

  // ---------- what the servers receive ----------

  function Entries(rows: seq<seq<nat>>, packets: seq<ClientPacket>): (entries: seq<Entry>)
    requires |rows| == |packets|
    ensures |entries| == |rows|
    ensures forall i :: 0 <= i < |rows| ==> entries[i] == Entry(rows[i], packets[i])
  {
    seq(|rows|, i requires 0 <= i < |rows| => Entry(rows[i], packets[i]))
  }

  lemma HonestOpened(row0: seq<nat>, row1: seq<nat>, inp: seq<int>, widths: seq<nat>)
    requires FieldsSplit(row0, row1, inp, widths)
    ensures RowOpens(row0, row1, inp, widths) && SizesValid(row0, widths) && SizesValid(row1, widths)
  {
    hide XorBits, Pow2;
    forall j | 0 <= j < |inp| ensures XorBits(row0[j], row1[j], widths[j]) == inp[j] {
      FieldRecombined(row0[j], row1[j], inp[j], widths[j]);
    }
  }

  lemma FieldRecombined(a: nat, b: nat, v: int, bits: nat)
    requires FieldSplit(a, b, v, bits)
    ensures XorBits(a, b, bits) == v
  {
    XorSharesRecombine(a, b, v, bits);
    LowBitsAll(v, bits);
  }

  lemma PackedSizes(dom: Domain, gates: seq<Circuits.Gate>, zeros: seq<nat>, inp: seq<int>, pk0: Packet, pk1: Packet)
    requires Packed(dom, gates, zeros, inp, pk0, pk1)
    ensures WellSized(pk0, gates, |dom.roots|) && WellSized(pk1, gates, |dom.roots|)
  {
  }

  /** The messages fit, pass the size test and are all received. */
  lemma MessagesFit(c: Params, N: nat, keys: seq<Key>, samples: seq<Sample>, rows0: seq<seq<nat>>, rows1: seq<seq<nat>>,
                    packets0: seq<ClientPacket>, packets1: seq<ClientPacket>, fields: seq<seq<int>>, degree: nat,
                    bits: nat)
    requires degree >= 1 && SizeFor(c, degree, N) && |keys| == |samples| == |fields|
    requires AllEncoded(samples, rows0, rows1, fields, degree, bits)
    requires AllPacked(DomainFor(c, N), degree, fields, packets0, packets1)
    ensures var inputs0, inputs1 := Submissions(keys, Entries(rows0, packets0)),
            Submissions(keys, Entries(rows1, packets1));
            && InputsFit(inputs0, degree, c.p, N) && InputsFit(inputs1, degree, c.p, N)
            && AllValid(inputs0, Widths(degree, bits)) && AllValid(inputs1, Widths(degree, bits))
  {
    hide VC.NumFields, Packed, WellSized, SizesValid, FieldsSplit, IsEncoding, VC.LinRegChecks, VC.GatesFor, RowOpens,
         IsNextPower, Params.Valid, Params.Supports, Widths;
    DomainSize(c, degree, N);
    forall i | 0 <= i < |samples|
      ensures EntryFits(Entry(rows0[i], packets0[i]), degree, c.p, N)
      ensures EntryFits(Entry(rows1[i], packets1[i]), degree, c.p, N)
      ensures SizesValid(rows0[i], Widths(degree, bits)) && SizesValid(rows1[i], Widths(degree, bits))
    {
      assert Encoded(samples[i], rows0[i], rows1[i], fields[i], degree, bits);
      HonestOpened(rows0[i], rows1[i], fields[i], Widths(degree, bits));
      RowLengths(rows0[i], rows1[i], fields[i], Widths(degree, bits));
      PackedSizes(DomainFor(c, N), Gates(degree, c.p), Zeros(degree), fields[i], packets0[i].View(),
                  packets1[i].View());
    }
  }

  lemma RowLengths(row0: seq<nat>, row1: seq<nat>, inp: seq<int>, widths: seq<nat>)
    requires FieldsSplit(row0, row1, inp, widths)
    ensures |row0| == |row1| == |inp| == |widths|
  {
  }

  ghost predicate AllValid(inputs: seq<Message>, widths: seq<nat>) {
    forall i :: 0 <= i < |inputs| ==> SizesValid(inputs[i].val.row, widths)
  }

  /** The client whose key comes i-th is known to both servers with its own entries. */
  lemma ServedClient(b: Served, keys: seq<Key>, entries0: seq<Entry>, entries1: seq<Entry>, widths: seq<nat>, i: nat)
    requires Distinct(keys) && |keys| == |entries0| == |entries1| && i < |b.order|
    requires AllValid(Submissions(keys, entries0), widths) && AllValid(Submissions(keys, entries1), widths)
    requires MatchedBy(b.order, b.entries0, b.entries1, b.known, SizedMap(Submissions(keys, entries0), widths, |keys|),
                       SizedMap(Submissions(keys, entries1), widths, |keys|))
    ensures b.order[i] in keys && b.known[i]
    ensures var c := Owner(keys, b.order[i]); b.entries0[i] == entries0[c] && b.entries1[i] == entries1[c]
  {
    hide SizesValid, SizedMap, ShareMap;
    AllSizesValid(Submissions(keys, entries0), widths, |keys|);
    AllSizesValid(Submissions(keys, entries1), widths, |keys|);
    ReceivedAll(keys, entries0);
    ReceivedAll(keys, entries1);
    assert b.order[i] in keys;
    var c := Owner(keys, b.order[i]);
    assert keys[c] == b.order[i];
  }

  lemma ServedPermuted(b: Served, keys: seq<Key>, entries0: seq<Entry>, entries1: seq<Entry>, samples: seq<Sample>,
                       widths: seq<nat>)
    requires Distinct(keys) && |keys| == |entries0| == |entries1| == |samples|
    requires AllValid(Submissions(keys, entries1), widths)
    requires MatchedBy(b.order, b.entries0, b.entries1, b.known, SizedMap(Submissions(keys, entries0), widths, |keys|),
                       SizedMap(Submissions(keys, entries1), widths, |keys|))
    ensures |b.order| == |keys| && forall i :: 0 <= i < |b.order| ==> b.order[i] in keys
    ensures Permuted(InOrder(b.order, keys, samples), samples)
  {
    hide SizesValid, SizedMap, ShareMap;
    AllSizesValid(Submissions(keys, entries1), widths, |keys|);
    ReceivedAll(keys, entries1);
    OrderOfClients(b.order, ShareMap(Submissions(keys, entries1), |keys|), keys, entries1, samples);
  }

  /** What the servers open is what the clients encoded, in the order of their keys. */
  lemma OpenedIsEncoded(row0: seq<nat>, row1: seq<nat>, inp: seq<int>, field: seq<int>, widths: seq<nat>)
    requires FieldsSplit(row0, row1, inp, widths) && RowOpens(row0, row1, field, widths)
    ensures field == inp
  {
    HonestOpened(row0, row1, inp, widths);
  }

  /** Everything about the client whose key comes i-th. */
  lemma ClientServed(c: Params, N: nat, b: Served, keys: seq<Key>, samples: seq<Sample>, rows0: seq<seq<nat>>,
                     rows1: seq<seq<nat>>, packets0: seq<ClientPacket>, packets1: seq<ClientPacket>,
                     fields: seq<seq<int>>, served: seq<seq<int>>, degree: nat, bits: nat, i: nat)
    requires degree >= 1 && SizeFor(c, degree, N) && Distinct(keys) && |keys| == |samples| == |fields|
    requires AllEncoded(samples, rows0, rows1, fields, degree, bits)
    requires AllPacked(DomainFor(c, N), degree, fields, packets0, packets1)
    requires AllValid(Submissions(keys, Entries(rows0, packets0)), Widths(degree, bits))
    requires AllValid(Submissions(keys, Entries(rows1, packets1)), Widths(degree, bits))
    requires MatchedBy(b.order, b.entries0, b.entries1, b.known,
                       SizedMap(Submissions(keys, Entries(rows0, packets0)), Widths(degree, bits), |keys|),
                       SizedMap(Submissions(keys, Entries(rows1, packets1)), Widths(degree, bits), |keys|))
    requires RowsOpen(RowsOf(b.entries0), RowsOf(b.entries1), served, Widths(degree, bits)) && i < |b.order|
    ensures b.order[i] in keys && b.known[i] && i < |served|
    ensures served[i] == fields[Owner(keys, b.order[i])]
    ensures IsEncoding(served[i], samples[Owner(keys, b.order[i])].x, samples[Owner(keys, b.order[i])].y, degree)
    ensures ProvesFields(c, N, degree, served[i], b.entries0[i].packet, b.entries1[i].packet)
  {
    hide VC.NumFields, Packed, SizesValid, FieldsSplit, IsEncoding, VC.LinRegChecks, VC.GatesFor, RowOpens, SizedMap,
         IsNextPower, Params.Valid, Params.Supports, Widths, MatchedBy, DomainFor, AllValid;
    MatchedSizes(b, SizedMap(Submissions(keys, Entries(rows0, packets0)), Widths(degree, bits), |keys|),
                 SizedMap(Submissions(keys, Entries(rows1, packets1)), Widths(degree, bits), |keys|));
    ServedClient(b, keys, Entries(rows0, packets0), Entries(rows1, packets1), Widths(degree, bits), i);
    var k := Owner(keys, b.order[i]);
    DomainSize(c, degree, N);
    assert Encoded(samples[k], rows0[k], rows1[k], fields[k], degree, bits);
    assert RowOpens(RowsOf(b.entries0)[i], RowsOf(b.entries1)[i], served[i], Widths(degree, bits));
    OpenedIsEncoded(rows0[k], rows1[k], fields[k], served[i], Widths(degree, bits));
  }

  lemma MatchedSizes(b: Served, m0: map<Key, Entry>, m1: map<Key, Entry>)
    requires MatchedBy(b.order, b.entries0, b.entries1, b.known, m0, m1)
    ensures |b.order| == |b.entries0| == |b.entries1| == |b.known|
  {
  }

  // ---------- the whole run ----------

  lemma {:induction false} AllCounted(valid: seq<bool>, n: nat)
    requires n <= |valid| && forall i :: 0 <= i < n ==> valid[i]
    ensures CountValid(valid, n) == n
  {
    if n > 0 {
      AllCounted(valid, n - 1);
    }
  }

  lemma FitPermuted(a: seq<Sample>, b: seq<Sample>, degree: nat, bits: nat)
    requires Permuted(a, b) && AllFit(b, degree, bits) && degree >= 1
    ensures AllFit(a, degree, bits) && Shaped(a, degree) && Shaped(b, degree)
  {
    hide Pow2;
    forall k | 0 <= k < |a| ensures a[k].Fits(degree, bits) {
      assert a[k] in multiset(b);
    }
    forall k | 0 <= k < |b| ensures |b[k].x| == degree - 1 {
      assert b[k].Fits(degree, bits);
    }
  }

  lemma ServedFromSamples(v: seq<int>, served: seq<seq<int>>, ordered: seq<Sample>, degree: nat)
    requires degree >= 1 && |served| == |ordered| && Shaped(ordered, degree)
    requires AllRows(served, v, VC.NumFields(degree))
    requires forall i :: 0 <= i < |served| ==> IsEncoding(served[i], ordered[i].x, ordered[i].y, degree)
    ensures FromSamples(v, ordered, degree)
  {
    hide IsEncoding, VC.NumFields, RowStart;
    forall k | 0 <= k < |ordered| ensures RowFromSample(v, ordered[k], degree, k) {
      assert IsRow(served[k], v, RowStart(k, VC.NumFields(degree)), VC.NumFields(degree));
    }
  }

  /** The matrices hold the moments of the clients' data. */
  ghost predicate HoldSamples(X: array2<int>, Y: array<int>, samples: seq<Sample>, degree: nat)
    requires Shaped(samples, degree)
    reads X, Y
  {
    && X.Length0 == X.Length1 == Y.Length == degree
    && (forall i, j :: 0 <= i < degree && 0 <= j < degree ==>
          X[i, j] == SampleMoment(samples, degree, i, j, |samples|))
    && (forall i :: 0 <= i < degree ==> Y[i] == SampleTarget(samples, degree, i, |samples|))
  }

  lemma MomentsAreSamples(X: array2<int>, Y: array<int>, v: seq<int>, valid: seq<bool>, ordered: seq<Sample>,
                          samples: seq<Sample>, degree: nat, bits: nat, p: Modulus)
    requires degree >= 1 && |valid| == |ordered| && FromSamples(v, ordered, degree)
    requires forall k :: 0 <= k < |valid| ==> valid[k]
    requires Permuted(ordered, samples) && AllFit(samples, degree, bits) && Shaped(samples, degree)
    requires Roomy(|samples|, degree, bits, p) && HoldMoments(X, Y, v, valid, degree, p)
    ensures HoldSamples(X, Y, samples, degree)
  {
    hide VC.NumFields, RowStart, RowFromSample, Moment, TargetMoment, SampleMoment, SampleTarget, Exact, Roomy, AllFit,
         Permuted, Shaped;
    FitPermuted(ordered, samples, degree, bits);
    RoomyMoments(samples, degree, bits, p);
    forall i, j | 0 <= i < degree && 0 <= j < degree
      ensures X[i, j] == SampleMoment(samples, degree, i, j, |samples|)
    {
      MomentsPermuted(ordered, samples, degree, i, j);
      MomentOfSamples(v, valid, ordered, degree, i, j, |ordered|);
    }
    forall i | 0 <= i < degree ensures Y[i] == SampleTarget(samples, degree, i, |samples|) {
      MomentsPermuted(ordered, samples, degree, i, 0);
      TargetOfSamples(v, valid, ordered, degree, i, |ordered|);
    }
  }

  /**
   `linreg_op` with honest clients, from their data to the solver, whatever the order in which server 1
   lists them: all of them are accepted, and where the moments are exact, X is the sum of
   (1, x)(1, x)^T and Y the sum of (1, x) y over what the clients hold.
   */
  method LinRegOp(vs: Verifiers, store: CorrelatedStores, useOt: bool, keys: seq<Key>, samples: seq<Sample>,
                  degree: nat, bits: nat, coin: Coins, ghost N: nat)
    returns (res: Result, b: Served)
    requires vs.Valid() && store.Valid() && store.p == vs.s0.c.p && (useOt ==> store.p < TWO64)
    requires degree >= 1 && SizeFor(vs.s0.c, degree, N) && bits <= 31
    requires Distinct(keys) && |keys| == |samples| > 0 && AllFit(samples, degree, bits)
    requires forall i, j :: Reduced(coin(i, j), store.p)
    modifies store, vs.s0, vs.s0.tables, vs.s1, vs.s1.tables
    ensures vs.Valid() && store.Valid() && b.Sized(|samples|) && Shaped(samples, degree)
    ensures ConversionSound(store, useOt, Widths(degree, bits)) ==>
              res.Matrices? && forall i :: 0 <= i < |samples| ==> b.Valid()[i]
    ensures ConversionSound(store, useOt, Widths(degree, bits)) && Roomy(|samples|, degree, bits, store.p) ==>
              res.Matrices? && HoldSamples(res.X, res.Y, samples, degree)
  {
    hide RowStart, VC.NumFields, VC.LinRegChecks, DomainFor, Widths, AllRows, FromSamples, ConversionSound, AllEncoded,
         AllPacked, Params.Supports, IsNextPower, Verifiers.Valid, CorrelatedStores.Valid, Roomy, AcceptedCorrect,
         HoldMoments, HoldSamples, AllFit, Permuted, Distinct, InputsFit, AllValid, SizesValid, SizedMap, MatchedBy,
         RowsOpen, Submissions, ProvesFields, IsEncoding, CountValid, Shaped;
    var rows0, rows1, packets0, packets1, fields := EncodeClients(vs.s0.c, samples, degree, bits, N);
    EncodedSizes(samples, rows0, rows1, fields, degree, bits);
    PackedCounts(DomainFor(vs.s0.c, N), degree, fields, packets0, packets1);
    var entries0, entries1 := Entries(rows0, packets0), Entries(rows1, packets1);
    var inputs0, inputs1 := Submissions(keys, entries0), Submissions(keys, entries1);
    MessagesFit(vs.s0.c, N, keys, samples, rows0, rows1, packets0, packets1, fields, degree, bits);
    FirstIsValid(inputs1, Widths(degree, bits));
    ghost var served, v, subs;
    res, b, served, v, subs := ServeRegression(vs, store, useOt, inputs0, inputs1, degree, bits, coin, N);
    ServedPermuted(b, keys, entries0, entries1, samples, Widths(degree, bits));
    ghost var ordered := InOrder(b.order, keys, samples);
    FitPermuted(ordered, samples, degree, bits);
    if ConversionSound(store, useOt, Widths(degree, bits)) {
      forall i | 0 <= i < |b.order|
        ensures b.Valid()[i] && IsEncoding(served[i], ordered[i].x, ordered[i].y, degree)
      {
        ClientServed(vs.s0.c, N, b, keys, samples, rows0, rows1, packets0, packets1, fields, served, degree, bits, i);
      }
      AllCounted(b.Valid(), |b.order|);
      ServedFromSamples(v, served, ordered, degree);
      SamplesCorrect(v, b.Valid(), ordered, degree, store.p);
      if Roomy(|samples|, degree, bits, store.p) {
        MomentsAreSamples(res.X, res.Y, v, b.Valid(), ordered, samples, degree, bits, store.p);
      }
    }
  }

  lemma EncodedSizes(samples: seq<Sample>, rows0: seq<seq<nat>>, rows1: seq<seq<nat>>, fields: seq<seq<int>>,
                     degree: nat, bits: nat)
    requires degree >= 1 && AllEncoded(samples, rows0, rows1, fields, degree, bits)
    ensures |rows0| == |rows1| == |fields|
  {
  }

  lemma PackedCounts(dom: Domain, degree: nat, fields: seq<seq<int>>, packets0: seq<ClientPacket>,
                     packets1: seq<ClientPacket>)
    requires degree >= 1 && AllPacked(dom, degree, fields, packets0, packets1)
    ensures |packets0| == |packets1| == |fields|
  {
  }

  lemma FirstIsValid(inputs: seq<Message>, widths: seq<nat>)
    requires AllValid(inputs, widths) && |inputs| > 0
    ensures SomeSizesValid(inputs, widths)
  {
    assert SizesValid(inputs[0].val.row, widths);
  }
}
