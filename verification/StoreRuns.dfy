/** Whole runs of the correlated store: any sequence of matching calls. */
module StoreRuns {
  import opened Modular
  import opened BoolOt
  import opened DaBits
  import opened Correlated

  datatype Call =
    | CheckBits(n: nat)
    | TakeBit
    | Update
    | ConvertBits(x0: seq<bool>, x1: seq<bool>)
    | CheckTriples(m: nat)
    | TakeTriple
    | Multiply(a0: seq<bool>, b0: seq<bool>, a1: seq<bool>, b1: seq<bool>)
  {
    /** Both servers pass arguments of the same lengths. */
    predicate Matching() {
      match this
      case ConvertBits(x0, x1) => |x0| == |x1|
      case Multiply(a0, b0, a1, b1) => |a0| == |b0| == |a1| == |b1|
      case _ => true
    }

    predicate AboutBits() {
      CheckBits? || TakeBit? || Update? || ConvertBits?
    }

    function Bits(): nat {
      match this
      case TakeBit => 1
      case ConvertBits(x0, _) => |x0|
      case _ => 0
    }

    function Triples(): nat {
      match this
      case TakeTriple => 1
      case Multiply(a0, _, _, _) => |a0|
      case _ => 0
    }
  }

  // ---------- what is in store ----------

  /** How much is stored and how often the servers generated. */
  datatype Stock = Stock(bits: nat, bitRounds: nat, triples: nat, tripleRounds: nat)
  {
    /** daBits are made exactly as far as they are missing. */
    ghost function CheckedBits(n: nat): (s: Stock)
      ensures s.bits >= n
    {
      if n <= bits then this else this.(bits := n, bitRounds := bitRounds + 1)
    }

    /** Triples are made as far as they are missing, but at least a batch. */
    ghost function CheckedTriples(n: nat, batchSize: nat): (s: Stock)
      ensures s.triples >= n
    {
      if n <= triples then this
      else if n - triples > batchSize then this.(triples := n, tripleRounds := tripleRounds + 1)
      else this.(triples := triples + batchSize, tripleRounds := tripleRounds + 1)
    }

    /** The stock after one call. */
    ghost function After(call: Call, batchSize: nat): Stock {
      match call
      case CheckBits(n) => CheckedBits(n)
      case TakeBit => var s := CheckedBits(1); s.(bits := s.bits - 1)
      case Update =>
        if bits < batchSize / 2 then this.(bits := bits + 2 * batchSize, bitRounds := bitRounds + 1) else this
      case ConvertBits(x0, _) => var s := CheckedBits(|x0|); s.(bits := s.bits - |x0|)
      case CheckTriples(n) => CheckedTriples(n, batchSize)
      case TakeTriple => var s := CheckedTriples(1, batchSize); s.(triples := s.triples - 1)
      case Multiply(a0, _, _, _) => var s := CheckedTriples(|a0|, batchSize); s.(triples := s.triples - |a0|)
    }
  }

  ghost function StockOf(store: CorrelatedStores): Stock
    reads store
  {
    Stock(|store.dabits0|, store.bitRounds, |store.triples0|, store.tripleRounds)
  }

  ghost function StockAfter(calls: seq<Call>, n: nat, start: Stock, batchSize: nat): Stock
    requires n <= |calls|
  {
    if n == 0 then start else StockAfter(calls, n - 1, start, batchSize).After(calls[n-1], batchSize)
  }

  /** While the stock lasts nothing is generated: after a check for all of it, no conversion is interrupted. */
  lemma {:induction false} NoneGenerated(calls: seq<Call>, n: nat, start: Stock, batchSize: nat)
    requires n <= |calls| && BitsNeeded(calls, n) <= start.bits && TriplesNeeded(calls, n) <= start.triples
    requires forall k :: 0 <= k < n ==>
               calls[k].TakeBit? || calls[k].ConvertBits? || calls[k].TakeTriple? || calls[k].Multiply?
    ensures StockAfter(calls, n, start, batchSize)
         == Stock(start.bits - BitsNeeded(calls, n), start.bitRounds, start.triples - TriplesNeeded(calls, n),
                  start.tripleRounds)
  {
    if n > 0 {
      NoneGenerated(calls, n - 1, start, batchSize);
    }
  }

  ghost function BitsNeeded(calls: seq<Call>, n: nat): nat
    requires n <= |calls|
  {
    if n == 0 then 0 else BitsNeeded(calls, n - 1) + calls[n-1].Bits()
  }

  ghost function TriplesNeeded(calls: seq<Call>, n: nat): nat
    requires n <= |calls|
  {
    if n == 0 then 0 else TriplesNeeded(calls, n - 1) + calls[n-1].Triples()
  }

  /** Call k uses the positions from its own start up to the start of the next call, so none twice. */
  lemma {:induction false} Disjoint(calls: seq<Call>, k: nat, l: nat)
    requires k < l <= |calls|
    ensures BitsNeeded(calls, k) + calls[k].Bits() <= BitsNeeded(calls, l)
    ensures TriplesNeeded(calls, k) + calls[k].Triples() <= TriplesNeeded(calls, l)
    decreases l
  {
    if k + 1 < l {
      Disjoint(calls, k, l - 1);
    }
  }

  /** What one call returns to the two servers. */
  datatype Outcome =
    | Nothing
    | Bit(d0: DaBit, d1: DaBit)
    | Triple(t0: BoolTriple, t1: BoolTriple)
    | Shares(y0: seq<int>, y1: seq<int>)
    | Products(z0: seq<bool>, z1: seq<bool>)

  /** All daBits and triples made for the two servers so far. */
  datatype History = History(bits0: seq<DaBit>, bits1: seq<DaBit>, triples0: seq<BoolTriple>,
                             triples1: seq<BoolTriple>) {
    ghost predicate Extends(h: History) {
      h.bits0 <= bits0 && h.bits1 <= bits1 && h.triples0 <= triples0 && h.triples1 <= triples1
    }
  }

  ghost function Made(store: CorrelatedStores): History
    reads store
  {
    History(store.madeBits0, store.madeBits1, store.madeTriples0, store.madeTriples1)
  }

  /** The outcome was made with the daBits from position `at` and the triples from position `tat` on. */
  ghost predicate MadeFrom(call: Call, out: Outcome, h: History, at: nat, tat: nat, p: Modulus)
    requires call.Matching()
  {
    match call
    case TakeBit => at < |h.bits0| && at < |h.bits1| && out == Bit(h.bits0[at], h.bits1[at])
    case TakeTriple => tat < |h.triples0| && tat < |h.triples1| && out == Triple(h.triples0[tat], h.triples1[tat])
    case ConvertBits(x0, x1) =>
      && out.Shares? && |out.y0| == |out.y1| == |x0| && at + |x0| <= |h.bits0| && at + |x0| <= |h.bits1|
      && forall i :: 0 <= i < |x0| ==>
           ConvertedWith(x0[i], x1[i], out.y0[i], out.y1[i], h.bits0[at+i], h.bits1[at+i], p)
    case Multiply(a0, b0, a1, b1) =>
      && out.Products? && |out.z0| == |out.z1| == |a0| && tat + |a0| <= |h.triples0| && tat + |a0| <= |h.triples1|
      && forall i :: 0 <= i < |a0| ==>
           MultipliedWith(a0[i], b0[i], a1[i], b1[i], out.z0[i], out.z1[i], h.triples0[tat+i], h.triples1[tat+i])
    case _ => out == Nothing
  }

  /** The outcome is what the two servers asked for. */
  ghost predicate Correct(call: Call, out: Outcome, sound: bool, p: Modulus)
    requires call.Matching()
  {
    match call
    case TakeBit => out.Bit? && (sound ==> IsDaBit(out.d0, out.d1, p))
    case TakeTriple => out.Triple? && IsBoolTriple(out.t0, out.t1)
    case ConvertBits(x0, x1) =>
      && out.Shares? && |out.y0| == |out.y1| == |x0|
      && (sound ==> forall i :: 0 <= i < |x0| ==> BitShared(out.y0[i], out.y1[i], x0[i] != x1[i], p))
    case Multiply(a0, b0, a1, b1) =>
      && out.Products? && |out.z0| == |out.z1| == |a0|
      && forall i :: 0 <= i < |a0| ==> ((out.z0[i] != out.z1[i]) <==> (a0[i] != a1[i]) && (b0[i] != b1[i]))
    case _ => true
  }

  lemma MadeFromLater(call: Call, out: Outcome, h: History, h': History, at: nat, tat: nat, p: Modulus)
    requires call.Matching() && MadeFrom(call, out, h, at, tat, p) && h'.Extends(h)
    ensures MadeFrom(call, out, h', at, tat, p)
  {
    hide ConvertedWith, MultipliedWith;
  }

  /** Calls about daBits. */
  method BitStep(store: CorrelatedStores, call: Call) returns (out: Outcome)
    requires store.Valid() && call.Matching() && call.AboutBits()
    modifies store
    ensures store.Valid() && Made(store).Extends(old(Made(store)))
    ensures store.usedBits == old(store.usedBits) + call.Bits()
    ensures store.usedTriples == old(store.usedTriples) + call.Triples()
    ensures MadeFrom(call, out, Made(store), old(store.usedBits), old(store.usedTriples), store.p)
    ensures Correct(call, out, store.Sound(), store.p)
    ensures StockOf(store) == old(StockOf(store)).After(call, store.batchSize)
  {
    hide AreDaBits, AreBoolTriples, ConvertedWith, IsDaBit, IsBoolTriple, BitShared;
    match call {
      case CheckBits(n) =>
        store.CheckDaBits(n);
        out := Nothing;
      case TakeBit =>
        var d0, d1 := store.GetDaBit();
        out := Bit(d0, d1);
      case Update =>
        store.MaybeUpdate();
        out := Nothing;
      case ConvertBits(x0, x1) =>
        var y0, y1 := store.B2aDaBitSingle(x0, x1);
        out := Shares(y0, y1);
    }
  }

  /** Calls about Boolean triples. */
  method TripleStep(store: CorrelatedStores, call: Call) returns (out: Outcome)
    requires store.Valid() && call.Matching() && !call.AboutBits()
    modifies store
    ensures store.Valid() && Made(store).Extends(old(Made(store)))
    ensures store.usedBits == old(store.usedBits) + call.Bits()
    ensures store.usedTriples == old(store.usedTriples) + call.Triples()
    ensures MadeFrom(call, out, Made(store), old(store.usedBits), old(store.usedTriples), store.p)
    ensures Correct(call, out, store.Sound(), store.p)
    ensures StockOf(store) == old(StockOf(store)).After(call, store.batchSize)
  {
    hide AreDaBits, AreBoolTriples, MultipliedWith, IsDaBit, IsBoolTriple;
    match call {
      case CheckTriples(n) =>
        store.CheckBoolTriples(n);
        out := Nothing;
      case TakeTriple =>
        var t0, t1 := store.GetBoolTriple();
        out := Triple(t0, t1);
      case Multiply(a0, b0, a1, b1) =>
        var z0, z1 := store.MultiplyBoolShares(a0, b0, a1, b1);
        out := Products(z0, z1);
    }
  }

  method Step(store: CorrelatedStores, call: Call) returns (out: Outcome)
    requires store.Valid() && call.Matching()
    modifies store
    ensures store.Valid() && Made(store).Extends(old(Made(store)))
    ensures store.usedBits == old(store.usedBits) + call.Bits()
    ensures store.usedTriples == old(store.usedTriples) + call.Triples()
    ensures MadeFrom(call, out, Made(store), old(store.usedBits), old(store.usedTriples), store.p)
    ensures Correct(call, out, store.Sound(), store.p)
    ensures StockOf(store) == old(StockOf(store)).After(call, store.batchSize)
  {
    hide MadeFrom, Correct, Stock.After, History.Extends;
    if call.AboutBits() {
      out := BitStep(store, call);
    } else {
      out := TripleStep(store, call);
    }
  }

  /** Every outcome so far is correct. */
  ghost predicate AllCorrect(calls: seq<Call>, outs: seq<Outcome>, sound: bool, p: Modulus) {
    && |outs| <= |calls| && (forall k :: 0 <= k < |calls| ==> calls[k].Matching())
    && forall k :: 0 <= k < |outs| ==> Correct(calls[k], outs[k], sound, p)
  }

  /** Call k is made from its own positions, counted from `bits` and `triples` on. */
  ghost predicate OwnPositions(calls: seq<Call>, outs: seq<Outcome>, h: History, bits: nat, triples: nat, p: Modulus) {
    && |outs| <= |calls| && (forall k :: 0 <= k < |calls| ==> calls[k].Matching())
    && forall k :: 0 <= k < |outs| ==>
         MadeFrom(calls[k], outs[k], h, bits + BitsNeeded(calls, k), triples + TriplesNeeded(calls, k), p)
  }

  lemma OneMoreCorrect(calls: seq<Call>, outs: seq<Outcome>, out: Outcome, sound: bool, p: Modulus)
    requires AllCorrect(calls, outs, sound, p) && |outs| < |calls| && Correct(calls[|outs|], out, sound, p)
    ensures AllCorrect(calls, outs + [out], sound, p)
  {
    hide Correct;
  }

  lemma OneMorePosition(calls: seq<Call>, outs: seq<Outcome>, out: Outcome, h: History, h': History,
                        bits: nat, triples: nat, p: Modulus)
    requires OwnPositions(calls, outs, h, bits, triples, p) && h'.Extends(h) && |outs| < |calls|
    requires var n := |outs|;
             MadeFrom(calls[n], out, h', bits + BitsNeeded(calls, n), triples + TriplesNeeded(calls, n), p)
    ensures OwnPositions(calls, outs + [out], h', bits, triples, p)
  {
    hide MadeFrom, BitsNeeded, TriplesNeeded, History.Extends;
    forall k | 0 <= k <= |outs|
      ensures MadeFrom(calls[k], (outs + [out])[k], h', bits + BitsNeeded(calls, k),
                       triples + TriplesNeeded(calls, k), p)
    {
      if k < |outs| {
        MadeFromLater(calls[k], outs[k], h, h', bits + BitsNeeded(calls, k), triples + TriplesNeeded(calls, k), p);
      }
    }
  }

  lemma NoOutcomes(calls: seq<Call>, h: History, bits: nat, triples: nat, sound: bool, p: Modulus)
    requires forall k :: 0 <= k < |calls| ==> calls[k].Matching()
    ensures AllCorrect(calls, [], sound, p) && OwnPositions(calls, [], h, bits, triples, p)
  {
  }

  /**
   Over every sequence of matching calls the stores stay in lockstep, exactly the demanded amount
   is consumed, every outcome is correct, and call k is made from its own positions of the history.
   */
  method Run(store: CorrelatedStores, calls: seq<Call>) returns (outs: seq<Outcome>)
    requires store.Valid() && forall k :: 0 <= k < |calls| ==> calls[k].Matching()
    modifies store
    ensures store.Valid() && |outs| == |calls|
    ensures store.usedBits == old(store.usedBits) + BitsNeeded(calls, |calls|)
    ensures store.usedTriples == old(store.usedTriples) + TriplesNeeded(calls, |calls|)
    ensures AllCorrect(calls, outs, store.Sound(), store.p)
    ensures StockOf(store) == StockAfter(calls, |calls|, old(StockOf(store)), store.batchSize)
    ensures OwnPositions(calls, outs, Made(store), old(store.usedBits), old(store.usedTriples), store.p)
  {
    hide MadeFrom, Correct, AreDaBits, AreBoolTriples, History.Extends, AllCorrect, OwnPositions;
    outs := [];
    NoOutcomes(calls, Made(store), store.usedBits, store.usedTriples, store.Sound(), store.p);
    for i := 0 to |calls|
      invariant store.Valid() && |outs| == i
      invariant store.usedBits == old(store.usedBits) + BitsNeeded(calls, i)
      invariant store.usedTriples == old(store.usedTriples) + TriplesNeeded(calls, i)
      invariant AllCorrect(calls, outs, store.Sound(), store.p)
      invariant StockOf(store) == StockAfter(calls, i, old(StockOf(store)), store.batchSize)
      invariant OwnPositions(calls, outs, Made(store), old(store.usedBits), old(store.usedTriples), store.p)
    {
      ghost var was := Made(store);
      var out := Step(store, calls[i]);
      OneMoreCorrect(calls, outs, out, store.Sound(), store.p);
      OneMorePosition(calls, outs, out, was, Made(store), old(store.usedBits), old(store.usedTriples), store.p);
      outs := outs + [out];
    }
  }
}
