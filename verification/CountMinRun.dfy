/** `countMin_op`: the servers on any submissions, and a whole run with honest clients. */
module CountMinRun {
  import opened Modular
  import opened RootsOfUnity
  import opened Rows
  import opened KeyMatch
  import opened Permutations
  import opened Correlated
  import opened Aggregation
  import opened Sketches
  import opened Heavy
  import opened OneHotCheck
  import opened SketchBatch
  import opened HeavyRun

  // ---------- the clients ----------

  /** The two rows of one client differ where `countmin_helper` marks its value. */
  ghost predicate Sketched(x0: seq<bool>, x1: seq<bool>, val: nat, d: nat, w: nat, hash: (nat, nat) -> nat) {
    && |x0| == |x1| == RowStart(d, w) && OneLayer(d, w).SketchSize() <= RowStart(d, w)
    && LayersMarked(x0, x1, val, OneLayer(d, w), Layered(hash), 1)
  }

  method SketchClients(vals: seq<nat>, d: nat, w: nat, hash: (nat, nat) -> nat)
    returns (rows0: seq<seq<bool>>, rows1: seq<seq<bool>>)
    requires HashesBelow(hash, d, w)
    ensures |rows0| == |rows1| == |vals|
    ensures forall i :: 0 <= i < |vals| ==> Sketched(rows0[i], rows1[i], vals[i], d, w, hash)
  {
    hide LayersMarked, RowStart;
    rows0, rows1 := [], [];
    OneLayerSize(d, w);
    for i := 0 to |vals|
      invariant |rows0| == |rows1| == i
      invariant forall m :: 0 <= m < i ==> Sketched(rows0[m], rows1[m], vals[m], d, w, hash)
    {
      var arr0, arr1 := EncodeSketch(vals[i], OneLayer(d, w), Layered(hash));
      rows0, rows1 := rows0 + [arr0], rows1 + [arr1[..]];
    }
  }

  /** Every place of these shares belongs to the client with the value at that place. */
  ghost predicate AllSketches(s0: seq<bool>, s1: seq<bool>, vals: seq<nat>, d: nat, w: nat, hash: (nat, nat) -> nat) {
    forall i :: 0 <= i < |vals| ==>
      ClientLayers(s0, s1, RowStart(i, RowStart(d, w)), RowStart(d, w), vals[i], OneLayer(d, w), Layered(hash))
  }

  lemma SketchFromRows(s0: seq<bool>, s1: seq<bool>, x0: seq<bool>, x1: seq<bool>, at: nat, val: nat, d: nat, w: nat,
                       hash: (nat, nat) -> nat)
    requires Sketched(x0, x1, val, d, w, hash) && |s0| == |s1|
    requires IsRow(x0, s0, at, RowStart(d, w)) && IsRow(x1, s1, at, RowStart(d, w))
    ensures ClientLayers(s0, s1, at, RowStart(d, w), val, OneLayer(d, w), Layered(hash))
  {
    hide LayersMarked, RowStart, Config.SketchSize;
  }

  function SketchLayout(d: nat, w: nat): (lay: Layout)
    ensures lay.Size() == RowStart(d, w) && (lay.Checked() > 0 <==> d > 0)
  {
    Layout(d, w, 0)
  }

  /** After matching, the clients come in the order of their keys on server 1. */
  lemma SketchesInOrder(b: Batch, keys: seq<Key>, rows0: seq<seq<bool>>, rows1: seq<seq<bool>>, vals: seq<nat>,
                        d: nat, w: nat, hash: (nat, nat) -> nat)
    requires Distinct(keys) && |keys| == |rows0| == |rows1| == |vals|
    requires forall i :: 0 <= i < |vals| ==> Sketched(rows0[i], rows1[i], vals[i], d, w, hash)
    requires Served(b, Submissions(keys, rows0), Submissions(keys, rows1), SketchLayout(d, w))
    ensures |b.order| == |keys| && forall i :: 0 <= i < |b.order| ==> b.order[i] in keys
    ensures Permuted(InOrder(b.order, keys, vals), vals)
    ensures AllSketches(b.s0, b.s1, InOrder(b.order, keys, vals), d, w, hash)
  {
    hide RowStart, Sketched, ClientLayers, IsRow, Permuted, SketchLayout;
    ClientsPermuted(b, keys, rows0, rows1, vals, SketchLayout(d, w));
    var ordered, size := InOrder(b.order, keys, vals), RowStart(d, w);
    forall i | 0 <= i < |ordered|
      ensures ClientLayers(b.s0, b.s1, RowStart(i, size), size, ordered[i], OneLayer(d, w), Layered(hash))
    {
      var c := Owner(keys, b.order[i]);
      ClientPlaced(b, keys, rows0, rows1, SketchLayout(d, w), i);
      SketchFromRows(b.s0, b.s1, rows0[c], rows1[c], RowStart(i, size), vals[c], d, w, hash);
    }
  }

  // ---------- totals and batch check ----------

  lemma OneLayerSize(d: nat, w: nat)
    ensures OneLayer(d, w).SketchSize() == RowStart(d, w) && RowStart(1, d) == d
    ensures forall j, m :: OneLayer(d, w).Cell(0, j, m) == RowStart(j, w) + m
  {
    assert RowStart(1, d) == d;
  }

  lemma TotalsAreCountMin(a: seq<int>, s0: seq<bool>, s1: seq<bool>, vals: seq<nat>, valid: seq<bool>,
                          d: nat, w: nat, hash: (nat, nat) -> nat, p: Modulus)
    requires |a| == RowStart(d, w) && |s0| == |s1| == RowStart(|vals|, |a|)
    requires |vals| == |valid| < p && AllTrue(valid) && Totals(a, Opened(s0, s1), valid, |vals|, p)
    requires AllSketches(s0, s1, vals, d, w, hash)
    ensures IsCountMin(a, vals, d, w, hash)
  {
    hide RowStart, ClientLayers, Opened, Totals, ColumnSum, AllTrue, ColumnCount;
    var cfg, layered := OneLayer(d, w), Layered(hash);
    OneLayerSize(d, w);
    forall j, m | 0 <= j < d && 0 <= m < w
      ensures CountMinEntry(a, j, m, vals, d, w, hash)
    {
      RowBound(0, j, cfg);
      ColumnIsCount(s0, s1, |a|, vals, valid, cfg, layered, 0, j, m, |vals|);
      ColumnAtMost(vals, 0, j, m, cfg, layered, |vals|);
      TotalExact(a, Opened(s0, s1), valid, |vals|, cfg.Cell(0, j, m), p);
    }
  }

  lemma CountMinBatchMarked(s0: seq<bool>, s1: seq<bool>, vals: seq<nat>, d: nat, w: nat, hash: (nat, nat) -> nat)
    requires HashesBelow(hash, d, w)
    requires |s0| == |s1| == RowStart(|vals|, RowStart(d, w))
    requires AllSketches(s0, s1, vals, d, w, hash)
    ensures AllRowsMarked(Opened(s0, s1), Layout(d, w, 0), |vals|)
  {
    hide RowStart, ClientLayers, RowSumsToOne, Opened;
    var cfg, lay := OneLayer(d, w), Layout(d, w, 0);
    OneLayerSize(d, w);
    forall i | 0 <= i < |vals| ensures ClientRowsMarked(Opened(s0, s1), lay, i) {
      RowsFit(i, |vals|, lay.Size());
      forall j | 0 <= j < lay.Checked() ensures RowSumsToOne(Opened(s0, s1), lay, i, j) {
        SketchRowMarked(s0, s1, i, vals[i], cfg, Layered(hash), lay, j);
      }
    }
  }

  // ---------- the whole run ----------

  /** The queried values whose smallest estimate reaches the threshold, in increasing order. */
  ghost predicate Queried(counts: seq<nat>, d: nat, w: nat, hash: (nat, nat) -> nat, n: nat, numBits: nat, target: real,
                          values: seq<nat>)
  {
    && Increasing(values)
    && forall x: nat :: x in values <==> x < Pow2(numBits) && x < 256 && Reported(counts, d, w, hash, n, target, x)
  }

  /**
   `countMin_op` on both servers, for any submissions: no answer when fewer than half of them are
   counted, else exactly the queried values whose estimate reaches the threshold.
   */
  method CountMinServers(store: CorrelatedStores, inputs0: seq<Row>, inputs1: seq<Row>, numBits: nat, d: nat, w: nat,
                         hash: (nat, nat) -> nat, t: real)
    returns (res: Result, b: Batch)
    requires store.Valid() && |inputs0| == |inputs1| < TWO32 / 2 && HashesBelow(hash, d, w)
    requires AllSized(inputs0, RowStart(d, w)) && AllSized(inputs1, RowStart(d, w))
    modifies store
    ensures store.Valid() && Served(b, inputs0, inputs1, SketchLayout(d, w))
    ensures store.Sound() ==> OpenedRight(b, |inputs0|, SketchLayout(d, w), store.p)
    ensures res.Invalid? <==> 2 * (if b.accepted then |b.order| else 0) < |inputs0|
    ensures res.Heavy? ==> Queried(b.counts, d, w, hash, |b.order|, numBits, |b.order| as real * t, res.values)
  {
    hide OpenedRight, Matched, RowStart;
    b := Serve(store, inputs0, inputs1, SketchLayout(d, w));
    // the invalid threshold is one half
    if 2 * b.NumValid() < |inputs0| {
      return Invalid, b;
    }
    var values := QueryCountMin(b.counts, d, w, hash, |b.order|, numBits, |b.order| as real * t);
    res := Heavy(values);
  }

  lemma SketchedSized(keys: seq<Key>, rows0: seq<seq<bool>>, rows1: seq<seq<bool>>, vals: seq<nat>, d: nat, w: nat,
                      hash: (nat, nat) -> nat)
    requires |keys| == |rows0| == |rows1| == |vals|
    requires forall i :: 0 <= i < |vals| ==> Sketched(rows0[i], rows1[i], vals[i], d, w, hash)
    ensures AllSized(Submissions(keys, rows0), RowStart(d, w)) && AllSized(Submissions(keys, rows1), RowStart(d, w))
  {
    hide LayersMarked, RowStart;
  }

  /** An honest batch is accepted if there is a row to check, and then its totals are the sketch of its values. */
  lemma HonestSketches(b: Batch, vals: seq<nat>, d: nat, w: nat, hash: (nat, nat) -> nat, p: Modulus)
    requires HashesBelow(hash, d, w) && |vals| == |b.order| < p
    requires |b.s0| == |b.s1| == RowStart(|vals|, RowStart(d, w)) && |b.counts| == RowStart(d, w)
    requires AllSketches(b.s0, b.s1, vals, d, w, hash) && OpenedRight(b, |vals|, SketchLayout(d, w), p)
    ensures b.accepted <==> d > 0
    ensures IsCountMin(b.counts, vals, d, w, hash)
  {
    hide RowStart, AllSketches, AllRowsMarked, RowTotal, Totals, Opened, HashesBelow;
    CountMinBatchMarked(b.s0, b.s1, vals, d, w, hash);
    if d > 0 {
      MarkedPasses(Opened(b.s0, b.s1), SketchLayout(d, w), |vals|, p);
      TotalsAreCountMin(b.counts, b.s0, b.s1, vals, b.Valid(), d, w, hash, p);
    } else {
      RowZero(w);
    }
  }

  lemma QueriedFound(a: seq<nat>, ordered: seq<nat>, vals: seq<nat>, d: nat, w: nat, hash: (nat, nat) -> nat,
                     numBits: nat, target: real, values: seq<nat>, x: nat)
    requires HashesBelow(hash, d, w) && IsCountMin(a, ordered, d, w, hash) && Permuted(ordered, vals)
    requires |ordered| < TWO32 / 2 && x < 256 && x < Pow2(numBits)
    requires Queried(a, d, w, hash, |ordered|, numBits, target, values)
    requires Occurrences(vals, x, |vals|) as real >= target
    ensures x in values
  {
    hide IsCountMin, Occurrences, Pow2, Permuted, Reported;
    OccurrencesPermuted(ordered, vals, x);
    HeavyIsReported(a, ordered, d, w, hash, target, x);
  }

  /** A reported value that collides with nobody else's in some row is heavy. */
  lemma QueriedIsHeavy(a: seq<nat>, ordered: seq<nat>, vals: seq<nat>, d: nat, w: nat, hash: (nat, nat) -> nat,
                       numBits: nat, target: real, values: seq<nat>, x: nat, j: nat)
    requires HashesBelow(hash, d, w) && IsCountMin(a, ordered, d, w, hash) && Permuted(ordered, vals)
    requires |ordered| < TWO32 / 2 && x in values && j < d
    requires Queried(a, d, w, hash, |ordered|, numBits, target, values)
    requires NoCollision(vals, OneLayer(d, w), Layered(hash), j, x)
    ensures Occurrences(vals, x, |vals|) as real >= target
  {
    hide IsCountMin, Occurrences, Pow2, Permuted, Reported, NoCollision;
    OccurrencesPermuted(ordered, vals, x);
    NoCollisionPermuted(ordered, vals, OneLayer(d, w), Layered(hash), j, x);
    ReportedOccurs(a, ordered, d, w, hash, target, j, x);
  }

  /**
   `countMin_op` with honest clients, whatever the order in which server 1 lists them: the batch is
   accepted if there is at least one hash, no heavy value among those queried is missed, and no other
   value is reported that is free of collisions in some row.
   */
  method CountMinOp(store: CorrelatedStores, keys: seq<Key>, vals: seq<nat>, numBits: nat, d: nat, w: nat,
                    hash: (nat, nat) -> nat, t: real)
    returns (res: Result, b: Batch)
    requires store.Valid() && Distinct(keys) && |keys| == |vals| < TWO32 / 2 && HashesBelow(hash, d, w)
    modifies store
    ensures store.Valid() && |b.order| == |keys| && forall i :: 0 <= i < |b.order| ==> b.order[i] in keys
    ensures Permuted(InOrder(b.order, keys, vals), vals)
    ensures res.Heavy? ==>
              && RowStart(d, w) <= |b.counts|
              && Queried(b.counts, d, w, hash, |b.order|, numBits, |b.order| as real * t, res.values)
    ensures store.Sound() && |vals| < store.p ==>
              && (b.accepted <==> d > 0) && (res.Invalid? <==> d == 0 && |vals| > 0)
              && IsCountMin(b.counts, InOrder(b.order, keys, vals), d, w, hash)
    ensures store.Sound() && |vals| < store.p && res.Heavy? ==>
              forall x: nat :: x < 256 && x < Pow2(numBits) &&
                               Occurrences(vals, x, |vals|) as real >= |vals| as real * t
                ==> x in res.values
    ensures store.Sound() && |vals| < store.p ==>
              forall x: nat, j: nat :: res.Heavy? && x in res.values && j < d &&
                                       NoCollision(vals, OneLayer(d, w), Layered(hash), j, x)
                ==> Occurrences(vals, x, |vals|) as real >= |vals| as real * t
  {
    hide NoCollision, RowStart, Pow2, HashesBelow, IsCountMin, Queried, Occurrences, Sketched, Submissions, Served,
         OpenedRight,
         AllSketches, Permuted, InOrder, AllSized;
    var rows0, rows1 := SketchClients(vals, d, w, hash);
    SketchedSized(keys, rows0, rows1, vals, d, w, hash);
    res, b := CountMinServers(store, Submissions(keys, rows0), Submissions(keys, rows1), numBits, d, w, hash, t);
    ServedSize(b, Submissions(keys, rows0), Submissions(keys, rows1), SketchLayout(d, w));
    SketchesInOrder(b, keys, rows0, rows1, vals, d, w, hash);
    ghost var ordered := InOrder(b.order, keys, vals);
    if store.Sound() && |vals| < store.p {
      HonestSketches(b, ordered, d, w, hash, store.p);
      if res.Heavy? {
        forall x: nat | x < 256 && x < Pow2(numBits) && Occurrences(vals, x, |vals|) as real >= |vals| as real * t
          ensures x in res.values
        {
          QueriedFound(b.counts, ordered, vals, d, w, hash, numBits, |b.order| as real * t, res.values, x);
        }
        forall x: nat, j: nat | x in res.values && j < d && NoCollision(vals, OneLayer(d, w), Layered(hash), j, x)
          ensures Occurrences(vals, x, |vals|) as real >= |vals| as real * t
        {
          QueriedIsHeavy(b.counts, ordered, vals, d, w, hash, numBits, |b.order| as real * t, res.values, x, j);
        }
      }
    }
  }
}
