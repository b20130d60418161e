/** `heavy_op`: the servers on any submissions, and a whole run with honest clients. */
module HeavyRun {
  import opened Modular
  import opened RootsOfUnity
  import opened Words
  import opened Rows
  import opened KeyMatch
  import opened Permutations
  import opened Correlated
  import opened Aggregation
  import opened Sketches
  import opened Heavy
  import opened OneHotCheck
  import opened SketchBatch

  /** The client whose cells start at `at` has marked its sketch. */
  ghost predicate ClientLayers(s0: seq<bool>, s1: seq<bool>, at: nat, size: nat, val: nat, cfg: Config, hash: Hash) {
    && at + size <= |s0| == |s1| && cfg.SketchSize() <= size
    && LayersMarked(s0[at..at+size], s1[at..at+size], val, cfg, hash, cfg.layers)
  }

  ghost predicate ClientFreq(s0: seq<bool>, s1: seq<bool>, at: nat, size: nat, val: nat, cfg: Config)
    requires cfg.Valid()
  {
    at + size <= |s0| == |s1| && FreqMarked(s0[at..at+size], s1[at..at+size], val, cfg)
  }

  /** The two rows of one client differ where `heavy_helper` marks its value. */
  ghost predicate Encoded(x0: seq<bool>, x1: seq<bool>, val: nat, cfg: Config, hash: Hash)
    requires cfg.Valid()
  {
    |x0| == |x1| == cfg.ShareSize() && LayersMarked(x0, x1, val, cfg, hash, cfg.layers) && FreqMarked(x0, x1, val, cfg)
  }

  /** `heavy_helper`: the shares of all clients. */
  method EncodeClients(vals: seq<nat>, cfg: Config, hash: Hash) returns (rows0: seq<seq<bool>>, rows1: seq<seq<bool>>)
    requires cfg.Valid() && InRange(hash, cfg) && forall i :: 0 <= i < |vals| ==> vals[i] < Pow2(cfg.numBits)
    ensures |rows0| == |rows1| == |vals|
    ensures forall i :: 0 <= i < |vals| ==> Encoded(rows0[i], rows1[i], vals[i], cfg, hash)
  {
    hide LayersMarked, FreqMarked, Pow2, InRange;
    rows0, rows1 := [], [];
    for i := 0 to |vals|
      invariant |rows0| == |rows1| == i
      invariant forall m :: 0 <= m < i ==> Encoded(rows0[m], rows1[m], vals[m], cfg, hash)
    {
      var arr0, arr1 := EncodeValue(vals[i], cfg, hash);
      rows0, rows1 := rows0 + [arr0], rows1 + [arr1[..]];
    }
  }

  lemma ClientFromRows(s0: seq<bool>, s1: seq<bool>, x0: seq<bool>, x1: seq<bool>, at: nat, val: nat, cfg: Config,
                       hash: Hash)
    requires cfg.Valid() && Encoded(x0, x1, val, cfg, hash) && |s0| == |s1|
    requires IsRow(x0, s0, at, cfg.ShareSize()) && IsRow(x1, s1, at, cfg.ShareSize())
    ensures ClientLayers(s0, s1, at, cfg.ShareSize(), val, cfg, hash)
    ensures ClientFreq(s0, s1, at, cfg.ShareSize(), val, cfg)
  {
    hide LayersMarked, FreqMarked;
  }

  /** Every place of these shares belongs to the client with the value at that place. */
  ghost predicate AllClients(s0: seq<bool>, s1: seq<bool>, vals: seq<nat>, cfg: Config, hash: Hash)
    requires cfg.Valid()
  {
    forall i :: 0 <= i < |vals| ==>
      && ClientLayers(s0, s1, RowStart(i, cfg.ShareSize()), cfg.ShareSize(), vals[i], cfg, hash)
      && ClientFreq(s0, s1, RowStart(i, cfg.ShareSize()), cfg.ShareSize(), vals[i], cfg)
  }

  /** After matching, the clients come in the order of their keys on server 1. */
  lemma ClientsInOrder(b: Batch, keys: seq<Key>, rows0: seq<seq<bool>>, rows1: seq<seq<bool>>, vals: seq<nat>,
                       cfg: Config, hash: Hash)
    requires cfg.Valid() && Distinct(keys) && |keys| == |rows0| == |rows1| == |vals|
    requires forall i :: 0 <= i < |vals| ==> Encoded(rows0[i], rows1[i], vals[i], cfg, hash)
    requires Served(b, Submissions(keys, rows0), Submissions(keys, rows1), HeavyLayout(cfg))
    ensures |b.order| == |keys| && forall i :: 0 <= i < |b.order| ==> b.order[i] in keys
    ensures Permuted(InOrder(b.order, keys, vals), vals)
    ensures AllClients(b.s0, b.s1, InOrder(b.order, keys, vals), cfg, hash)
  {
    hide RowStart, Encoded, ClientLayers, ClientFreq, IsRow, Permuted, HeavyLayout;
    ClientsPermuted(b, keys, rows0, rows1, vals, HeavyLayout(cfg));
    var ordered := InOrder(b.order, keys, vals);
    forall i | 0 <= i < |ordered|
      ensures ClientLayers(b.s0, b.s1, RowStart(i, cfg.ShareSize()), cfg.ShareSize(), ordered[i], cfg, hash)
      ensures ClientFreq(b.s0, b.s1, RowStart(i, cfg.ShareSize()), cfg.ShareSize(), ordered[i], cfg)
    {
      var c := Owner(keys, b.order[i]);
      ClientPlaced(b, keys, rows0, rows1, HeavyLayout(cfg), i);
      ClientFromRows(b.s0, b.s1, rows0[c], rows1[c], RowStart(i, cfg.ShareSize()), vals[c], cfg, hash);
    }
  }

  // ---------- totals are counts ----------

  lemma ClientCell(s0: seq<bool>, s1: seq<bool>, at: nat, size: nat, val: nat, cfg: Config, hash: Hash,
                   k: nat, j: nat, m: nat)
    requires ClientLayers(s0, s1, at, size, val, cfg, hash) && k < cfg.layers && j < cfg.d && m < cfg.w
    ensures cfg.Cell(k, j, m) < size
    ensures Opened(s0, s1)[at + cfg.Cell(k, j, m)] == if hash(k, j, Shr(val, cfg.layers - 1 - k)) == m then 1 else 0
  {
    hide RowStart;
    var x0, x1 := s0[at..at+size], s1[at..at+size];
    var c := cfg.Cell(k, j, m);
    RowBound(k, j, cfg);
    assert CellMarked(x0, x1, k, j, val, cfg, hash);
    assert x0[c] == s0[at+c] && x1[c] == s1[at+c];
  }

  lemma ClientFreqCell(s0: seq<bool>, s1: seq<bool>, at: nat, size: nat, val: nat, cfg: Config, x: nat)
    requires cfg.Valid() && ClientFreq(s0, s1, at, size, val, cfg) && x < cfg.FirstSize()
    ensures cfg.FreqCell(x) < size
    ensures Opened(s0, s1)[at + cfg.FreqCell(x)] == if Shr(val, cfg.layers) == x then 1 else 0
  {
    hide RowStart, Pow2;
    var x0, x1 := s0[at..at+size], s1[at..at+size];
    var c := cfg.FreqCell(x);
    assert x0[c] == s0[at+c] && x1[c] == s1[at+c];
  }

  ghost predicate AllTrue(valid: seq<bool>) {
    forall i :: 0 <= i < |valid| ==> valid[i]
  }

  lemma {:induction false} ColumnIsCount(s0: seq<bool>, s1: seq<bool>, size: nat, vals: seq<nat>, valid: seq<bool>,
                                         cfg: Config, hash: Hash, k: nat, j: nat, m: nat, n: nat)
    requires |s0| == |s1| == RowStart(|vals|, size) && n <= |vals| == |valid| && AllTrue(valid)
    requires forall i :: 0 <= i < |vals| ==> ClientLayers(s0, s1, RowStart(i, size), size, vals[i], cfg, hash)
    requires k < cfg.layers && j < cfg.d && m < cfg.w && cfg.Cell(k, j, m) < size
    ensures RowStart(n, size) <= |s0|
    ensures ColumnSum(Opened(s0, s1), valid, size, cfg.Cell(k, j, m), n) == ColumnCount(vals, k, j, m, cfg, hash, n)
  {
    hide LayersMarked, RowStart, ClientLayers, Opened;
    FirstRow(n, |vals|, size);
    if n == 0 {
      RowZero(size);
    } else {
      RowsFit(n - 1, n, size);
      ColumnIsCount(s0, s1, size, vals, valid, cfg, hash, k, j, m, n - 1);
      ClientCell(s0, s1, RowStart(n - 1, size), size, vals[n-1], cfg, hash, k, j, m);
    }
  }

  lemma {:induction false} FreqIsCount(s0: seq<bool>, s1: seq<bool>, size: nat, vals: seq<nat>, valid: seq<bool>,
                                       cfg: Config, x: nat, n: nat)
    requires cfg.Valid() && |s0| == |s1| == RowStart(|vals|, size) && n <= |vals| == |valid| && AllTrue(valid)
    requires forall i :: 0 <= i < |vals| ==> ClientFreq(s0, s1, RowStart(i, size), size, vals[i], cfg)
    requires x < cfg.FirstSize() && cfg.FreqCell(x) < size
    ensures RowStart(n, size) <= |s0|
    ensures ColumnSum(Opened(s0, s1), valid, size, cfg.FreqCell(x), n) == PrefixCount(vals, cfg.layers, x, n)
  {
    hide FreqMarked, RowStart, ClientFreq, Opened, Pow2;
    FirstRow(n, |vals|, size);
    if n == 0 {
      RowZero(size);
    } else {
      RowsFit(n - 1, n, size);
      FreqIsCount(s0, s1, size, vals, valid, cfg, x, n - 1);
      ClientFreqCell(s0, s1, RowStart(n - 1, size), size, vals[n-1], cfg, x);
    }
  }

  /** The opened totals are the sketch of all values. */
  lemma TotalsAreSketch(a: seq<int>, s0: seq<bool>, s1: seq<bool>, vals: seq<nat>, valid: seq<bool>, cfg: Config,
                        hash: Hash, p: Modulus)
    requires cfg.Valid() && |a| == cfg.ShareSize() && |s0| == |s1| == RowStart(|vals|, |a|)
    requires |vals| == |valid| < p && AllTrue(valid) && Totals(a, Opened(s0, s1), valid, |vals|, p)
    requires AllClients(s0, s1, vals, cfg, hash)
    ensures IsSketch(a, vals, cfg, hash)
  {
    hide RowStart, ClientLayers, ClientFreq, Opened, Totals, ColumnSum, Pow2, AllTrue, ColumnCount, PrefixCount;
    forall k, j, m | 0 <= k < cfg.layers && 0 <= j < cfg.d && 0 <= m < cfg.w
      ensures EntryCounts(a, k, j, m, vals, cfg, hash)
    {
      RowBound(k, j, cfg);
      ColumnIsCount(s0, s1, |a|, vals, valid, cfg, hash, k, j, m, |vals|);
      ColumnAtMost(vals, k, j, m, cfg, hash, |vals|);
      TotalExact(a, Opened(s0, s1), valid, |vals|, cfg.Cell(k, j, m), p);
    }
    forall x | 0 <= x < cfg.FirstSize() ensures FreqCounts(a, x, vals, cfg) {
      FreqIsCount(s0, s1, |a|, vals, valid, cfg, x, |vals|);
      CountAtMost(vals, cfg.layers, x, |vals|);
      TotalExact(a, Opened(s0, s1), valid, |vals|, cfg.FreqCell(x), p);
    }
  }

  // ---------- honest clients pass the batch check ----------

  /** A row of a client in which exactly cell h differs opens to numbers that add to 1. */
  lemma RowWithOneMark(s0: seq<bool>, s1: seq<bool>, i: nat, lay: Layout, j: nat, h: nat)
    requires |s0| == |s1| && RowStart(i + 1, lay.Size()) <= |s0|
    requires RowStart(i, lay.Size()) + SegStart(lay, j) + SegLen(lay, j) <= |s0|
    requires var from := RowStart(i, lay.Size()) + SegStart(lay, j);
             && from <= h < from + SegLen(lay, j)
             && forall c :: from <= c < from + SegLen(lay, j) ==> ((s0[c] != s1[c]) <==> c == h)
    ensures RowSumsToOne(Opened(s0, s1), lay, i, j)
  {
    hide RowStart, Opened, SegStart, SegLen;
    var from, len := RowStart(i, lay.Size()) + SegStart(lay, j), SegLen(lay, j);
    forall c | from <= c < from + len ensures Opened(s0, s1)[c] == if c == h then 1 else 0 {
      OpenedAt(s0, s1, c);
    }
    OneMark(Opened(s0, s1), from, len, h);
  }

  /** The layout of a heavy-hitter share. */
  function HeavyLayout(cfg: Config): (lay: Layout)
    requires cfg.Valid()
    ensures lay.Size() == cfg.ShareSize()
  {
    Layout(RowStart(cfg.layers, cfg.d), cfg.w, cfg.FirstSize())
  }

  lemma SketchCellDiffers(s0: seq<bool>, s1: seq<bool>, at: nat, size: nat, val: nat, cfg: Config, hash: Hash,
                          k: nat, m: nat, e: nat)
    requires ClientLayers(s0, s1, at, size, val, cfg, hash) && k < cfg.layers && m < cfg.d
    requires e < cfg.w
    ensures var c := RowStart(RowStart(k, cfg.d) + m, cfg.w) + e;
            && at + c < |s0| == |s1|
            && ((s0[at+c] != s1[at+c]) <==> e == hash(k, m, Shr(val, cfg.layers - 1 - k)))
  {
    hide RowStart;
    RowBound(k, m, cfg);
    var x0, x1 := s0[at..at+size], s1[at..at+size];
    var c := RowStart(RowStart(k, cfg.d) + m, cfg.w) + e;
    assert CellMarked(x0, x1, k, m, val, cfg, hash);
    assert x0[c] == s0[at+c] && x1[c] == s1[at+c];
  }

  lemma SketchRowMarked(s0: seq<bool>, s1: seq<bool>, i: nat, val: nat, cfg: Config, hash: Hash, lay: Layout, j: nat)
    requires InRange(hash, cfg) && lay.rows == RowStart(cfg.layers, cfg.d) && lay.w == cfg.w && j < lay.rows
    requires ClientLayers(s0, s1, RowStart(i, lay.Size()), lay.Size(), val, cfg, hash)
    requires RowStart(i + 1, lay.Size()) <= |s0|
    ensures RowSumsToOne(Opened(s0, s1), lay, i, j)
  {
    hide RowStart, Opened, LayersMarked;
    var at := RowStart(i, lay.Size());
    SegFits(lay, j);
    var k, m := RowOfCell(j, cfg.layers, cfg.d);
    var from := at + SegStart(lay, j);
    var h := from + hash(k, m, Shr(val, cfg.layers - 1 - k));
    forall c | from <= c < from + SegLen(lay, j) ensures (s0[c] != s1[c]) <==> c == h {
      SketchCellDiffers(s0, s1, at, lay.Size(), val, cfg, hash, k, m, c - from);
    }
    RowWithOneMark(s0, s1, i, lay, j, h);
  }

  lemma FreqCellDiffers(s0: seq<bool>, s1: seq<bool>, at: nat, val: nat, cfg: Config, e: nat)
    requires cfg.Valid() && ClientFreq(s0, s1, at, cfg.ShareSize(), val, cfg)
    requires cfg.SketchSize() <= e < cfg.ShareSize()
    ensures at + e < |s0| == |s1|
    ensures (s0[at+e] != s1[at+e]) <==> e == cfg.FreqCell(Shr(val, cfg.layers))
  {
    var x0, x1 := s0[at..at+cfg.ShareSize()], s1[at..at+cfg.ShareSize()];
    assert x0[e] == s0[at+e] && x1[e] == s1[at+e];
  }

  lemma FreqRowMarked(s0: seq<bool>, s1: seq<bool>, i: nat, val: nat, cfg: Config, j: nat)
    requires cfg.Valid() && val < Pow2(cfg.numBits) && j == HeavyLayout(cfg).rows
    requires ClientFreq(s0, s1, RowStart(i, cfg.ShareSize()), cfg.ShareSize(), val, cfg)
    requires RowStart(i + 1, cfg.ShareSize()) <= |s0|
    ensures RowSumsToOne(Opened(s0, s1), HeavyLayout(cfg), i, j)
  {
    hide RowStart, Opened, Pow2, FreqMarked;
    var lay := HeavyLayout(cfg);
    SegFits(lay, j);
    ShrBound(val, cfg.layers, cfg.numBits);
    var at := RowStart(i, lay.Size());
    var from := at + SegStart(lay, j);
    var h := from + Shr(val, cfg.layers);
    forall c | from <= c < from + SegLen(lay, j) ensures (s0[c] != s1[c]) <==> c == h {
      FreqCellDiffers(s0, s1, at, val, cfg, c - at);
    }
    RowWithOneMark(s0, s1, i, lay, j, h);
  }

  /** Every row of an honest heavy-hitter client opens to numbers that add to 1. */
  lemma HeavyClientMarked(s0: seq<bool>, s1: seq<bool>, i: nat, val: nat, cfg: Config, hash: Hash)
    requires cfg.Valid() && InRange(hash, cfg) && val < Pow2(cfg.numBits)
    requires ClientLayers(s0, s1, RowStart(i, cfg.ShareSize()), cfg.ShareSize(), val, cfg, hash)
    requires ClientFreq(s0, s1, RowStart(i, cfg.ShareSize()), cfg.ShareSize(), val, cfg)
    requires RowStart(i + 1, cfg.ShareSize()) <= |s0| == |s1|
    ensures ClientRowsMarked(Opened(s0, s1), HeavyLayout(cfg), i)
  {
    hide RowStart, Pow2, RowSumsToOne, Opened, InRange, ClientLayers, ClientFreq;
    var lay := HeavyLayout(cfg);
    forall j | 0 <= j < lay.Checked() ensures RowSumsToOne(Opened(s0, s1), lay, i, j) {
      if j < lay.rows {
        SketchRowMarked(s0, s1, i, val, cfg, hash, lay, j);
      } else {
        FreqRowMarked(s0, s1, i, val, cfg, j);
      }
    }
  }

  lemma HeavyBatchMarked(s0: seq<bool>, s1: seq<bool>, vals: seq<nat>, cfg: Config, hash: Hash)
    requires cfg.Valid() && InRange(hash, cfg) && forall i :: 0 <= i < |vals| ==> vals[i] < Pow2(cfg.numBits)
    requires |s0| == |s1| == RowStart(|vals|, cfg.ShareSize())
    requires AllClients(s0, s1, vals, cfg, hash)
    ensures AllRowsMarked(Opened(s0, s1), HeavyLayout(cfg), |vals|)
    ensures HeavyLayout(cfg).Checked() > 0
  {
    hide RowStart, ClientLayers, ClientFreq, InRange, ClientRowsMarked;
    forall i | 0 <= i < |vals| ensures ClientRowsMarked(Opened(s0, s1), HeavyLayout(cfg), i) {
      RowsFit(i, |vals|, cfg.ShareSize());
      HeavyClientMarked(s0, s1, i, vals[i], cfg, hash);
    }
  }

  // ---------- the whole run ----------

  lemma SurvivorFound(a: seq<nat>, cfg: Config, hash: Hash, n: nat, target: real, values: seq<nat>, y: nat)
    requires cfg.Valid() && InRange(hash, cfg) && |a| == cfg.ShareSize()
    requires Survivors(a, cfg, hash, n, target, cfg.layers, values) && Survives(a, cfg, hash, n, target, cfg.layers, y)
    ensures y in values
  {
  }

  lemma {:induction false} OccurrencesCounted(vals: seq<nat>, val: nat, n: nat)
    requires n <= |vals|
    ensures Occurrences(vals, val, n) == multiset(vals[..n])[val]
  {
    if n > 0 {
      OccurrencesCounted(vals, val, n - 1);
      assert vals[..n] == vals[..n-1] + [vals[n-1]];
    }
  }

  lemma OccurrencesPermuted(a: seq<nat>, b: seq<nat>, val: nat)
    requires Permuted(a, b)
    ensures |a| == |b| && Occurrences(a, val, |a|) == Occurrences(b, val, |b|)
  {
    SameLength(a, b);
    OccurrencesCounted(a, val, |a|);
    OccurrencesCounted(b, val, |b|);
    assert a[..|a|] == a && b[..|b|] == b;
  }

  /** What the client learns. */
  datatype Result = Invalid | Heavy(values: seq<nat>)

  /**
   `heavy_op` on both servers, for any submissions: no answer when fewer than half of them are
   counted, else exactly the survivors of the search in the totals.
   */
  method HeavyServers(store: CorrelatedStores, inputs0: seq<Row>, inputs1: seq<Row>, cfg: Config, hash: Hash, t: real)
    returns (res: Result, b: Batch)
    requires store.Valid() && cfg.Valid() && InRange(hash, cfg) && |inputs0| == |inputs1|
    requires AllSized(inputs0, cfg.ShareSize()) && AllSized(inputs1, cfg.ShareSize())
    modifies store
    ensures store.Valid() && Served(b, inputs0, inputs1, HeavyLayout(cfg))
    ensures store.Sound() ==> OpenedRight(b, |inputs0|, HeavyLayout(cfg), store.p)
    ensures res.Invalid? <==> 2 * (if b.accepted then |b.order| else 0) < |inputs0|
    ensures res.Heavy? ==>
              Survivors(b.counts, cfg, hash, |b.order|, |b.order| as real * t, cfg.layers, res.values)
  {
    hide Served, OpenedRight, Survivors;
    b := Serve(store, inputs0, inputs1, HeavyLayout(cfg));
    ServedSize(b, inputs0, inputs1, HeavyLayout(cfg));
    // the invalid threshold is one half
    if 2 * b.NumValid() < |inputs0| {
      return Invalid, b;
    }
    var values := Search(b.counts, cfg, hash, |b.order|, |b.order| as real * t);
    res := Heavy(values);
  }

  lemma ServedSize(b: Batch, inputs0: seq<Row>, inputs1: seq<Row>, lay: Layout)
    requires Served(b, inputs0, inputs1, lay)
    ensures |b.counts| == lay.Size() && |b.s0| == |b.s1| == RowStart(|b.order|, lay.Size())
  {
  }

  lemma EncodedSized(keys: seq<Key>, rows0: seq<seq<bool>>, rows1: seq<seq<bool>>, vals: seq<nat>, cfg: Config,
                     hash: Hash)
    requires cfg.Valid() && |keys| == |rows0| == |rows1| == |vals|
    requires forall i :: 0 <= i < |vals| ==> Encoded(rows0[i], rows1[i], vals[i], cfg, hash)
    ensures AllSized(Submissions(keys, rows0), cfg.ShareSize()) && AllSized(Submissions(keys, rows1), cfg.ShareSize())
  {
    hide LayersMarked, FreqMarked;
  }

  /** An honest batch is accepted and its totals are the sketch of its values. */
  lemma HonestBatch(b: Batch, vals: seq<nat>, cfg: Config, hash: Hash, p: Modulus)
    requires cfg.Valid() && InRange(hash, cfg) && |vals| == |b.order| < p
    requires forall i :: 0 <= i < |vals| ==> vals[i] < Pow2(cfg.numBits)
    requires |b.s0| == |b.s1| == RowStart(|vals|, cfg.ShareSize()) && |b.counts| == cfg.ShareSize()
    requires AllClients(b.s0, b.s1, vals, cfg, hash) && OpenedRight(b, |vals|, HeavyLayout(cfg), p)
    ensures b.accepted && IsSketch(b.counts, vals, cfg, hash)
  {
    hide RowStart, Pow2, InRange, AllClients, AllRowsMarked, BatchPasses, Totals, IsSketch, Opened;
    HeavyBatchMarked(b.s0, b.s1, vals, cfg, hash);
    MarkedPasses(Opened(b.s0, b.s1), HeavyLayout(cfg), |vals|, p);
    TotalsAreSketch(b.counts, b.s0, b.s1, vals, b.Valid(), cfg, hash, p);
  }

  lemma ValuesInOrder(order: seq<Key>, keys: seq<Key>, vals: seq<nat>, bound: nat)
    requires |keys| == |vals| && (forall i :: 0 <= i < |order| ==> order[i] in keys)
    requires forall i :: 0 <= i < |vals| ==> vals[i] < bound
    ensures forall i :: 0 <= i < |order| ==> InOrder(order, keys, vals)[i] < bound
  {
  }

  /** Heavy values survive, whatever the order in which the sketch was filled. */
  lemma HeavyFound(a: seq<nat>, ordered: seq<nat>, vals: seq<nat>, cfg: Config, hash: Hash, target: real,
                   values: seq<nat>, val: nat)
    requires cfg.Valid() && InRange(hash, cfg) && IsSketch(a, ordered, cfg, hash) && Permuted(ordered, vals)
    requires |a| == cfg.ShareSize() && |ordered| < TWO32 && val < Pow2(cfg.numBits)
    requires Survivors(a, cfg, hash, |ordered|, target, cfg.layers, values)
    requires Occurrences(vals, val, |vals|) as real >= target
    ensures val in values
  {
    hide IsSketch, Survivors, Survives, Occurrences, InRange, Pow2, Permuted;
    OccurrencesPermuted(ordered, vals, val);
    HeavyValueSurvives(a, ordered, cfg, hash, target, val);
    SurvivorFound(a, cfg, hash, |ordered|, target, values, val);
  }

  lemma NoCollisionPermuted(ordered: seq<nat>, vals: seq<nat>, cfg: Config, hash: Hash, j: nat, y: nat)
    requires Permuted(ordered, vals) && NoCollision(vals, cfg, hash, j, y)
    ensures NoCollision(ordered, cfg, hash, j, y)
  {
    forall c | 0 <= c < |ordered| && hash(cfg.layers - 1, j, ordered[c]) == hash(cfg.layers - 1, j, y)
      ensures ordered[c] == y
    {
      assert ordered[c] in multiset(vals);
      var k :| 0 <= k < |vals| && vals[k] == ordered[c];
    }
  }

  /** A reported value that collides with nobody else's in some row of the last layer is heavy. */
  lemma FoundIsHeavy(a: seq<nat>, ordered: seq<nat>, vals: seq<nat>, cfg: Config, hash: Hash, target: real,
                     values: seq<nat>, val: nat, j: nat)
    requires cfg.Valid() && InRange(hash, cfg) && IsSketch(a, ordered, cfg, hash) && Permuted(ordered, vals)
    requires |ordered| < TWO32 && Survivors(a, cfg, hash, |ordered|, target, cfg.layers, values) && val in values
    requires j < cfg.d && NoCollision(vals, cfg, hash, j, val)
    ensures Occurrences(vals, val, |vals|) as real >= target
  {
    hide IsSketch, Survives, Occurrences, InRange, Pow2, Permuted, NoCollision;
    OccurrencesPermuted(ordered, vals, val);
    NoCollisionPermuted(ordered, vals, cfg, hash, j, val);
    ReportedIsHeavy(a, ordered, cfg, hash, target, val, j);
  }

  /**
   `heavy_op` with honest clients, whatever the order in which server 1 lists them: there is an answer,
   the totals are the sketch of the clients' values, the answer contains every value that at least a
   fraction t of the clients hold, and no other value that is free of collisions in some row.
   */
  method HeavyOp(store: CorrelatedStores, keys: seq<Key>, vals: seq<nat>, cfg: Config, hash: Hash, t: real)
    returns (res: Result, b: Batch)
    requires store.Valid() && cfg.Valid() && InRange(hash, cfg) && Distinct(keys) && |keys| == |vals|
    requires |vals| < TWO32 && forall i :: 0 <= i < |vals| ==> vals[i] < Pow2(cfg.numBits)
    modifies store
    ensures store.Valid() && forall i :: 0 <= i < |b.order| ==> b.order[i] in keys
    ensures |b.order| == |keys| && Permuted(InOrder(b.order, keys, vals), vals)
    ensures res.Heavy? ==>
              && |b.counts| == cfg.ShareSize()
              && Survivors(b.counts, cfg, hash, |b.order|, |b.order| as real * t, cfg.layers, res.values)
    ensures store.Sound() && |vals| < store.p ==>
              && res.Heavy? && IsSketch(b.counts, InOrder(b.order, keys, vals), cfg, hash)
              && forall val: nat :: val < Pow2(cfg.numBits) &&
                                    Occurrences(vals, val, |vals|) as real >= |vals| as real * t
                   ==> val in res.values
    ensures store.Sound() && |vals| < store.p ==>
              forall val: nat, j: nat :: res.Heavy? && val in res.values && j < cfg.d &&
                                         NoCollision(vals, cfg, hash, j, val)
                ==> Occurrences(vals, val, |vals|) as real >= |vals| as real * t
  {
    hide NoCollision, RowStart, Pow2, InRange, IsSketch, Survivors, Occurrences, Encoded, Submissions, Served,
         OpenedRight,
         AllClients, Permuted, InOrder, AllSized;
    var rows0, rows1 := EncodeClients(vals, cfg, hash);
    EncodedSized(keys, rows0, rows1, vals, cfg, hash);
    res, b := HeavyServers(store, Submissions(keys, rows0), Submissions(keys, rows1), cfg, hash, t);
    ServedSize(b, Submissions(keys, rows0), Submissions(keys, rows1), HeavyLayout(cfg));
    ClientsInOrder(b, keys, rows0, rows1, vals, cfg, hash);
    ghost var ordered := InOrder(b.order, keys, vals);
    if store.Sound() && |vals| < store.p {
      ValuesInOrder(b.order, keys, vals, Pow2(cfg.numBits));
      HonestBatch(b, ordered, cfg, hash, store.p);
      forall val: nat | val < Pow2(cfg.numBits) && Occurrences(vals, val, |vals|) as real >= |vals| as real * t
        ensures val in res.values
      {
        HeavyFound(b.counts, ordered, vals, cfg, hash, |b.order| as real * t, res.values, val);
      }
      forall val: nat, j: nat | res.Heavy? && val in res.values && j < cfg.d && NoCollision(vals, cfg, hash, j, val)
        ensures Occurrences(vals, val, |vals|) as real >= |vals| as real * t
      {
        FoundIsHeavy(b.counts, ordered, vals, cfg, hash, |b.order| as real * t, res.values, val, j);
      }
    }
  }
}
