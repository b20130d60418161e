/** The layered count-min sketches of client.cpp and what their totals count. */
module Sketches {
  import opened Modular
  import opened RootsOfUnity
  import opened Words
  import opened Rows
  import opened Ot
  import opened BoolOt

  const TWO32: nat := 0x1_0000_0000

  /** Layer, hash number and input to a column. */
  type Hash = (nat, nat, nat) -> nat

  /** `HeavyConfig` with the input width. */
  datatype Config = Config(numBits: nat, layers: nat, w: nat, d: nat) {
    predicate Valid() {
      layers <= numBits && numBits - layers < 64 && w > 0
    }

    /** `first_size` */
    function FirstSize(): nat
      requires Valid()
    {
      Pow2(numBits - layers)
    }

    /** The cells of all sketches, `L * d * w`. */
    function SketchSize(): nat {
      RowStart(RowStart(layers, d), w)
    }

    function ShareSize(): nat
      requires Valid()
    {
      SketchSize() + FirstSize()
    }

    /** `k * d * w + j * w + m` */
    function Cell(k: nat, j: nat, m: nat): nat {
      RowStart(RowStart(k, d) + j, w) + m
    }

    function FreqCell(x: nat): nat {
      SketchSize() + x
    }
  }

  ghost predicate InRange(hash: Hash, cfg: Config) {
    forall k: nat, j: nat, x: nat :: k < cfg.layers && j < cfg.d ==> hash(k, j, x) < cfg.w
  }

  lemma {:induction false} RowStartIsProduct(i: nat, n: nat)
    ensures RowStart(i, n) == i * n
  {
    if i > 0 {
      RowStartIsProduct(i - 1, n);
    }
  }

  lemma CellIsIndex(cfg: Config, k: nat, j: nat, m: nat)
    ensures cfg.Cell(k, j, m) == k * cfg.d * cfg.w + j * cfg.w + m
  {
    RowStartIsProduct(k, cfg.d);
    RowStartIsProduct(k * cfg.d + j, cfg.w);
    Distribute(cfg.w, k * cfg.d, j);
  }

  lemma FreqCellIsIndex(cfg: Config, x: nat)
    ensures cfg.FreqCell(x) == cfg.layers * cfg.d * cfg.w + x
  {
    RowStartIsProduct(cfg.layers, cfg.d);
    RowStartIsProduct(cfg.layers * cfg.d, cfg.w);
  }

  lemma RowBound(k: nat, j: nat, cfg: Config)
    requires k < cfg.layers && j < cfg.d
    ensures RowStart(RowStart(k, cfg.d) + j, cfg.w) + cfg.w <= cfg.SketchSize()
  {
    RowsFit(k, cfg.layers, cfg.d);
    RowsFit(RowStart(k, cfg.d) + j, RowStart(cfg.layers, cfg.d), cfg.w);
  }

  // ---------- one client ----------

  /** In row r exactly cell h differs between the two shares. */
  ghost predicate RowMarked(x0: seq<bool>, x1: seq<bool>, r: nat, w: nat, h: nat) {
    var at := RowStart(r, w);
    at + w <= |x0| == |x1| && forall c :: at <= c < at + w ==> ((x0[c] != x1[c]) <==> c == at + h)
  }

  /** Row j of layer k marks the hash of the value's prefix. */
  ghost predicate CellMarked(x0: seq<bool>, x1: seq<bool>, k: nat, j: nat, val: nat, cfg: Config, hash: Hash)
    requires k < cfg.layers
  {
    RowMarked(x0, x1, RowStart(k, cfg.d) + j, cfg.w, hash(k, j, Shr(val, cfg.layers - 1 - k)))
  }

  ghost predicate LayersMarked(x0: seq<bool>, x1: seq<bool>, val: nat, cfg: Config, hash: Hash, n: nat)
    requires n <= cfg.layers
  {
    forall k, j :: 0 <= k < n && 0 <= j < cfg.d ==> CellMarked(x0, x1, k, j, val, cfg, hash)
  }

  /** The frequency layer marks the shortest prefix. */
  ghost predicate FreqMarked(x0: seq<bool>, x1: seq<bool>, val: nat, cfg: Config)
    requires cfg.Valid()
  {
    && |x0| == |x1| == cfg.ShareSize()
    && forall c :: cfg.SketchSize() <= c < cfg.ShareSize() ==>
         ((x0[c] != x1[c]) <==> c == cfg.FreqCell(Shr(val, cfg.layers)))
  }

  lemma RowMarkedSame(x0: seq<bool>, x1: seq<bool>, y1: seq<bool>, r: nat, w: nat, h: nat)
    requires RowMarked(x0, x1, r, w, h) && SameCells(x1, y1, RowStart(r, w), RowStart(r, w) + w)
    ensures RowMarked(x0, y1, r, w, h)
  {
  }

  /** Marks row j of layer k in both shares' difference. */
  method MarkRow(arr0: seq<bool>, arr1: array<bool>, r: nat, w: nat, h: nat)
    requires |arr0| == arr1.Length && h < w && RowStart(r, w) + w <= arr1.Length
    requires forall c :: RowStart(r, w) <= c < RowStart(r, w) + w ==> arr1[c] == arr0[c]
    modifies arr1
    ensures RowMarked(arr0, arr1[..], r, w, h)
    ensures forall c :: 0 <= c < arr1.Length && !(RowStart(r, w) <= c < RowStart(r, w) + w) ==> arr1[c] == old(arr1[c])
  {
    arr1[RowStart(r, w) + h] := !arr1[RowStart(r, w) + h];
  }

  method MarkLayer(arr0: seq<bool>, arr1: array<bool>, k: nat, val: nat, cfg: Config, hash: Hash)
    requires InRange(hash, cfg) && k < cfg.layers && |arr0| == arr1.Length && cfg.SketchSize() <= |arr0|
    requires forall c :: RowStart(RowStart(k, cfg.d), cfg.w) <= c < arr1.Length ==> arr1[c] == arr0[c]
    modifies arr1
    ensures forall c :: 0 <= c < RowStart(RowStart(k, cfg.d), cfg.w) && c < arr1.Length ==> arr1[c] == old(arr1[c])
    ensures forall c :: RowStart(RowStart(k + 1, cfg.d), cfg.w) <= c < arr1.Length ==> arr1[c] == arr0[c]
    ensures forall j :: 0 <= j < cfg.d ==> CellMarked(arr0, arr1[..], k, j, val, cfg, hash)
  {
    hide RowStart, RowMarked;
    var offsetVal := Shr(val, cfg.layers - 1 - k);
    ghost var first := RowStart(k, cfg.d);
    RowsFit(k, cfg.layers, cfg.d);
    for j := 0 to cfg.d
      invariant forall c :: 0 <= c < RowStart(first, cfg.w) && c < arr1.Length ==> arr1[c] == old(arr1[c])
      invariant forall c :: 0 <= c && RowStart(first + j, cfg.w) <= c < arr1.Length ==> arr1[c] == arr0[c]
      invariant forall m :: 0 <= m < j ==> CellMarked(arr0, arr1[..], k, m, val, cfg, hash)
    {
      var h := hash(k, j, offsetVal);
      var r := RowStart(k, cfg.d) + j;
      RowBound(k, j, cfg);
      RowsFit(r, r + 1, cfg.w);
      ghost var was := arr1[..];
      FirstRow(first, r, cfg.w);
      MarkRow(arr0, arr1, r, cfg.w, h);
      forall m | 0 <= m < j ensures CellMarked(arr0, arr1[..], k, m, val, cfg, hash) {
        assert CellMarked(arr0, was, k, m, val, cfg, hash);
        RowsFit(first + m, r, cfg.w);
        RowMarkedSame(arr0, was, arr1[..], first + m, cfg.w, hash(k, m, offsetVal));
      }
    }
  }

  lemma FirstRow(a: nat, b: nat, w: nat)
    requires a <= b
    ensures RowStart(a, w) <= RowStart(b, w)
  {
    if a < b {
      RowsFit(a, b, w);
    }
  }

  lemma LayersMarkedSame(x0: seq<bool>, x1: seq<bool>, y1: seq<bool>, val: nat, cfg: Config, hash: Hash, n: nat)
    requires n <= cfg.layers && LayersMarked(x0, x1, val, cfg, hash, n)
    requires SameCells(x1, y1, 0, RowStart(RowStart(n, cfg.d), cfg.w))
    ensures LayersMarked(x0, y1, val, cfg, hash, n)
  {
    hide RowMarked, RowStart;
    forall k, j | 0 <= k < n && 0 <= j < cfg.d ensures CellMarked(x0, y1, k, j, val, cfg, hash) {
      assert CellMarked(x0, x1, k, j, val, cfg, hash);
      RowsFit(k, n, cfg.d);
      RowsFit(RowStart(k, cfg.d) + j, RowStart(n, cfg.d), cfg.w);
      RowMarkedSame(x0, x1, y1, RowStart(k, cfg.d) + j, cfg.w, hash(k, j, Shr(val, cfg.layers - 1 - k)));
    }
  }

  /** Marks every layer of the sketch. */
  method MarkLayers(arr0: seq<bool>, arr1: array<bool>, val: nat, cfg: Config, hash: Hash)
    requires InRange(hash, cfg) && |arr0| == arr1.Length && cfg.SketchSize() <= |arr0| && arr1[..] == arr0
    modifies arr1
    ensures LayersMarked(arr0, arr1[..], val, cfg, hash, cfg.layers)
    ensures forall c :: cfg.SketchSize() <= c < arr1.Length ==> arr1[c] == arr0[c]
  {
    hide RowStart, CellMarked;
    for k := 0 to cfg.layers
      invariant LayersMarked(arr0, arr1[..], val, cfg, hash, k)
      invariant forall c :: 0 <= c && RowStart(RowStart(k, cfg.d), cfg.w) <= c < arr1.Length ==> arr1[c] == arr0[c]
    {
      ghost var was := arr1[..];
      RowsFit(k, cfg.layers, cfg.d);
      FirstRow(RowStart(k, cfg.d), RowStart(cfg.layers, cfg.d), cfg.w);
      MarkLayer(arr0, arr1, k, val, cfg, hash);
      LayersMarkedSame(arr0, was, arr1[..], val, cfg, hash, k);
    }
  }

  lemma {:induction false} ShrBound(n: nat, k: nat, bits: nat)
    requires k <= bits && n < Pow2(bits)
    ensures Shr(n, k) < Pow2(bits - k)
  {
    if k > 0 {
      ShrBound(n, k - 1, bits);
    }
  }

  method CopyRandom(n: nat) returns (arr0: seq<bool>, arr1: array<bool>)
    ensures |arr0| == n && arr1[..] == arr0 && fresh(arr1)
  {
    arr0 := RandomBools(n);
    arr1 := new bool[n];
    for i := 0 to n
      invariant forall k :: 0 <= k < i ==> arr1[k] == arr0[k]
    {
      arr1[i] := arr0[i];
    }
  }

  /** One iteration of `heavy_helper`: every prefix of the value, in both shares' difference. */
  method EncodeValue(val: nat, cfg: Config, hash: Hash) returns (arr0: seq<bool>, arr1: array<bool>)
    requires cfg.Valid() && InRange(hash, cfg) && val < Pow2(cfg.numBits)
    ensures |arr0| == arr1.Length == cfg.ShareSize()
    ensures LayersMarked(arr0, arr1[..], val, cfg, hash, cfg.layers)
    ensures FreqMarked(arr0, arr1[..], val, cfg)
  {
    hide RowStart, CellMarked, Pow2;
    arr0, arr1 := CopyRandom(cfg.ShareSize());
    assert arr1.Length == |arr1[..]|;
    MarkLayers(arr0, arr1, val, cfg, hash);
    ghost var was := arr1[..];
    ShrBound(val, cfg.layers, cfg.numBits);
    arr1[cfg.FreqCell(Shr(val, cfg.layers))] := !arr1[cfg.FreqCell(Shr(val, cfg.layers))];
    LayersMarkedSame(arr0, was, arr1[..], val, cfg, hash, cfg.layers);
  }

  /** One iteration of `countmin_helper`: a sketch without a frequency layer. */
  method EncodeSketch(val: nat, cfg: Config, hash: Hash) returns (arr0: seq<bool>, arr1: array<bool>)
    requires InRange(hash, cfg)
    ensures |arr0| == arr1.Length == cfg.SketchSize()
    ensures LayersMarked(arr0, arr1[..], val, cfg, hash, cfg.layers)
  {
    hide RowStart, CellMarked;
    arr0, arr1 := CopyRandom(cfg.SketchSize());
    assert arr1.Length == |arr1[..]|;
    MarkLayers(arr0, arr1, val, cfg, hash);
  }

  // ---------- counts ----------

  /** How many of the first n values have prefix y after dropping s bits. */
  ghost function PrefixCount(vals: seq<nat>, s: nat, y: nat, n: nat): nat
    requires n <= |vals|
  {
    if n == 0 then 0 else PrefixCount(vals, s, y, n - 1) + if Shr(vals[n-1], s) == y then 1 else 0
  }

  /** How many of the first n values fall into column m under hash j of layer k. */
  ghost function ColumnCount(vals: seq<nat>, k: nat, j: nat, m: nat, cfg: Config, hash: Hash, n: nat): nat
    requires n <= |vals| && k < cfg.layers
  {
    if n == 0 then 0 else
      ColumnCount(vals, k, j, m, cfg, hash, n - 1)
      + if hash(k, j, Shr(vals[n-1], cfg.layers - 1 - k)) == m then 1 else 0
  }

  /** A column never underestimates. */
  lemma {:induction false} ColumnCovers(vals: seq<nat>, k: nat, j: nat, y: nat, cfg: Config, hash: Hash, n: nat)
    requires n <= |vals| && k < cfg.layers
    ensures PrefixCount(vals, cfg.layers - 1 - k, y, n) <= ColumnCount(vals, k, j, hash(k, j, y), cfg, hash, n)
  {
    if n > 0 {
      ColumnCovers(vals, k, j, y, cfg, hash, n - 1);
    }
  }

  /** A shorter prefix is at least as frequent. */
  lemma {:induction false} ParentCovers(vals: seq<nat>, s: nat, y: nat, n: nat)
    requires n <= |vals|
    ensures PrefixCount(vals, s, y, n) <= PrefixCount(vals, s + 1, y / 2, n)
  {
    if n > 0 {
      ParentCovers(vals, s, y, n - 1);
    }
  }

  lemma {:induction false} CountAtMost(vals: seq<nat>, s: nat, y: nat, n: nat)
    requires n <= |vals|
    ensures PrefixCount(vals, s, y, n) <= n
  {
    if n > 0 {
      CountAtMost(vals, s, y, n - 1);
    }
  }

  lemma {:induction false} ColumnAtMost(vals: seq<nat>, k: nat, j: nat, m: nat, cfg: Config, hash: Hash, n: nat)
    requires n <= |vals| && k < cfg.layers
    ensures ColumnCount(vals, k, j, m, cfg, hash, n) <= n
  {
    if n > 0 {
      ColumnAtMost(vals, k, j, m, cfg, hash, n - 1);
    }
  }

  /** The totals that the servers open when everyone follows the protocol. */
  ghost predicate IsSketch(a: seq<int>, vals: seq<nat>, cfg: Config, hash: Hash)
    requires cfg.Valid()
  {
    && |a| == cfg.ShareSize()
    && (forall k, j, m :: 0 <= k < cfg.layers && 0 <= j < cfg.d && 0 <= m < cfg.w ==>
          EntryCounts(a, k, j, m, vals, cfg, hash))
    && (forall x :: 0 <= x < cfg.FirstSize() ==> FreqCounts(a, x, vals, cfg))
  }

  ghost predicate EntryCounts(a: seq<int>, k: nat, j: nat, m: nat, vals: seq<nat>, cfg: Config, hash: Hash)
    requires k < cfg.layers
  {
    cfg.Cell(k, j, m) < |a| && a[cfg.Cell(k, j, m)] == ColumnCount(vals, k, j, m, cfg, hash, |vals|)
  }

  ghost predicate FreqCounts(a: seq<int>, x: nat, vals: seq<nat>, cfg: Config) {
    cfg.FreqCell(x) < |a| && a[cfg.FreqCell(x)] == PrefixCount(vals, cfg.layers, x, |vals|)
  }
}
