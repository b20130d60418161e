/** The prefix-tree search of `heavy_op` and the query loop of `countMin_op`. */
module Heavy {
  import opened RootsOfUnity
  import opened Rows
  import opened Words
  import opened Sketches

  /** `unsigned int est = fmpz_get_ui(...)` */
  function Narrow(x: nat): (r: nat)
    ensures r < TWO32 && (x - r) % TWO32 == 0
    ensures x < TWO32 ==> r == x
  {
    x % TWO32
  }

  /** What hash j of layer i says about y: the total in its cell, as an `unsigned int`. */
  ghost predicate IsEstimate(est: nat, a: seq<nat>, cfg: Config, hash: Hash, i: nat, j: nat, y: nat) {
    && i * cfg.d * cfg.w + j * cfg.w + hash(i, j, y) < |a|
    && est == a[i * cfg.d * cfg.w + j * cfg.w + hash(i, j, y)] % 0x1_0000_0000
  }

  /** m is the smallest of n and the first `hashes` estimates for y in layer i. */
  ghost predicate IsSmallest(m: nat, a: seq<nat>, cfg: Config, hash: Hash, n: nat, i: nat, y: nat, hashes: nat) {
    && m <= n && (forall j: nat, est: nat :: j < hashes && IsEstimate(est, a, cfg, hash, i, j, y) ==> m <= est)
    && (m == n || exists j: nat :: j < hashes && IsEstimate(m, a, cfg, hash, i, j, y))
  }

  /** n and every estimate of y in layer i reach the threshold. */
  ghost predicate Passes(a: seq<nat>, cfg: Config, hash: Hash, n: nat, target: real, i: nat, y: nat) {
    && n as real >= target
    && forall j: nat, est: nat :: j < cfg.d && IsEstimate(est, a, cfg, hash, i, j, y) ==> est as real >= target
  }

  lemma SmallestPasses(m: nat, a: seq<nat>, cfg: Config, hash: Hash, n: nat, target: real, i: nat, y: nat)
    requires IsSmallest(m, a, cfg, hash, n, i, y, cfg.d)
    ensures m as real >= target <==> Passes(a, cfg, hash, n, target, i, y)
  {
    hide IsEstimate;
  }

  /** The total for y as one of the shortest prefixes reaches the threshold. */
  ghost predicate FirstPasses(a: seq<nat>, cfg: Config, target: real, y: nat)
    requires cfg.Valid()
  {
    && y < cfg.FirstSize() && cfg.layers * cfg.d * cfg.w + y < |a|
    && a[cfg.layers * cfg.d * cfg.w + y] as real >= target
  }

  /** The prefix that the y of layer i - 1 has in layer k passes that layer. */
  ghost predicate PrefixPasses(a: seq<nat>, cfg: Config, hash: Hash, n: nat, target: real, i: nat, y: nat, k: nat)
    requires k < i
  {
    Passes(a, cfg, hash, n, target, k, Shr(y, i - 1 - k))
  }

  /** Every prefix of y, up to y itself after i layers, passes its layer. */
  ghost predicate Survives(a: seq<nat>, cfg: Config, hash: Hash, n: nat, target: real, i: nat, y: nat)
    requires cfg.Valid()
  {
    && FirstPasses(a, cfg, target, Shr(y, i))
    && forall k :: 0 <= k < i ==> PrefixPasses(a, cfg, hash, n, target, i, y, k)
  }

  lemma {:induction false} ShrOfHalf(y: nat, k: nat)
    ensures Shr(y / 2, k) == Shr(y, k + 1)
  {
    if k > 0 {
      ShrOfHalf(y, k - 1);
    } else {
      assert Shr(y, 0) == y && Shr(y / 2, 0) == y / 2;
    }
  }

  /** One layer more: the parent survives and the child passes. */
  lemma SurvivesStep(a: seq<nat>, cfg: Config, hash: Hash, n: nat, target: real, i: nat, y: nat)
    requires cfg.Valid()
    ensures Survives(a, cfg, hash, n, target, i + 1, y)
       <==> Survives(a, cfg, hash, n, target, i, y / 2) && Passes(a, cfg, hash, n, target, i, y)
  {
    hide Passes, FirstPasses, Shr;
    ShrOfHalf(y, i);
    ShrNone(y);
    forall k | 0 <= k < i
      ensures PrefixPasses(a, cfg, hash, n, target, i + 1, y, k) <==> PrefixPasses(a, cfg, hash, n, target, i, y / 2, k)
    {
      ShrOfHalf(y, i - 1 - k);
    }
    assert PrefixPasses(a, cfg, hash, n, target, i + 1, y, i) <==> Passes(a, cfg, hash, n, target, i, y);
    if Survives(a, cfg, hash, n, target, i, y / 2) && Passes(a, cfg, hash, n, target, i, y) {
      var next := i + 1;
      forall k | 0 <= k < next ensures PrefixPasses(a, cfg, hash, n, target, next, y, k) {
        assert k < i ==> PrefixPasses(a, cfg, hash, n, target, i, y / 2, k);
      }
    }
    if Survives(a, cfg, hash, n, target, i + 1, y) {
      forall k | 0 <= k < i ensures PrefixPasses(a, cfg, hash, n, target, i, y / 2, k) {
        assert PrefixPasses(a, cfg, hash, n, target, i + 1, y, k);
      }
    }
  }

  lemma ShrNone(y: nat)
    ensures Shr(y, 0) == y
  {
  }

  ghost predicate Increasing(s: seq<nat>) {
    forall i, j :: 0 <= i < j < |s| ==> s[i] < s[j]
  }

  ghost predicate IncreasingBelow(s: seq<nat>, bound: nat) {
    Increasing(s) && forall y :: y in s ==> y < bound
  }

  lemma EmptyIncreasing()
    ensures Increasing([]) && IncreasingBelow([], 0)
  {
  }

  lemma IncreasingAppend(s: seq<nat>, x: nat)
    requires Increasing(s) && forall y :: y in s ==> y < x
    ensures Increasing(s + [x])
  {
    forall i, j | 0 <= i < j < |s + [x]| ensures (s + [x])[i] < (s + [x])[j] {
      if j == |s| {
        assert s[i] in s;
      }
    }
  }

  lemma IncreasingAt(s: seq<nat>, i: nat)
    requires Increasing(s) && i < |s|
    ensures i > 0 ==> s[i-1] < s[i]
  {
  }

  lemma EstimateAt(a: seq<nat>, cfg: Config, hash: Hash, i: nat, j: nat, y: nat)
    requires InRange(hash, cfg) && i < cfg.layers && j < cfg.d && cfg.SketchSize() <= |a|
    ensures cfg.Cell(i, j, hash(i, j, y)) < |a|
    ensures IsEstimate(Narrow(a[cfg.Cell(i, j, hash(i, j, y))]), a, cfg, hash, i, j, y)
  {
    hide RowStart;
    RowBound(i, j, cfg);
    CellIsIndex(cfg, i, j, hash(i, j, y));
  }

  lemma SmallestNext(m: nat, est: nat, a: seq<nat>, cfg: Config, hash: Hash, n: nat, i: nat, y: nat, j: nat)
    requires IsSmallest(m, a, cfg, hash, n, i, y, j) && IsEstimate(est, a, cfg, hash, i, j, y)
    ensures IsSmallest(if est < m then est else m, a, cfg, hash, n, i, y, j + 1)
  {
    var next := if est < m then est else m;
    forall k: nat, e: nat | k < j + 1 && IsEstimate(e, a, cfg, hash, i, k, y) ensures next <= e {
      assert k == j ==> e == est;
    }
  }

  method EstimateChildren(a: seq<nat>, cfg: Config, hash: Hash, n: nat, i: nat, x: nat) returns (min0: nat, min1: nat)
    requires InRange(hash, cfg) && i < cfg.layers && cfg.SketchSize() <= |a|
    ensures IsSmallest(min0, a, cfg, hash, n, i, 2 * x, cfg.d)
    ensures IsSmallest(min1, a, cfg, hash, n, i, 2 * x + 1, cfg.d)
  {
    hide RowStart, IsEstimate, Narrow, Config.Cell;
    min0, min1 := n, n;
    for j := 0 to cfg.d
      invariant IsSmallest(min0, a, cfg, hash, n, i, 2 * x, j)
      invariant IsSmallest(min1, a, cfg, hash, n, i, 2 * x + 1, j)
    {
      EstimateAt(a, cfg, hash, i, j, 2 * x);
      EstimateAt(a, cfg, hash, i, j, 2 * x + 1);
      var est := Narrow(a[cfg.Cell(i, j, hash(i, j, 2 * x))]);
      SmallestNext(min0, est, a, cfg, hash, n, i, 2 * x, j);
      min0 := if est < min0 then est else min0;
      est := Narrow(a[cfg.Cell(i, j, hash(i, j, 2 * x + 1))]);
      SmallestNext(min1, est, a, cfg, hash, n, i, 2 * x + 1, j);
      min1 := if est < min1 then est else min1;
    }
  }

  lemma FreqCellAt(a: seq<nat>, cfg: Config, target: real, y: nat)
    requires cfg.Valid() && |a| == cfg.ShareSize() && y < cfg.FirstSize()
    ensures FirstPasses(a, cfg, target, y) <==> a[cfg.FreqCell(y)] as real >= target
  {
    FreqCellIsIndex(cfg, y);
  }

  method FirstLayer(a: seq<nat>, cfg: Config, target: real) returns (values: seq<nat>)
    requires cfg.Valid() && |a| == cfg.ShareSize()
    ensures Increasing(values)
    ensures forall y: nat :: y in values <==> FirstPasses(a, cfg, target, y)
  {
    hide Pow2, RowStart, Increasing;
    EmptyIncreasing();
    values := [];
    for x := 0 to cfg.FirstSize()
      invariant Increasing(values) && forall y :: y in values ==> y < x
      invariant forall y: nat :: y in values <==> y < x && FirstPasses(a, cfg, target, y)
    {
      FreqCellAt(a, cfg, target, x);
      if a[cfg.FreqCell(x)] as real >= target {
        IncreasingAppend(values, x);
        values := values + [x];
      }
    }
  }

  /** `next` holds the children of `parents` that pass layer i. */
  ghost predicate Children(a: seq<nat>, cfg: Config, hash: Hash, n: nat, target: real, i: nat, parents: seq<nat>,
                           next: seq<nat>)
  {
    forall y: nat :: y in next <==> y / 2 in parents && Passes(a, cfg, hash, n, target, i, y)
  }

  lemma ChildrenAdded(a: seq<nat>, cfg: Config, hash: Hash, n: nat, target: real, i: nat, parents: seq<nat>, x: nat,
                      min0: nat, min1: nat, was: seq<nat>, next: seq<nat>)
    requires Children(a, cfg, hash, n, target, i, parents, was)
    requires IsSmallest(min0, a, cfg, hash, n, i, 2 * x, cfg.d)
    requires IsSmallest(min1, a, cfg, hash, n, i, 2 * x + 1, cfg.d)
    requires next == was + (if min0 as real >= target then [2 * x] else [])
                         + (if min1 as real >= target then [2 * x + 1] else [])
    ensures Children(a, cfg, hash, n, target, i, parents + [x], next)
  {
    hide Passes, IsSmallest;
    SmallestPasses(min0, a, cfg, hash, n, target, i, 2 * x);
    SmallestPasses(min1, a, cfg, hash, n, target, i, 2 * x + 1);
    forall y: nat
      ensures y in next <==> y / 2 in parents + [x] && Passes(a, cfg, hash, n, target, i, y)
    {
      assert y / 2 == x <==> y == 2 * x || y == 2 * x + 1;
    }
  }

  lemma NoChildren(a: seq<nat>, cfg: Config, hash: Hash, n: nat, target: real, i: nat)
    ensures Children(a, cfg, hash, n, target, i, [], [])
  {
  }

  method PushChildren(next: seq<nat>, x: nat, min0: nat, min1: nat, target: real) returns (more: seq<nat>)
    requires IncreasingBelow(next, 2 * x)
    ensures IncreasingBelow(more, 2 * x + 2)
    ensures more == next + (if min0 as real >= target then [2 * x] else [])
                         + (if min1 as real >= target then [2 * x + 1] else [])
  {
    more := next;
    if min0 as real >= target {
      IncreasingAppend(more, 2 * x);
      more := more + [2 * x];
    }
    if min1 as real >= target {
      IncreasingAppend(more, 2 * x + 1);
      more := more + [2 * x + 1];
    }
  }

  lemma BoundRises(s: seq<nat>, b: nat, c: nat)
    requires IncreasingBelow(s, b) && b <= c
    ensures IncreasingBelow(s, c)
  {
  }

  method NextLayer(a: seq<nat>, cfg: Config, hash: Hash, n: nat, target: real, i: nat, values: seq<nat>)
    returns (next: seq<nat>)
    requires InRange(hash, cfg) && i < cfg.layers && cfg.SketchSize() <= |a| && Increasing(values)
    ensures Increasing(next) && Children(a, cfg, hash, n, target, i, values, next)
  {
    hide RowStart, IsSmallest, Increasing, Children, IncreasingBelow, InRange;
    next := [];
    ghost var bound := 0;
    NoChildren(a, cfg, hash, n, target, i);
    EmptyIncreasing();
    for idx := 0 to |values|
      invariant IncreasingBelow(next, bound) && bound == if idx == 0 then 0 else 2 * values[idx-1] + 2
      invariant Children(a, cfg, hash, n, target, i, values[..idx], next)
    {
      var x := values[idx];
      IncreasingAt(values, idx);
      BoundRises(next, bound, 2 * x);
      var min0, min1 := EstimateChildren(a, cfg, hash, n, i, x);
      var more := PushChildren(next, x, min0, min1, target);
      ChildrenAdded(a, cfg, hash, n, target, i, values[..idx], x, min0, min1, next, more);
      next := more;
      TakeOneMore(values, idx);
      bound := 2 * x + 2;
    }
    assert values[..|values|] == values;
    BelowIncreasing(next, bound);
  }

  lemma TakeOneMore<T>(s: seq<T>, i: nat)
    requires i < |s|
    ensures s[..i+1] == s[..i] + [s[i]]
  {
  }

  lemma BelowIncreasing(s: seq<nat>, b: nat)
    requires IncreasingBelow(s, b)
    ensures Increasing(s)
  {
  }

  /** Exactly the candidates after i layers, in increasing order. */
  ghost predicate Survivors(a: seq<nat>, cfg: Config, hash: Hash, n: nat, target: real, i: nat, values: seq<nat>)
    requires cfg.Valid()
  {
    && Increasing(values)
    && forall y: nat :: y in values <==> Survives(a, cfg, hash, n, target, i, y)
  }

  /** The search: exactly the values whose every prefix passes its layer, in increasing order. */
  method Search(a: seq<nat>, cfg: Config, hash: Hash, n: nat, target: real) returns (values: seq<nat>)
    requires cfg.Valid() && InRange(hash, cfg) && |a| == cfg.ShareSize()
    ensures Survivors(a, cfg, hash, n, target, cfg.layers, values)
  {
    hide RowStart, Pow2, Survivors, Children, FirstPasses, Increasing, InRange;
    values := FirstLayer(a, cfg, target);
    FirstSurvivors(a, cfg, hash, n, target, values);
    for i := 0 to cfg.layers
      invariant Increasing(values) && Survivors(a, cfg, hash, n, target, i, values)
    {
      var next := NextLayer(a, cfg, hash, n, target, i, values);
      NextSurvivors(a, cfg, hash, n, target, i, values, next);
      values := next;
    }
  }

  lemma FirstSurvivors(a: seq<nat>, cfg: Config, hash: Hash, n: nat, target: real, values: seq<nat>)
    requires cfg.Valid() && Increasing(values) && forall y: nat :: y in values <==> FirstPasses(a, cfg, target, y)
    ensures Survivors(a, cfg, hash, n, target, 0, values)
  {
    hide FirstPasses, Increasing;
    forall y: nat ensures y in values <==> Survives(a, cfg, hash, n, target, 0, y) {
      ShrNone(y);
    }
  }

  lemma NextSurvivors(a: seq<nat>, cfg: Config, hash: Hash, n: nat, target: real, i: nat, values: seq<nat>,
                      next: seq<nat>)
    requires cfg.Valid() && Survivors(a, cfg, hash, n, target, i, values) && Increasing(next)
    requires Children(a, cfg, hash, n, target, i, values, next)
    ensures Survivors(a, cfg, hash, n, target, i + 1, next)
  {
    hide Passes, Survives, Increasing;
    forall y: nat ensures y in next <==> Survives(a, cfg, hash, n, target, i + 1, y) {
      SurvivesStep(a, cfg, hash, n, target, i, y);
    }
  }

  // ---------- nothing heavy is missed ----------

  lemma TotalAt(a: seq<nat>, vals: seq<nat>, cfg: Config, hash: Hash, i: nat, j: nat, y: nat)
    requires cfg.Valid() && InRange(hash, cfg) && IsSketch(a, vals, cfg, hash) && |vals| < TWO32
    requires i < cfg.layers && j < cfg.d
    ensures IsEstimate(ColumnCount(vals, i, j, hash(i, j, y), cfg, hash, |vals|), a, cfg, hash, i, j, y)
  {
    hide ColumnCount, RowStart, Pow2;
    EstimateAt(a, cfg, hash, i, j, y);
    assert EntryCounts(a, i, j, hash(i, j, y), vals, cfg, hash);
    ColumnAtMost(vals, i, j, hash(i, j, y), cfg, hash, |vals|);
  }

  /** No estimate is below the number of values that have the prefix. */
  lemma EstimateCovers(a: seq<nat>, vals: seq<nat>, cfg: Config, hash: Hash, i: nat, j: nat, y: nat, est: nat)
    requires cfg.Valid() && InRange(hash, cfg) && IsSketch(a, vals, cfg, hash) && |vals| < TWO32
    requires i < cfg.layers && j < cfg.d && IsEstimate(est, a, cfg, hash, i, j, y)
    ensures est >= PrefixCount(vals, cfg.layers - 1 - i, y, |vals|)
  {
    hide PrefixCount, ColumnCount, IsSketch, InRange;
    TotalAt(a, vals, cfg, hash, i, j, y);
    ColumnCovers(vals, i, j, y, cfg, hash, |vals|);
  }

  /** A prefix whose true count reaches the threshold passes its layer. */
  lemma HeavyPrefixPasses(a: seq<nat>, vals: seq<nat>, cfg: Config, hash: Hash, target: real, i: nat, y: nat)
    requires cfg.Valid() && InRange(hash, cfg) && IsSketch(a, vals, cfg, hash) && |vals| < TWO32 && i < cfg.layers
    requires PrefixCount(vals, cfg.layers - 1 - i, y, |vals|) as real >= target
    ensures Passes(a, cfg, hash, |vals|, target, i, y)
  {
    hide PrefixCount, IsSketch, InRange, IsEstimate;
    CountAtMost(vals, cfg.layers - 1 - i, y, |vals|);
    forall j: nat, est: nat | j < cfg.d && IsEstimate(est, a, cfg, hash, i, j, y) ensures est as real >= target {
      EstimateCovers(a, vals, cfg, hash, i, j, y, est);
    }
  }

  /** After every layer, each prefix whose true count reaches the threshold is still a candidate. */
  lemma {:induction false} HeavyPrefixSurvives(a: seq<nat>, vals: seq<nat>, cfg: Config, hash: Hash, target: real,
                                               i: nat, y: nat)
    requires cfg.Valid() && InRange(hash, cfg) && IsSketch(a, vals, cfg, hash) && |vals| < TWO32
    requires i <= cfg.layers && y < Pow2(cfg.numBits - cfg.layers + i)
    requires PrefixCount(vals, cfg.layers - i, y, |vals|) as real >= target
    ensures Survives(a, cfg, hash, |vals|, target, i, y)
  {
    hide PrefixCount, Passes, FirstPasses, Survives, RowStart, InRange;
    if i == 0 {
      assert FreqCounts(a, y, vals, cfg);
      FreqCellAt(a, cfg, target, y);
      NoneLeft(a, cfg, hash, |vals|, target, y);
    } else {
      ParentCovers(vals, cfg.layers - i, y, |vals|);
      HeavyPrefixSurvives(a, vals, cfg, hash, target, i - 1, y / 2);
      HeavyPrefixPasses(a, vals, cfg, hash, target, i - 1, y);
      SurvivesStep(a, cfg, hash, |vals|, target, i - 1, y);
    }
  }

  lemma NoneLeft(a: seq<nat>, cfg: Config, hash: Hash, n: nat, target: real, y: nat)
    requires cfg.Valid()
    ensures Survives(a, cfg, hash, n, target, 0, y) <==> FirstPasses(a, cfg, target, y)
  {
    ShrNone(y);
  }

  /** Every value sent by at least a fraction t of the clients is found. */
  lemma HeavyValueSurvives(a: seq<nat>, vals: seq<nat>, cfg: Config, hash: Hash, target: real, val: nat)
    requires cfg.Valid() && InRange(hash, cfg) && IsSketch(a, vals, cfg, hash) && |vals| < TWO32
    requires val < Pow2(cfg.numBits) && Occurrences(vals, val, |vals|) as real >= target
    ensures Survives(a, cfg, hash, |vals|, target, cfg.layers, val)
  {
    OccurrencesAreCounts(vals, val, |vals|);
    HeavyPrefixSurvives(a, vals, cfg, hash, target, cfg.layers, val);
  }

  /** How often a value was sent. */
  ghost function Occurrences(vals: seq<nat>, val: nat, n: nat): nat
    requires n <= |vals|
  {
    if n == 0 then 0 else Occurrences(vals, val, n - 1) + if vals[n-1] == val then 1 else 0
  }

  lemma {:induction false} OccurrencesAreCounts(vals: seq<nat>, val: nat, n: nat)
    requires n <= |vals|
    ensures Occurrences(vals, val, n) == PrefixCount(vals, 0, val, n)
  {
    if n > 0 {
      OccurrencesAreCounts(vals, val, n - 1);
    }
  }

  // ---------- what is reported ----------

  /** No other value of the clients shares y's column of hash j in the last layer. */
  ghost predicate NoCollision(vals: seq<nat>, cfg: Config, hash: Hash, j: nat, y: nat) {
    cfg.layers > 0 && forall c :: 0 <= c < |vals| ==> (hash(cfg.layers - 1, j, vals[c]) == hash(cfg.layers - 1, j, y)
                                                       ==> vals[c] == y)
  }

  lemma {:induction false} ColumnWithoutCollision(vals: seq<nat>, cfg: Config, hash: Hash, j: nat, y: nat, n: nat)
    requires NoCollision(vals, cfg, hash, j, y) && n <= |vals|
    ensures ColumnCount(vals, cfg.layers - 1, j, hash(cfg.layers - 1, j, y), cfg, hash, n) == Occurrences(vals, y, n)
  {
    if n > 0 {
      ColumnWithoutCollision(vals, cfg, hash, j, y, n - 1);
      ShrNone(vals[n-1]);
    }
  }

  /** Every cell behind a reported value counts enough clients. */
  lemma ReportedIsCounted(a: seq<nat>, vals: seq<nat>, cfg: Config, hash: Hash, target: real, y: nat, i: nat, j: nat)
    requires cfg.Valid() && InRange(hash, cfg) && IsSketch(a, vals, cfg, hash) && |vals| < TWO32
    requires Survives(a, cfg, hash, |vals|, target, cfg.layers, y) && i < cfg.layers && j < cfg.d
    ensures var prefix := Shr(y, cfg.layers - 1 - i);
            ColumnCount(vals, i, j, hash(i, j, prefix), cfg, hash, |vals|) as real >= target
  {
    hide IsSketch, InRange, IsEstimate, FirstPasses, ColumnCount, Shr;
    assert PrefixPasses(a, cfg, hash, |vals|, target, cfg.layers, y, i);
    TotalAt(a, vals, cfg, hash, i, j, Shr(y, cfg.layers - 1 - i));
  }

  /** Without a collision only values that occur often enough are reported. */
  lemma ReportedIsHeavy(a: seq<nat>, vals: seq<nat>, cfg: Config, hash: Hash, target: real, y: nat, j: nat)
    requires cfg.Valid() && InRange(hash, cfg) && IsSketch(a, vals, cfg, hash) && |vals| < TWO32
    requires Survives(a, cfg, hash, |vals|, target, cfg.layers, y) && j < cfg.d
    requires NoCollision(vals, cfg, hash, j, y)
    ensures Occurrences(vals, y, |vals|) as real >= target
  {
    hide IsSketch, InRange, Survives;
    ReportedIsCounted(a, vals, cfg, hash, target, y, cfg.layers - 1, j);
    ShrNone(y);
    ColumnWithoutCollision(vals, cfg, hash, j, y, |vals|);
  }

  // ---------- the count-min query ----------

  /** `int est = fmpz_get_ui(...)` */
  function Int32(x: nat): (r: int)
    ensures -0x8000_0000 <= r < 0x8000_0000 && (x - r) % 0x1_0000_0000 == 0
    ensures x < 0x8000_0000 ==> r == x
  {
    var r := x % TWO32;
    if r < TWO32 / 2 then r else r - TWO32
  }

  ghost predicate HashesBelow(hash: (nat, nat) -> nat, d: nat, w: nat) {
    forall j: nat, x: nat :: j < d ==> hash(j, x) < w
  }

  /** What hash j says about x: the total in its cell, as an `int`. */
  ghost predicate IsCell(est: int, a: seq<nat>, w: nat, hash: (nat, nat) -> nat, j: nat, x: nat) {
    && j * w + hash(j, x) < |a| && -0x8000_0000 <= est < 0x8000_0000
    && (a[j * w + hash(j, x)] - est) % 0x1_0000_0000 == 0
  }

  /** n and the first `hashes` cells of x reach m, and one of them is m. */
  ghost predicate IsQuery(m: int, a: seq<nat>, w: nat, hash: (nat, nat) -> nat, n: int, x: nat, hashes: nat) {
    && m <= n && (forall j: nat, est: int :: j < hashes && IsCell(est, a, w, hash, j, x) ==> m <= est)
    && (m == n || exists j: nat :: j < hashes && IsCell(m, a, w, hash, j, x))
  }

  /** x is reported: n and every one of its d cells reach the threshold. */
  ghost predicate Reported(a: seq<nat>, d: nat, w: nat, hash: (nat, nat) -> nat, n: int, target: real, x: nat) {
    && n as real >= target
    && forall j: nat, est: int :: j < d && IsCell(est, a, w, hash, j, x) ==> est as real >= target
  }

  lemma CellAt(a: seq<nat>, d: nat, w: nat, hash: (nat, nat) -> nat, j: nat, x: nat)
    requires RowStart(d, w) <= |a| && HashesBelow(hash, d, w) && j < d
    ensures RowStart(j, w) + hash(j, x) < |a|
    ensures IsCell(Int32(a[RowStart(j, w) + hash(j, x)]), a, w, hash, j, x)
  {
    RowsFit(j, d, w);
    RowStartIsProduct(j, w);
  }

  lemma CellUnique(e: int, f: int, a: seq<nat>, w: nat, hash: (nat, nat) -> nat, j: nat, x: nat)
    requires IsCell(e, a, w, hash, j, x) && IsCell(f, a, w, hash, j, x)
    ensures e == f
  {
  }

  lemma QueryNext(m: int, est: int, a: seq<nat>, w: nat, hash: (nat, nat) -> nat, n: int, x: nat, j: nat)
    requires IsQuery(m, a, w, hash, n, x, j) && IsCell(est, a, w, hash, j, x)
    ensures IsQuery(if est < m then est else m, a, w, hash, n, x, j + 1)
  {
    hide IsCell;
    var next := if est < m then est else m;
    forall k: nat, e: int | k < j + 1 && IsCell(e, a, w, hash, k, x) ensures next <= e {
      if k == j {
        CellUnique(e, est, a, w, hash, j, x);
      }
    }
  }

  /** The loop over the hashes. */
  method Query(a: seq<nat>, d: nat, w: nat, hash: (nat, nat) -> nat, n: int, x: nat) returns (acc: int)
    requires RowStart(d, w) <= |a| && HashesBelow(hash, d, w)
    ensures IsQuery(acc, a, w, hash, n, x, d)
  {
    hide RowStart, IsCell, HashesBelow;
    acc := n;
    for j := 0 to d
      invariant IsQuery(acc, a, w, hash, n, x, j)
    {
      CellAt(a, d, w, hash, j, x);
      var est := Int32(a[RowStart(j, w) + hash(j, x)]);
      QueryNext(acc, est, a, w, hash, n, x, j);
      acc := if est < acc then est else acc;
    }
  }

  lemma QueryReports(m: int, a: seq<nat>, d: nat, w: nat, hash: (nat, nat) -> nat, n: int, target: real, x: nat)
    requires IsQuery(m, a, w, hash, n, x, d)
    ensures m as real >= target <==> Reported(a, d, w, hash, n, target, x)
  {
    hide IsCell;
  }

  /** The values among the first 256 that are reported heavy. */
  method QueryCountMin(a: seq<nat>, d: nat, w: nat, hash: (nat, nat) -> nat, n: nat, numBits: nat, target: real)
    returns (heavy: seq<nat>)
    requires RowStart(d, w) <= |a| && n < TWO32 / 2 && HashesBelow(hash, d, w)
    ensures Increasing(heavy)
    ensures forall x: nat :: x in heavy <==> x < Pow2(numBits) && x < 256 && Reported(a, d, w, hash, n, target, x)
  {
    hide RowStart, Pow2, Increasing, Reported, IsQuery, HashesBelow;
    EmptyIncreasing();
    heavy := [];
    var x := 0;
    while x < Pow2(numBits) && x < 256
      invariant 0 <= x <= Pow2(numBits) && x <= 256
      invariant Increasing(heavy) && forall y :: y in heavy ==> y < x
      invariant forall y: nat :: y in heavy <==> y < x && Reported(a, d, w, hash, n, target, y)
      decreases 256 - x
    {
      var acc := Query(a, d, w, hash, n, x);
      QueryReports(acc, a, d, w, hash, n, target, x);
      if acc as real >= target {
        IncreasingAppend(heavy, x);
        heavy := heavy + [x];
      }
      x := x + 1;
    }
  }

  /** Totals of an honest count-min run: one layer, hashing the whole value. */
  ghost predicate IsCountMin(a: seq<int>, vals: seq<nat>, d: nat, w: nat, hash: (nat, nat) -> nat) {
    RowStart(d, w) <= |a|
    && forall j, m :: 0 <= j < d && 0 <= m < w ==> CountMinEntry(a, j, m, vals, d, w, hash)
  }

  ghost predicate CountMinEntry(a: seq<int>, j: nat, m: nat, vals: seq<nat>, d: nat, w: nat, hash: (nat, nat) -> nat) {
    RowStart(j, w) + m < |a|
    && a[RowStart(j, w) + m] == ColumnCount(vals, 0, j, m, OneLayer(d, w), Layered(hash), |vals|)
  }

  function Layered(hash: (nat, nat) -> nat): Hash {
    (k, j, x) => hash(j, x)
  }

  /** The sketch of count-min is a single layer over whole values. */
  function OneLayer(d: nat, w: nat): Config {
    Config(1, 1, w, d)
  }

  lemma CellTotal(a: seq<nat>, vals: seq<nat>, d: nat, w: nat, hash: (nat, nat) -> nat, j: nat, x: nat)
    requires IsCountMin(a, vals, d, w, hash) && HashesBelow(hash, d, w) && |vals| < TWO32 / 2 && j < d
    ensures IsCell(ColumnCount(vals, 0, j, hash(j, x), OneLayer(d, w), Layered(hash), |vals|), a, w, hash, j, x)
  {
    hide ColumnCount, RowStart;
    CellAt(a, d, w, hash, j, x);
    assert CountMinEntry(a, j, hash(j, x), vals, d, w, hash);
    ColumnAtMost(vals, 0, j, hash(j, x), OneLayer(d, w), Layered(hash), |vals|);
  }

  /** The query never underestimates. */
  lemma QueryCovers(a: seq<nat>, vals: seq<nat>, d: nat, w: nat, hash: (nat, nat) -> nat, j: nat, x: nat, est: int)
    requires IsCountMin(a, vals, d, w, hash) && HashesBelow(hash, d, w) && |vals| < TWO32 / 2 && j < d
    requires IsCell(est, a, w, hash, j, x)
    ensures est >= Occurrences(vals, x, |vals|)
  {
    hide ColumnCount, Occurrences, IsCell, IsCountMin, HashesBelow;
    var cfg, layered := OneLayer(d, w), Layered(hash);
    OccurrencesAreCounts(vals, x, |vals|);
    CellTotal(a, vals, d, w, hash, j, x);
    CellUnique(est, ColumnCount(vals, 0, j, hash(j, x), cfg, layered, |vals|), a, w, hash, j, x);
    ColumnCovers(vals, 0, j, x, cfg, layered, |vals|);
  }

  /** A value that occurs often enough is reported. */
  lemma HeavyIsReported(a: seq<nat>, vals: seq<nat>, d: nat, w: nat, hash: (nat, nat) -> nat, target: real, x: nat)
    requires IsCountMin(a, vals, d, w, hash) && HashesBelow(hash, d, w) && |vals| < TWO32 / 2
    requires Occurrences(vals, x, |vals|) as real >= target
    ensures Reported(a, d, w, hash, |vals|, target, x)
  {
    hide IsCell, IsCountMin, HashesBelow, Occurrences;
    OccurrencesAreCounts(vals, x, |vals|);
    CountAtMost(vals, 0, x, |vals|);
    forall j: nat, est: int | j < d && IsCell(est, a, w, hash, j, x) ensures est as real >= target {
      QueryCovers(a, vals, d, w, hash, j, x, est);
    }
  }

  /** Without a collision in one of its rows a reported value occurs often enough. */
  lemma ReportedOccurs(a: seq<nat>, vals: seq<nat>, d: nat, w: nat, hash: (nat, nat) -> nat, target: real, j: nat,
                       x: nat)
    requires IsCountMin(a, vals, d, w, hash) && HashesBelow(hash, d, w) && |vals| < TWO32 / 2 && j < d
    requires Reported(a, d, w, hash, |vals|, target, x) && NoCollision(vals, OneLayer(d, w), Layered(hash), j, x)
    ensures Occurrences(vals, x, |vals|) as real >= target
  {
    hide IsCell, IsCountMin, HashesBelow, Occurrences, ColumnCount;
    CellTotal(a, vals, d, w, hash, j, x);
    ColumnWithoutCollision(vals, OneLayer(d, w), Layered(hash), j, x, |vals|);
  }
}
