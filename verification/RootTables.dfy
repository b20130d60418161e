/** The global root tables of constants.cpp. */
module RootTables {
  import opened Modular
  import opened Poly
  import opened RootsOfUnity

  /** What constants.h states about `Int_Modulus`, `Int_Gen` and `twoOrder`. */
  datatype Params = Params(p: Modulus, gen: int, twoOrder: nat) {
    ghost predicate Valid() {
      && Prime(p) && p > 2
      // `1 << twoOrder` is computed in an int
      && 1 <= twoOrder <= 30
      && Cong(Pow(gen, Pow2(twoOrder - 1)), -1, p)
    }

    /** Sizes for which a 2N-th root of unity exists. */
    ghost predicate Supports(N: nat) {
      PowerOfTwo(N) && 2 * N <= Pow2(twoOrder)
    }

    /** The 2N-th root of unity that `roots2` enumerates. */
    ghost function Root2(N: nat): int
      requires N > 0
    {
      Pow(gen, Pow2(twoOrder) / N / 2)
    }
  }

  /** One of the parameter sets listed in constants.h. */
  const SMALL_PARAMS: Params := Params(97, 8, 4)

  lemma Prime97()
    ensures Prime(97)
  {
    forall d | 2 <= d < 97 ensures 97 % d != 0 {
      if 97 % d == 0 {
        var q := 97 / d;
        assert q * d == 97;
        SmallFactor(q, d);
      }
    }
  }

  lemma SmallFactor(q: int, d: int)
    requires 2 <= d < 97
    ensures q * d != 97
  {
  }

  /** The assumptions on the parameters can be met. */
  lemma SmallParamsValid()
    ensures SMALL_PARAMS.Valid() && SMALL_PARAMS.Supports(8)
  {
    Prime97();
    assert Pow2(1) == 2 && Pow2(2) == 4;
    assert Pow2(3) == 8 && Pow2(4) == 16;
    assert Pow(8, 2) == 64 by { assert Pow(8, 1) == 8; }
    PowAdd(8, 2, 2);
    PowAdd(8, 4, 4);
    assert Pow(8, 8) == 16777216;
    CongIntro(16777216, -1, 172961, 97);
    assert PowerOfTwo(8) by { assert PowerOfTwo(2) && PowerOfTwo(4); }
  }

  lemma {:induction false} PowerOfTwoDivides(k: nat, n: nat)
    requires PowerOfTwo(n) && n <= Pow2(k)
    ensures Pow2(k) / n * n == Pow2(k) && Pow2(k) / n > 0
    decreases k
  {
    if n > 1 {
      assert k > 0;
      PowerOfTwoDivides(k - 1, n / 2);
      var d := Pow2(k - 1) / (n / 2);
      assert d * n == Pow2(k) by { assert n == 2 * (n / 2); Assoc(d, 2, n / 2); }
      QuotientUnique(Pow2(k), d, n);
    }
  }

  lemma QuotientUnique(a: int, q: int, n: int)
    requires n > 0 && q * n == a
    ensures a / n == q
  {
    assert (a / n - q) * n == -(a % n);
    SmallMultiple(a / n - q, n);
  }

  /** The step size is even and its half times 2N is 2^twoOrder. */
  lemma HalfStep(c: Params, N: nat)
    requires c.Valid() && c.Supports(N)
    ensures var step := Pow2(c.twoOrder) / N;
            step == 2 * (step / 2) && step / 2 * N == Pow2(c.twoOrder - 1)
  {
    PowerOfTwoDivides(c.twoOrder - 1, N);
    var h := Pow2(c.twoOrder - 1) / N;
    Assoc(2, h, N);
    QuotientUnique(Pow2(c.twoOrder), 2 * h, N);
  }

  lemma Root2Principal(c: Params, N: nat)
    requires c.Valid() && c.Supports(N)
    ensures PrincipalRoot(c.Root2(N), 2 * N, c.p)
    ensures PrincipalRoot(c.Root2(N) * c.Root2(N), N, c.p)
    ensures Cong(Pow(c.gen, Pow2(c.twoOrder) / N), c.Root2(N) * c.Root2(N), c.p)
  {
    HalfStep(c, N);
    HalfStepRoot(c.gen, Pow2(c.twoOrder) / N / 2, N, c.p);
  }

  lemma HalfStepRoot(gen: int, h: nat, N: nat, p: Modulus)
    requires PowerOfTwo(N) && 0 <= h * N && Cong(Pow(gen, h * N), -1, p)
    ensures var w := Pow(gen, h);
            PrincipalRoot(w, 2 * N, p) && PrincipalRoot(w * w, N, p) && Pow(gen, 2 * h) == w * w
  {
    PowPow(gen, h, N);
    assert PowerOfTwo(2 * N);
    PrincipalRootSquare(Pow(gen, h), 2 * N, p);
    PowAdd(gen, h, h);
  }

  /** The relation between the three tables. */
  ghost predicate AreTables(roots: seq<int>, invroots: seq<int>, roots2: seq<int>, N: nat, c: Params)
    requires N > 0
  {
    var w := c.Root2(N);
    && |roots| == |invroots| == N && |roots2| == 2 * N
    && IsRootTable(roots, w * w, c.p)
    && IsRootTable(roots2, w, c.p)
    && (exists v :: Cong(v * (w * w), 1, c.p) && IsRootTable(invroots, v, c.p))
    && AllReduced(roots, c.p) && AllReduced(invroots, c.p) && AllReduced(roots2, c.p)
  }

  /** The tables for any size: powers of the generator and of its inverse in whole steps. */
  ghost predicate ArePowers(roots: seq<int>, invroots: seq<int>, roots2: seq<int>, N: nat, c: Params)
    requires N > 0
  {
    var step := Pow2(c.twoOrder) / N;
    && |roots| == |invroots| == N && |roots2| == 2 * N
    && IsRootTable(roots, Pow(c.gen, step), c.p)
    && IsRootTable(invroots, Pow(InvMod(c.gen, c.p), step), c.p)
    && IsRootTable(roots2, Pow(c.gen, step / 2), c.p)
    && AllReduced(roots, c.p) && AllReduced(invroots, c.p) && AllReduced(roots2, c.p)
  }

  /** For a supported size they are the tables of the N-th and 2N-th roots of unity. */
  lemma PowersAreTables(roots: seq<int>, invroots: seq<int>, roots2: seq<int>, N: nat, c: Params)
    requires c.Valid() && c.Supports(N) && ArePowers(roots, invroots, roots2, N, c)
    ensures AreTables(roots, invroots, roots2, N, c)
  {
    hide Pow, Cong, IsRootTable, AllReduced, PrincipalRoot;
    var step := Pow2(c.twoOrder) / N;
    HalfStep(c, N);
    Root2Principal(c, N);
    var w, v := c.Root2(N), Pow(InvMod(c.gen, c.p), step);
    Rebase(roots, Pow(c.gen, step), w * w, c.p);
    CongIntro(v, v, 0, c.p);
    CongSymmetric(Pow(c.gen, step), w * w, c.p);
    InverseGenerator(c, step, v, w * w);
  }

  /** Reduced powers of g, which stands for h. */
  method PowerTable(n: nat, g: int, ghost h: int, p: Modulus) returns (table: array<int>)
    requires n > 0 && Cong(g, h, p)
    ensures fresh(table) && table.Length == n
    ensures IsRootTable(table[..], h, p) && AllReduced(table[..], p)
  {
    table := new int[n];
    table[0] := 1;
    for i := 1 to n
      invariant forall j :: 0 <= j < i ==> Cong(table[j], Pow(g, j), p) && Reduced(table[j], p)
    {
      table[i] := MulMod(table[i-1], g, p);
      MulModCong(table[i-1], g, p);
      CongMul(table[i-1], Pow(g, i - 1), g, g, p);
    }
    Rebase(table[..], g, h, p);
  }

  /** What the rest of the program relies on. */
  lemma TableFacts(roots: seq<int>, invroots: seq<int>, roots2: seq<int>, N: nat, c: Params)
    requires c.Valid() && c.Supports(N) && AreTables(roots, invroots, roots2, N, c)
    ensures DistinctMod(roots2, c.p) && DistinctMod(roots, c.p)
    ensures forall i :: 0 <= i < N ==> roots2[2*i] == roots[i]
    ensures forall i :: 0 <= i < N ==> MulMod(roots[i], invroots[i], c.p) == 1
    ensures forall i :: 0 <= i < N ==> roots2[i+N] == SubMod(0, roots2[i], c.p)
  {
    var w := c.Root2(N);
    Root2Principal(c, N);
    assert PowerOfTwo(2 * N);
    RootTableDistinct(roots2, w, c.p);
    RootTableDistinct(roots, w * w, c.p);
    var v :| Cong(v * (w * w), 1, c.p) && IsRootTable(invroots, v, c.p);
    forall i | 0 <= i < N
      ensures roots2[2*i] == roots[i]
      ensures MulMod(roots[i], invroots[i], c.p) == 1
      ensures roots2[i+N] == SubMod(0, roots2[i], c.p)
    {
      EvenEntry(roots, roots2, w, i, c.p);
      InverseEntry(roots[i], invroots[i], w * w, v, i, c.p);
      OppositeEntry(roots2, w, i, N, c.p);
    }
  }

  lemma EvenEntry(roots: seq<int>, roots2: seq<int>, w: int, i: nat, p: Modulus)
    requires i < |roots| && |roots2| == 2 * |roots|
    requires IsRootTable(roots, w * w, p) && IsRootTable(roots2, w, p)
    requires AllReduced(roots, p) && AllReduced(roots2, p)
    ensures roots2[2*i] == roots[i]
  {
    SquarePower(w, i);
    assert Cong(roots2[2*i], Pow(w, 2*i), p);
    ReducedEqual(roots2[2*i], roots[i], p);
  }

  lemma InverseEntry(a: int, b: int, w: int, v: int, i: nat, p: Modulus)
    requires Cong(a, Pow(w, i), p) && Cong(b, Pow(v, i), p) && Cong(v * w, 1, p)
    ensures MulMod(a, b, p) == 1
  {
    CongMul(a, Pow(w, i), b, Pow(v, i), p);
    InversePowers(w, v, i, p);
    MulModCong(a, b, p);
    ReducedEqual(MulMod(a, b, p), 1, p);
  }

  lemma OppositeEntry(roots2: seq<int>, w: int, i: nat, N: nat, p: Modulus)
    requires i < N && |roots2| == 2 * N && IsRootTable(roots2, w, p) && AllReduced(roots2, p)
    requires PrincipalRoot(w, 2 * N, p)
    ensures roots2[i+N] == SubMod(0, roots2[i], p)
  {
    PowAdd(w, i, N);
    assert 2 * N / 2 == N;
    CongMul(Pow(w, i), roots2[i], Pow(w, N), -1, p);
    SubModCong(0, roots2[i], p);
    assert Cong(roots2[i+N], Pow(w, i+N), p);
    ReducedEqual(roots2[i+N], SubMod(0, roots2[i], p), p);
  }

  lemma InverseGenerator(c: Params, step: nat, v: int, w: int)
    requires c.Valid() && Cong(v, Pow(InvMod(c.gen, c.p), step), c.p) && Cong(w, Pow(c.gen, step), c.p)
    ensures Cong(v * w, 1, c.p)
  {
    Pow2IsPowerOfTwo(c.twoOrder);
    RootNonZero(c.gen, Pow2(c.twoOrder), c.p);
    InvModCorrect(c.gen, c.p);
    InversePowers(c.gen, InvMod(c.gen, c.p), step, c.p);
    CongMul(v, Pow(InvMod(c.gen, c.p), step), w, Pow(c.gen, step), c.p);
  }

  /** A table of powers of g is a table of powers of any h congruent to g. */
  lemma Rebase(table: seq<int>, g: int, h: int, p: Modulus)
    requires IsRootTable(table, g, p) && Cong(g, h, p)
    ensures IsRootTable(table, h, p)
  {
    forall i | 0 <= i < |table| ensures Cong(table[i], Pow(h, i), p) {
      PowCong(g, h, i, p);
    }
  }

  /** The globals `num_roots`, `roots`, `invroots` and `roots2`. */
  class Tables {
    var numRoots: nat
    var roots: array?<int>
    var invroots: array?<int>
    var roots2: array?<int>

    ghost predicate Valid(c: Params)
      reads this, roots, invroots, roots2
    {
      if numRoots == 0 then roots == null
      else
        && roots != null && invroots != null && roots2 != null
        && ArePowers(roots[..], invroots[..], roots2[..], numRoots, c)
        && (c.Supports(numRoots) ==> AreTables(roots[..], invroots[..], roots2[..], numRoots, c))
    }

    constructor ()
      ensures numRoots == 0 && roots == null
    {
      numRoots := 0;
      roots, invroots, roots2 := null, null, null;
    }

    method InitRoots(c: Params, N: nat)
      requires c.Valid() && N > 0 && Valid(c)
      modifies this
      ensures Valid(c) && numRoots == N
      ensures old(numRoots) == N ==> roots == old(roots) && invroots == old(invroots) && roots2 == old(roots2)
      ensures old(numRoots) != N ==> fresh(roots) && fresh(invroots) && fresh(roots2)
    {
      if numRoots == N {
        return;
      }
      hide Pow, Cong, IsRootTable, AllReduced, AreTables, Params.Supports, Params.Valid;
      numRoots := N;
      var stepSize := Pow2(c.twoOrder) / N;
      var ginv := InvMod(c.gen, c.p);
      var g := Pow(c.gen, stepSize) % c.p;
      ginv := Pow(ginv, stepSize) % c.p;
      var ghalf := Pow(c.gen, stepSize / 2) % c.p;
      CongMod(Pow(c.gen, stepSize), c.p);
      CongMod(Pow(InvMod(c.gen, c.p), stepSize), c.p);
      CongMod(Pow(c.gen, stepSize / 2), c.p);
      roots := PowerTable(N, g, Pow(c.gen, stepSize), c.p);
      invroots := PowerTable(N, ginv, Pow(InvMod(c.gen, c.p), stepSize), c.p);
      roots2 := PowerTable(2 * N, ghalf, Pow(c.gen, stepSize / 2), c.p);
      if c.Supports(N) {
        PowersAreTables(roots[..], invroots[..], roots2[..], N, c);
      }
    }
  }
}
