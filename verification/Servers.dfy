/** The verifier's state in server.cpp: root tables, the precompute store and the shared point. */
module Servers {
  import opened Modular
  import Sets
  import opened Poly
  import opened RootsOfUnity
  import opened RootTables
  import opened Shares
  import opened Snip
  import opened Checkers
  import opened Client

  // ---------- the domain that belongs to a size ----------

  ghost function PowersOf(g: int, n: nat, p: Modulus): (s: seq<int>)
    ensures |s| == n
  {
    seq(n, i requires 0 <= i < n => Pow(g, i) % p)
  }

  /** The N-th and 2N-th roots of unity, reduced: there is one domain for each size. */
  ghost function DomainFor(c: Params, N: nat): (dom: Domain)
    requires c.Valid() && c.Supports(N)
    ensures dom.p == c.p && |dom.roots| == N && |dom.roots2| == 2 * N
  {
    var w := c.Root2(N);
    Domain(c.p, PowersOf(w * w, N, c.p), PowersOf(w, 2 * N, c.p))
  }

  lemma TableIsPowers(table: seq<int>, g: int, p: Modulus)
    requires IsRootTable(table, g, p) && AllReduced(table, p)
    ensures table == PowersOf(g, |table|, p)
  {
    forall i | 0 <= i < |table| ensures table[i] == Pow(g, i) % p {
      CongMod(Pow(g, i), p);
      ReducedEqual(table[i], Pow(g, i) % p, p);
    }
  }

  lemma TablesAreDomainFor(roots: seq<int>, invroots: seq<int>, roots2: seq<int>, N: nat, c: Params)
    requires c.Valid() && c.Supports(N) && AreTables(roots, invroots, roots2, N, c)
    ensures DomainFor(c, N) == Domain(c.p, roots, roots2) && DomainFor(c, N).Valid()
  {
    var w := c.Root2(N);
    TableIsPowers(roots, w * w, c.p);
    TableIsPowers(roots2, w, c.p);
    TablesAreDomain(roots, invroots, roots2, N, c);
  }

  /** The root tables exist for every supported size, so its domain is valid. */
  lemma DomainForValid(c: Params, N: nat)
    requires c.Valid() && c.Supports(N)
    ensures DomainFor(c, N).Valid()
  {
    hide Pow;
    var w := c.Root2(N);
    var dom := DomainFor(c, N);
    PowersAreTable(w * w, N, c.p);
    PowersAreTable(w, 2 * N, c.p);
    var v := InverseOfSquare(c, N);
    PowersAreTable(v, N, c.p);
    TablesAreDomain(dom.roots, PowersOf(v, N, c.p), dom.roots2, N, c);
  }

  lemma PowersAreTable(g: int, n: nat, p: Modulus)
    ensures IsRootTable(PowersOf(g, n, p), g, p) && AllReduced(PowersOf(g, n, p), p)
  {
    forall i | 0 <= i < n ensures Cong(PowersOf(g, n, p)[i], Pow(g, i), p) {
      CongMod(Pow(g, i), p);
    }
  }

  lemma InverseOfSquare(c: Params, N: nat) returns (v: int)
    requires c.Valid() && c.Supports(N)
    ensures Cong(v * (c.Root2(N) * c.Root2(N)), 1, c.p)
  {
    Root2Principal(c, N);
    HalfStep(c, N);
    var step := Pow2(c.twoOrder) / N;
    v := Pow(InvMod(c.gen, c.p), step);
    CongIntro(v, v, 0, c.p);
    var w2 := c.Root2(N) * c.Root2(N);
    InverseGenerator(c, step, v, w2);
  }

  lemma ValuesAfter<K, V>(m: map<K, V>, k: K, v: V)
    ensures m[k := v].Values <= m.Values + {v}
    ensures k in m && m[k] == v ==> m[k := v].Values <= m.Values
  {
  }

  // ---------- one server ----------

  const RANDOMX_THRESHOLD: nat := 1000000

  class Server {
    const c: Params
    const tables: Tables
    var store: map<nat, CheckerPreComp>    // `precomp_store`
    var randomX: int
    var randxUses: nat

    /** The entry under N behaves as a precompute freshly built for size N at the current point. */
    ghost predicate EntryReady(N: nat)
      requires N in store && c.Valid()
      reads this, store[N]
    {
      c.Supports(N) && store[N].For(DomainFor(c, N)) && store[N].ReadyAt(DomainFor(c, N), randomX)
    }

    ghost predicate Valid()
      reads this, tables, tables.roots, tables.invroots, tables.roots2, store.Values
    {
      && c.Valid() && tables.Valid(c) && Reduced(randomX, c.p)
      && forall N :: N in store ==> EntryReady(N)
    }

    constructor (c: Params, x: int)
      requires c.Valid() && Reduced(x, c.p)
      ensures Valid() && this.c == c && randomX == x && randxUses == 0 && store == map[] && fresh(tables)
    {
      this.c := c;
      tables := new Tables();
      store, randomX, randxUses := map[], x, 0;
    }

    method GetPrecomp(N: nat) returns (pre: CheckerPreComp)
      requires Valid() && tables.numRoots == N > 0 && c.Supports(N)
      modifies `store
      ensures Valid() && pre.For(DomainFor(c, N)) && pre.ReadyAt(DomainFor(c, N), randomX)
      ensures store == old(store)[N := pre]
      ensures if N in old(store) then pre == old(store)[N] else fresh(pre)
    {
      if N !in store {
        TablesAreDomainFor(tables.roots[..], tables.invroots[..], tables.roots2[..], N, c);
        pre := new CheckerPreComp(DomainFor(c, N), c.p, N, tables.roots, tables.roots2);
        pre.SetCheckerPrecomp(randomX, DomainFor(c, N));
        store := store[N := pre];
      } else {
        pre := store[N];
      }
    }

    /** Entries under different sizes are different objects: their domains differ. */
    lemma EntriesApart(N: nat, M: nat)
      requires c.Valid() && N in store && M in store && c.Supports(N) && c.Supports(M)
      requires store[N].For(DomainFor(c, N)) && store[M].For(DomainFor(c, M)) && N != M
      ensures store[N] != store[M]
    {
      assert |DomainFor(c, N).roots| != |DomainFor(c, M).roots|;
    }

    method RefreshEntry(N: nat)
      requires c.Valid() && N in store && Reduced(randomX, c.p)
      requires c.Supports(N) && store[N].For(DomainFor(c, N))
      modifies store[N]
      ensures store[N].ReadyAt(DomainFor(c, N), randomX)
    {
      hide DomainFor;
      DomainForValid(c, N);
      var entry := store[N];
      entry.SetCheckerPrecomp(randomX, DomainFor(c, N));
    }

    /** Entry N is prepared for size N, at whatever point. */
    ghost predicate EntryFor(N: nat)
      requires N in store && c.Valid()
      reads this
    {
      c.Supports(N) && store[N].For(DomainFor(c, N))
    }

    /** Moves every stored precompute to a new point. */
    method Refresh(x: int)
      requires Valid() && Reduced(x, c.p)
      modifies this, store.Values
      ensures Valid() && randomX == x && randxUses == 0 && store == old(store)
    {
      hide DomainFor, Tables.Valid, Params.Valid, Params.Supports, CheckerPreComp.For, CheckerPreComp.ReadyAt;
      randxUses := 0;
      randomX := x;
      var rest: set<nat> := store.Keys;
      while rest != {}
        invariant rest <= store.Keys && store == old(store) && randomX == x && randxUses == 0
        invariant c.Valid() && tables.Valid(c)
        invariant forall N :: N in store ==> EntryFor(N)
        invariant forall N :: N in store && N !in rest ==> EntryReady(N)
        decreases |rest|
      {
        assert Sets.Member(rest) in rest;
        var N: nat :| N in rest;
        assert EntryFor(N);
        forall M | M in store && M != N ensures store[M] != store[N] {
          assert EntryFor(M);
          EntriesApart(N, M);
        }
        RefreshEntry(N);
        rest := rest - {N};
      }
    }

    /** The test at the top of the main loop. */
    method MaybeRefresh(x: int)
      requires Valid() && Reduced(x, c.p)
      modifies this, store.Values
      ensures Valid() && store == old(store)
      ensures if old(randxUses) > 1_000_000 then randomX == x && randxUses == 0
              else randomX == old(randomX) && randxUses == old(randxUses)
    {
      if randxUses > RANDOMX_THRESHOLD {
        Refresh(x);
      }
    }

    /** The state part of `validate_snips`: tables and precompute for this batch. */
    method PrepareBatch(numMulGates: nat, batch: nat, ghost N: nat) returns (pre: CheckerPreComp)
      requires Valid() && numMulGates < 0x8000_0000 && IsNextPower(numMulGates, N) && c.Supports(N)
      modifies `store, `randxUses, tables
      ensures Valid() && tables.numRoots == N && randomX == old(randomX) && randxUses == old(randxUses) + batch
      ensures pre.For(DomainFor(c, N)) && pre.ReadyAt(DomainFor(c, N), randomX) && DomainFor(c, N).Valid()
      ensures store == old(store)[N := pre] && fresh(store.Values - old(store.Values))
      ensures if N in old(store) then pre == old(store)[N] else fresh(pre)
    {
      hide DomainFor, Tables.Valid, Params.Valid, Params.Supports, CheckerPreComp.For, CheckerPreComp.ReadyAt,
           Domain.Valid;
      var numRoots := NextPowerOfTwo(numMulGates);
      NextPowerUnique(numMulGates, numRoots, N);
      DomainForValid(c, N);
      tables.InitRoots(c, numRoots);
      pre := GetPrecomp(numRoots);
      ValuesAfter(old(store), N, pre);
      randxUses := randxUses + batch;
    }
  }
}
