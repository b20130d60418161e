/** Both servers together: batches of submissions and refreshes of the shared point. */
module Sessions {
  import opened Modular
  import opened Permutations
  import opened Rows
  import opened RootTables
  import opened PolyBatch
  import opened PolyOnce
  import opened Circuits
  import opened Shares
  import opened Snip
  import opened SnipTheorems
  import opened Checkers
  import opened Servers
  import opened Validation

  /** One batch as both servers see it; client i's circuit has gates[i] and result_zero list zeros[i] on both. */
  datatype Batch = Batch(gates: seq<seq<Gate>>, zeros: seq<seq<nat>>,
                         circuits0: seq<Circuit>, circuits1: seq<Circuit>,
                         packets0: seq<ClientPacket>, packets1: seq<ClientPacket>,
                         shares0: seq<int>, shares1: seq<int>, numInputs: nat, coins: seq<seq<int>>)
  {
    ghost predicate Fits(dom: Domain)
      reads circuits0, circuits1, packets0, packets1
    {
      && Sized(|circuits0|) && |circuits0| > 0
      && AllSubmittable(circuits0, packets0, dom, numInputs) && AllSubmittable(circuits1, packets1, dom, numInputs)
      && Distinct(circuits0) && Distinct(circuits1) && Apart(circuits0, circuits1)
      && |shares0| == |shares1| == RowStart(|circuits0|, numInputs)
      && BuiltFrom(circuits0, gates, zeros) && BuiltFrom(circuits1, gates, zeros)
      && forall i :: 0 <= i < |coins| ==> |coins[i]| == |zeros[i]| + 1
    }

    /** All n clients have an entry everywhere. */
    predicate Sized(n: nat) {
      |gates| == |zeros| == |circuits0| == |circuits1| == |packets0| == |packets1| == |coins| == n
    }

    predicate Has(i: nat) {
      && i < |gates| && i < |zeros| && i < |circuits0| && i < |circuits1|
      && i < |packets0| && i < |packets1| && i < |coins|
    }

    /** The input shares of client i. */
    function Inputs0(i: nat): seq<int>
      requires RowStart(i, numInputs) + numInputs <= |shares0|
    {
      shares0[RowStart(i, numInputs)..RowStart(i, numInputs)+numInputs]
    }

    function Inputs1(i: nat): seq<int>
      requires RowStart(i, numInputs) + numInputs <= |shares1|
    {
      shares1[RowStart(i, numInputs)..RowStart(i, numInputs)+numInputs]
    }

    /** Client i followed the protocol. */
    ghost predicate HonestClient(i: nat, dom: Domain)
      reads packets0, packets1
      requires Has(i)
    {
      && RowStart(i, numInputs) + numInputs <= |shares0| && |shares0| == |shares1|
      && Topological(gates[i]) && |dom.roots2| == 2 * |dom.roots|
      && Honest(dom, gates[i], zeros[i], Inputs0(i), Inputs1(i),
                packets0[i].View(), packets1[i].View())
    }
  }

  ghost predicate Apart(a: seq<Circuit>, b: seq<Circuit>) {
    forall i, j :: 0 <= i < |a| && 0 <= j < |b| ==> a[i] != b[j]
  }

  /** The verdict on client i, in terms of what its two checkers computed. */
  ghost predicate DecidedByCheckers(ok: bool, b: Batch, i: nat, dom: Domain, r: int, ch0: Checker, ch1: Checker)
    requires b.Has(i)
    reads ch0, ch1, b.circuits0[i], b.circuits1[i], b.packets0[i], b.packets1[i]
  {
    && OneReady(ch0, b.circuits0[i], b.packets0[i], 0, dom, b.shares0, b.numInputs, i, r)
    && OneReady(ch1, b.circuits1[i], b.packets1[i], 1, dom, b.shares1, b.numInputs, i, r)
    && b.circuits0[i].gates == b.gates[i] && b.circuits0[i].resultZero == b.zeros[i]
    && Decided(ok, ch0, ch1, dom, b.coins[i])
  }

  /** What the checkers of one client provide. */
  ghost predicate PairReady(b: Batch, i: nat, ch0: Checker, ch1: Checker, r: int, dom: Domain)
    requires b.Has(i)
    reads ch0, ch1, b.circuits0[i], b.circuits1[i], b.packets0[i], b.packets1[i]
  {
    && OneReady(ch0, b.circuits0[i], b.packets0[i], 0, dom, b.shares0, b.numInputs, i, r)
    && OneReady(ch1, b.circuits1[i], b.packets1[i], 1, dom, b.shares1, b.numInputs, i, r)
    && b.circuits0[i].gates == b.circuits1[i].gates == b.gates[i]
    && b.circuits0[i].resultZero == b.circuits1[i].resultZero == b.zeros[i]
    && |b.coins[i]| == |b.zeros[i]| + 1
  }

  lemma PairFacts(b: Batch, i: nat, ch0: Checker, ch1: Checker, r: int, dom: Domain)
    requires b.Has(i)
    requires PairReady(b, i, ch0, ch1, r, dom)
    ensures ch0.ckt.Valid() && ch1.ckt.Valid() && ch0.serverNum == 0 && ch1.serverNum == 1
    ensures ch0.ckt.p == ch1.ckt.p == dom.p
    ensures |b.coins[i]| == |ch0.ckt.resultZero| + 1 == |ch1.ckt.resultZero| + 1
  {
    hide Imported, EvalsAt, WellSized;
  }

  lemma PairDecided(b: Batch, i: nat, ch0: Checker, ch1: Checker, r: int, dom: Domain,
                    cor0: CorShare, cor1: CorShare, out0: int, out1: int)
    requires b.Has(i)
    requires PairReady(b, i, ch0, ch1, r, dom)
    requires cor0 == CorShareOf(ch0.evalF, ch0.evalG, ch0.req.triple, dom.p)
    requires cor1 == CorShareOf(ch1.evalF, ch1.evalG, ch1.req.triple, dom.p)
    requires IsOutShare(out0, ch0, 0, OpenCor(cor0, cor1, dom.p), b.coins[i])
    requires IsOutShare(out1, ch1, 1, OpenCor(cor1, cor0, dom.p), b.coins[i])
    ensures DecidedByCheckers(AddToZero(out0, out1, dom.p), b, i, dom, r, ch0, ch1)
  {
    hide IsOutShare, Decided, OpenCor, CorShareOf, AddToZero;
    PairFacts(b, i, ch0, ch1, r, dom);
    SharesDecide(ch0, ch1, dom, cor0, cor1, out0, out1, b.coins[i]);
  }

  /** The exchange of opened pairs and output shares. */
  method Conclude(b: Batch, checkers0: seq<Checker>, checkers1: seq<Checker>, r: int, p: Modulus, ghost dom: Domain)
    returns (ans: seq<bool>)
    requires p == dom.p && AllPairsReady(b, checkers0, checkers1, r, dom)
    ensures |ans| == |b.circuits0|
    ensures forall i :: 0 <= i < |ans| ==> DecidedByCheckers(ans[i], b, i, dom, r, checkers0[i], checkers1[i])
  {
    hide IsOutShare, DecidedByCheckers, OpenCor, CorShareOf, PairReady, AddToZero, Circuit.Valid;
    AllPairFacts(b, checkers0, checkers1, r, dom);
    var cor0 := CorShares(checkers0);
    var cor1 := CorShares(checkers1);
    var out0 := OutShares(checkers0, 0, cor0, cor1, b.coins);
    var out1 := OutShares(checkers1, 1, cor1, cor0, b.coins);
    ans := [];
    for i := 0 to |checkers0|
      invariant |ans| == i
      invariant forall k :: 0 <= k < i ==> DecidedByCheckers(ans[k], b, k, dom, r, checkers0[k], checkers1[k])
    {
      PairDecided(b, i, checkers0[i], checkers1[i], r, dom, cor0[i], cor1[i], out0[i], out1[i]);
      ans := ans + [AddToZero(out0[i], out1[i], p)];
    }
  }

  lemma AllPairFacts(b: Batch, checkers0: seq<Checker>, checkers1: seq<Checker>, r: int, dom: Domain)
    requires b.Sized(|checkers0|) && |checkers1| == |checkers0|
    requires forall i :: 0 <= i < |checkers0| ==> PairReady(b, i, checkers0[i], checkers1[i], r, dom)
    ensures forall i :: 0 <= i < |checkers0| ==>
              && checkers0[i].ckt.Valid() && checkers0[i].serverNum == 0 && checkers0[i].ckt.p == dom.p
              && |b.coins[i]| == |checkers0[i].ckt.resultZero| + 1
    ensures forall i :: 0 <= i < |checkers1| ==>
              && checkers1[i].ckt.Valid() && checkers1[i].serverNum == 1 && checkers1[i].ckt.p == dom.p
              && |b.coins[i]| == |checkers1[i].ckt.resultZero| + 1
  {
    hide PairReady, Circuit.Valid;
    forall i | 0 <= i < |checkers0|
      ensures checkers0[i].ckt.Valid() && checkers1[i].ckt.Valid()
      ensures checkers0[i].serverNum == 0 && checkers1[i].serverNum == 1
      ensures checkers0[i].ckt.p == checkers1[i].ckt.p == dom.p
      ensures |b.coins[i]| == |checkers0[i].ckt.resultZero| + 1 == |checkers1[i].ckt.resultZero| + 1
    {
      PairFacts(b, i, checkers0[i], checkers1[i], r, dom);
    }
  }

  lemma PairsReady(b: Batch, checkers0: seq<Checker>, checkers1: seq<Checker>, r: int, dom: Domain, i: nat)
    requires b.Sized(|checkers0|) && i < |checkers1| == |checkers0|
    requires AllReady(checkers0, b.circuits0, b.packets0, 0, dom, b.shares0, b.numInputs, r)
    requires AllReady(checkers1, b.circuits1, b.packets1, 1, dom, b.shares1, b.numInputs, r)
    requires BuiltFrom(b.circuits0, b.gates, b.zeros) && BuiltFrom(b.circuits1, b.gates, b.zeros)
    requires |b.coins[i]| == |b.zeros[i]| + 1
    ensures PairReady(b, i, checkers0[i], checkers1[i], r, dom)
  {
    hide OneReady;
  }

  lemma HonestPairPasses(ok: bool, b: Batch, i: nat, dom: Domain, r: int, ch0: Checker, ch1: Checker)
    requires b.Has(i)
    requires DecidedByCheckers(ok, b, i, dom, r, ch0, ch1) && b.HonestClient(i, dom)
    ensures ok
  {
    hide CheckerReady, Decided, Honest;
    HonestDecided(ok, ch0, ch1, dom, b.Inputs0(i), b.Inputs1(i), r, b.coins[i]);
  }

  ghost predicate AllPairsReady(b: Batch, checkers0: seq<Checker>, checkers1: seq<Checker>, r: int, dom: Domain)
    reads checkers0, checkers1, b.circuits0, b.circuits1, b.packets0, b.packets1
  {
    && b.Sized(|checkers0|) && |checkers1| == |checkers0|
    && forall i :: 0 <= i < |checkers0| ==> PairReady(b, i, checkers0[i], checkers1[i], r, dom)
  }

  lemma AllReadyPairs(b: Batch, checkers0: seq<Checker>, checkers1: seq<Checker>, r: int, dom: Domain)
    requires b.Sized(|checkers0|) && |checkers1| == |checkers0|
    requires AllReady(checkers0, b.circuits0, b.packets0, 0, dom, b.shares0, b.numInputs, r)
    requires AllReady(checkers1, b.circuits1, b.packets1, 1, dom, b.shares1, b.numInputs, r)
    requires BuiltFrom(b.circuits0, b.gates, b.zeros) && BuiltFrom(b.circuits1, b.gates, b.zeros)
    requires forall i :: 0 <= i < |b.coins| ==> |b.coins[i]| == |b.zeros[i]| + 1
    ensures AllPairsReady(b, checkers0, checkers1, r, dom)
  {
    hide PairReady, AllReady, BuiltFrom;
    forall i | 0 <= i < |checkers0| ensures PairReady(b, i, checkers0[i], checkers1[i], r, dom) {
      PairsReady(b, checkers0, checkers1, r, dom, i);
    }
  }

  method BuildBoth(b: Batch, pre0: CheckerPreComp, pre1: CheckerPreComp, r: int, ghost dom: Domain)
    returns (checkers0: seq<Checker>, checkers1: seq<Checker>)
    requires dom.Valid() && b.Fits(dom) && pre0.ReadyAt(dom, r) && pre1.ReadyAt(dom, r)
    modifies b.circuits0, b.circuits1
    ensures AllPairsReady(b, checkers0, checkers1, r, dom)
  {
    hide OneReady, Submittable, AllPairsReady, Domain.Valid, RowStart, Circuit.Valid, PreX.Valid, Precomp.Valid;
    checkers0 := BuildCheckers(0, b.circuits0, b.packets0, pre0, b.shares0, b.numInputs, dom, b.gates, b.zeros);
    checkers1 := BuildCheckers(1, b.circuits1, b.packets1, pre1, b.shares1, b.numInputs, dom, b.gates, b.zeros);
    AllReadyPairs(b, checkers0, checkers1, r, dom);
  }

  /** Every client's verdict follows from its two checkers, and honest clients pass. */
  ghost predicate BatchDecided(ans: seq<bool>, b: Batch, dom: Domain, r: int, checkers0: seq<Checker>,
                               checkers1: seq<Checker>)
    reads checkers0, checkers1, b.circuits0, b.circuits1, b.packets0, b.packets1
  {
    && b.Sized(|ans|) && |ans| == |checkers0| == |checkers1|
    && (forall i :: 0 <= i < |ans| ==> DecidedByCheckers(ans[i], b, i, dom, r, checkers0[i], checkers1[i]))
    && (forall i :: 0 <= i < |ans| && b.HonestClient(i, dom) ==> ans[i])
  }

  /** Both servers check a batch at the shared point. */
  method CheckBatch(b: Batch, pre0: CheckerPreComp, pre1: CheckerPreComp, r: int, p: Modulus, ghost dom: Domain)
    returns (ans: seq<bool>, ghost checkers0: seq<Checker>, ghost checkers1: seq<Checker>)
    requires dom.Valid() && p == dom.p && b.Fits(dom)
    requires pre0.ReadyAt(dom, r) && pre1.ReadyAt(dom, r)
    modifies b.circuits0, b.circuits1
    ensures BatchDecided(ans, b, dom, r, checkers0, checkers1)
  {
    hide DecidedByCheckers, PairReady, Domain.Valid, Batch.HonestClient, AllSubmittable, Distinct, BuiltFrom, Apart;
    var chs0, chs1 := BuildBoth(b, pre0, pre1, r, dom);
    checkers0, checkers1 := chs0, chs1;
    ans := Conclude(b, chs0, chs1, r, p, dom);
    forall i | 0 <= i < |ans| && b.HonestClient(i, dom) ensures ans[i] {
      HonestPairPasses(ans[i], b, i, dom, r, chs0[i], chs1[i]);
    }
  }

  // ---------- the two servers over time ----------

  /** What can happen between two batches. */
  datatype Event =
    | Tick(x: int)
    | Prepare(numMulGates: nat, batch: nat)
  {
    ghost predicate Possible(c: Params)
      requires c.Valid()
    {
      match this
      case Tick(x) => Reduced(x, c.p)
      case Prepare(numMulGates, _) =>
        numMulGates < 0x8000_0000 && exists N :: IsNextPower(numMulGates, N) && c.Supports(N)
    }
  }

  /** The shared point and how often it was used. */
  datatype Clock = Clock(x: int, uses: int)

  /** Above a million uses a tick moves the point; a batch uses it once for each submission. */
  ghost function Ticked(now: Clock, e: Event): Clock {
    match e
    case Tick(x) => if now.uses > 1_000_000 then Clock(x, 0) else now
    case Prepare(_, batch) => Clock(now.x, now.uses + batch)
  }

  ghost function ClockAfter(events: seq<Event>, n: nat, start: Clock): Clock
    requires n <= |events|
  {
    if n == 0 then start else Ticked(ClockAfter(events, n - 1, start), events[n-1])
  }

  /** One of the first n events prepares for size N. */
  ghost predicate PreparedFor(events: seq<Event>, n: nat, N: nat)
    requires n <= |events|
  {
    exists i :: 0 <= i < n && events[i].Prepare? && IsNextPower(events[i].numMulGates, N)
  }

  lemma PreparedNext(events: seq<Event>, n: nat, N: nat)
    requires n < |events|
    ensures PreparedFor(events, n + 1, N)
       <==> PreparedFor(events, n, N) || (events[n].Prepare? && IsNextPower(events[n].numMulGates, N))
  {
    hide IsNextPower;
    if PreparedFor(events, n, N) {
      var i :| 0 <= i < n && events[i].Prepare? && IsNextPower(events[i].numMulGates, N);
      assert i < n + 1;
    }
  }

  /** The sizes in the store are those of before and those prepared for. */
  ghost predicate SizesAfter(sizes: set<nat>, was: set<nat>, events: seq<Event>, n: nat)
    requires n <= |events|
  {
    forall N :: N in sizes <==> N in was || PreparedFor(events, n, N)
  }

  lemma SizesNext(sizes: set<nat>, was: set<nat>, events: seq<Event>, n: nat, next: set<nat>, N: nat)
    requires n < |events| && SizesAfter(sizes, was, events, n)
    requires if events[n].Prepare? then IsNextPower(events[n].numMulGates, N) && next == sizes + {N} else next == sizes
    ensures SizesAfter(next, was, events, n + 1)
  {
    hide IsNextPower, PreparedFor;
    forall M ensures M in next <==> M in was || PreparedFor(events, n + 1, M) {
      PreparedNext(events, n, M);
      if events[n].Prepare? && IsNextPower(events[n].numMulGates, M) {
        NextPowerUnique(events[n].numMulGates, M, N);
      }
    }
  }

  class Verifiers {
    const s0: Server
    const s1: Server

    /** Both servers are coherent, separate and in step. */
    ghost predicate Valid()
      reads s0, s0.tables, s0.tables.roots, s0.tables.invroots, s0.tables.roots2, s0.store.Values
      reads s1, s1.tables, s1.tables.roots, s1.tables.invroots, s1.tables.roots2, s1.store.Values
    {
      && s0.Valid() && s1.Valid() && s0.c == s1.c
      && s0 != s1 && s0.tables != s1.tables && s0.store.Values !! s1.store.Values
      && s0.randomX == s1.randomX && s0.randxUses == s1.randxUses
    }

    constructor (c: Params, x: int)
      requires c.Valid() && Reduced(x, c.p)
      ensures Valid() && fresh(s0) && fresh(s1) && fresh(s0.tables) && fresh(s1.tables) && s0.c == c && s0.randomX == x
    {
      s0 := new Server(c, x);
      s1 := new Server(c, x);
    }

    /** The top of both main loops; server 1 draws x and sends it. */
    method MaybeRefresh(x: int)
      requires Valid() && Reduced(x, s0.c.p)
      modifies s0, s0.store.Values, s1, s1.store.Values
      ensures Valid() && s0.store == old(s0.store) && s1.store == old(s1.store)
      ensures Clock(s0.randomX, s0.randxUses) == Ticked(Clock(old(s0.randomX), old(s0.randxUses)), Tick(x))
    {
      hide Server.EntryReady, Tables.Valid;
      s0.MaybeRefresh(x);
      assert s1.Valid();
      s1.MaybeRefresh(x);
      assert s0.Valid();
    }

    /** Both servers prepare for a batch: one domain, one point. */
    method PrepareBoth(numMulGates: nat, batch: nat, ghost N: nat) returns (pre0: CheckerPreComp, pre1: CheckerPreComp)
      requires Valid() && numMulGates < 0x8000_0000 && IsNextPower(numMulGates, N) && s0.c.Supports(N)
      modifies s0, s0.tables, s1, s1.tables
      ensures Valid() && DomainFor(s0.c, N).Valid()
      ensures s0.randomX == old(s0.randomX) && s0.randxUses == old(s0.randxUses) + batch
      ensures pre0.ReadyAt(DomainFor(s0.c, N), s0.randomX) && pre1.ReadyAt(DomainFor(s0.c, N), s0.randomX)
      ensures s0.store == old(s0.store)[N := pre0] && s1.store == old(s1.store)[N := pre1]
      ensures N in old(s0.store) ==> pre0 == old(s0.store)[N]
      ensures N in old(s1.store) ==> pre1 == old(s1.store)[N]
      ensures fresh(s0.store.Values - old(s0.store.Values)) && fresh(s1.store.Values - old(s1.store.Values))
    {
      hide Server.EntryReady, Tables.Valid, DomainFor, Params.Valid, Params.Supports, Domain.Valid,
           CheckerPreComp.ReadyAt;
      pre0 := s0.PrepareBatch(numMulGates, batch, N);
      assert s1.Valid();
      pre1 := s1.PrepareBatch(numMulGates, batch, N);
      assert s0.Valid();
    }

    /**
     Cache coherence: after any sequence of events the point and the counter are what the events make
     them, exactly the sizes prepared for are stored, and every stored precompute is as good as a new
     one at the current point.
     */
    method Run(events: seq<Event>)
      requires Valid() && forall i :: 0 <= i < |events| ==> events[i].Possible(s0.c)
      modifies s0, s0.tables, s0.store.Values, s1, s1.tables, s1.store.Values
      ensures Valid()
      ensures var now := ClockAfter(events, |events|, Clock(old(s0.randomX), old(s0.randxUses)));
              && s0.randomX == s1.randomX == now.x && s0.randxUses == s1.randxUses == now.uses
      ensures SizesAfter(s0.store.Keys, old(s0.store.Keys), events, |events|)
      ensures SizesAfter(s1.store.Keys, old(s1.store.Keys), events, |events|)
      ensures forall N :: N in s0.store ==> s0.EntryReady(N)
      ensures forall N :: N in s1.store ==> s1.EntryReady(N)
    {
      hide Server.EntryReady, Tables.Valid, DomainFor, Params.Valid, Params.Supports, SizesAfter, IsNextPower, Ticked;
      NothingPrepared(s0.store.Keys, events);
      NothingPrepared(s1.store.Keys, events);
      for i := 0 to |events|
        invariant Valid()
        invariant Clock(s0.randomX, s0.randxUses)
               == ClockAfter(events, i, Clock(old(s0.randomX), old(s0.randxUses)))
        invariant SizesAfter(s0.store.Keys, old(s0.store.Keys), events, i)
        invariant SizesAfter(s1.store.Keys, old(s1.store.Keys), events, i)
        invariant fresh(s0.store.Values - old(s0.store.Values)) && fresh(s1.store.Values - old(s1.store.Values))
      {
        ghost var was0, was1 := s0.store.Keys, s1.store.Keys;
        var N := Process(events[i]);
        SizesNext(was0, old(s0.store.Keys), events, i, s0.store.Keys, N);
        SizesNext(was1, old(s1.store.Keys), events, i, s1.store.Keys, N);
      }
    }

    /** One event. */
    method Process(e: Event) returns (ghost N: nat)
      requires Valid() && e.Possible(s0.c)
      modifies s0, s0.tables, s0.store.Values, s1, s1.tables, s1.store.Values
      ensures Valid() && Clock(s0.randomX, s0.randxUses) == Ticked(Clock(old(s0.randomX), old(s0.randxUses)), e)
      ensures e.Prepare? ==> IsNextPower(e.numMulGates, N)
      ensures s0.store.Keys == old(s0.store.Keys) + if e.Prepare? then {N} else {}
      ensures s1.store.Keys == old(s1.store.Keys) + if e.Prepare? then {N} else {}
      ensures fresh(s0.store.Values - old(s0.store.Values)) && fresh(s1.store.Values - old(s1.store.Values))
    {
      hide Server.EntryReady, Tables.Valid, DomainFor, Params.Valid, Params.Supports, IsNextPower;
      match e {
        case Tick(x) =>
          N := 0;
          MaybeRefresh(x);
        case Prepare(numMulGates, batch) =>
          N :| IsNextPower(numMulGates, N) && s0.c.Supports(N);
          var _, _ := PrepareBoth(numMulGates, batch, N);
      }
    }

    /** `validate_snips` on both servers: one verdict for each client, decided at the shared point. */
    method ValidateSnips(b: Batch, ghost N: nat)
      returns (ans: seq<bool>, ghost checkers0: seq<Checker>, ghost checkers1: seq<Checker>)
      requires Valid() && s0.c.Supports(N) && b.Fits(DomainFor(s0.c, N))
      modifies s0, s0.tables, s1, s1.tables, b.circuits0, b.circuits1
      ensures Valid() && s0.randxUses == old(s0.randxUses) + |b.circuits0| && s0.randomX == old(s0.randomX)
      ensures N in s0.store && s0.store == old(s0.store)[N := s0.store[N]]
      ensures N in s1.store && s1.store == old(s1.store)[N := s1.store[N]]
      ensures BatchDecided(ans, b, DomainFor(s0.c, N), s0.randomX, checkers0, checkers1)
    {
      hide Server.EntryReady, Tables.Valid, DomainFor, Params.Supports, Domain.Valid, CheckerPreComp.ReadyAt,
           BatchDecided, Distinct, BuiltFrom, Apart;
      FirstFits(b, DomainFor(s0.c, N));
      var pre0, pre1 := PrepareBoth(|b.circuits0[0].mulGates|, |b.circuits0|, N);
      ans, checkers0, checkers1 := CheckBatch(b, pre0, pre1, s0.randomX, s0.c.p, DomainFor(s0.c, N));
    }
  }

  lemma NothingPrepared(sizes: set<nat>, events: seq<Event>)
    ensures SizesAfter(sizes, sizes, events, 0)
  {
    hide IsNextPower;
  }

  lemma FirstFits(b: Batch, dom: Domain)
    requires b.Fits(dom)
    ensures IsNextPower(|b.circuits0[0].mulGates|, |dom.roots|) && |b.circuits0[0].mulGates| < 0x8000_0000
  {
    assert Submittable(b.circuits0[0], b.packets0[0], dom, b.numInputs);
  }
}
