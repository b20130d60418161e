/** `addBinaryShares`: ripple-carry addition of many XOR-shared numbers of different widths. */
module BinaryAdder {
  import opened RootsOfUnity
  import opened BoolOt
  import opened DaBits
  import opened Correlated
  import opened Ot

  // ---------- the lanes that are still active in a round ----------

  /** How many of the first i lanes have more than j bits. */
  function Active(numBits: seq<nat>, j: nat, i: nat): (r: nat)
    requires i <= |numBits|
    ensures r <= i
  {
    if i == 0 then 0 else Active(numBits, j, i - 1) + if numBits[i-1] > j then 1 else 0
  }

  lemma {:induction false} ActiveMonotone(numBits: seq<nat>, j: nat, i: nat, k: nat)
    requires i <= k <= |numBits|
    ensures Active(numBits, j, i) <= Active(numBits, j, k)
    decreases k
  {
    if i < k {
      ActiveMonotone(numBits, j, i, k - 1);
    }
  }

  function Min(a: nat, b: nat): nat {
    if a < b then a else b
  }

  /** Triples consumed by the first i lanes in the first j rounds. */
  ghost function Consumed(numBits: seq<nat>, j: nat, i: nat): nat
    requires i <= |numBits|
  {
    if i == 0 then 0 else Consumed(numBits, j, i - 1) + Min(j, numBits[i-1])
  }

  lemma {:induction false} ConsumedStep(numBits: seq<nat>, j: nat, i: nat)
    requires i <= |numBits|
    ensures Consumed(numBits, j + 1, i) == Consumed(numBits, j, i) + Active(numBits, j, i)
    ensures Consumed(numBits, j, i) <= Start(numBits, i)
    ensures Consumed(numBits, 0, i) == 0
  {
    if i > 0 {
      ConsumedStep(numBits, j, i - 1);
    }
  }

  lemma {:induction false} ConsumedAll(numBits: seq<nat>, j: nat, i: nat)
    requires i <= |numBits| && forall k :: 0 <= k < i ==> numBits[k] <= j
    ensures Consumed(numBits, j, i) == Start(numBits, i)
  {
    if i > 0 {
      ConsumedAll(numBits, j, i - 1);
    }
  }

  // ---------- one server's part of a round ----------

  /** Lane i has put its operands in its place of the batch and its sum bit in z. */
  predicate LanePrepared(numBits: seq<nat>, j: nat, i: nat, carry: bool, x: seq<bool>, y: seq<bool>,
                         zWas: seq<bool>, z: seq<bool>, xi: seq<bool>, yi: seq<bool>)
    requires i < |numBits| && numBits[i] <= |x| && numBits[i] <= |y|
  {
    if numBits[i] > j then
      var at := Active(numBits, j, i);
      && at < |xi| == |yi|
      && xi[at] == (carry != x[j]) && yi[at] == (carry != y[j])
      && z == zWas + [(carry != x[j]) != y[j]]
    else z == zWas
  }

  predicate Wide(x: seq<seq<bool>>, numBits: seq<nat>) {
    |x| == |numBits| && forall i :: 0 <= i < |x| ==> numBits[i] <= |x[i]|
  }

  lemma LaneSkipped(numBits: seq<nat>, j: nat, i: nat, carry: bool, x: seq<bool>, y: seq<bool>,
                    z: seq<bool>, xi: seq<bool>, yi: seq<bool>)
    requires i < |numBits| && numBits[i] <= j && numBits[i] <= |x| && numBits[i] <= |y|
    ensures LanePrepared(numBits, j, i, carry, x, y, z, z, xi, yi)
  {
  }

  lemma LaneAppended(numBits: seq<nat>, j: nat, i: nat, carry: bool, x: seq<bool>, y: seq<bool>,
                     z: seq<bool>, xi: seq<bool>, yi: seq<bool>)
    requires i < |numBits| && j < numBits[i] <= |x| && numBits[i] <= |y| && |xi| == |yi| == Active(numBits, j, i)
    ensures LanePrepared(numBits, j, i, carry, x, y, z, z + [(carry != x[j]) != y[j]],
                         xi + [carry != x[j]], yi + [carry != y[j]])
  {
  }

  lemma LaneKept(numBits: seq<nat>, j: nat, i: nat, carry: bool, x: seq<bool>, y: seq<bool>,
                 zWas: seq<bool>, z: seq<bool>, xi: seq<bool>, yi: seq<bool>, v: bool, w: bool)
    requires i < |numBits| && numBits[i] <= |x| && numBits[i] <= |y|
    requires LanePrepared(numBits, j, i, carry, x, y, zWas, z, xi, yi)
    ensures LanePrepared(numBits, j, i, carry, x, y, zWas, z, xi + [v], yi + [w])
  {
  }

  method PrepareRound(numBits: seq<nat>, j: nat, carry: array<bool>, x: seq<seq<bool>>, y: seq<seq<bool>>,
                      z: array<seq<bool>>)
    returns (xi: seq<bool>, yi: seq<bool>)
    requires Wide(x, numBits) && Wide(y, numBits) && carry.Length == z.Length == |numBits|
    modifies z
    ensures |xi| == |yi| == Active(numBits, j, |numBits|)
    ensures forall i :: 0 <= i < |numBits| ==>
              LanePrepared(numBits, j, i, carry[i], x[i], y[i], old(z[i]), z[i], xi, yi)
  {
    hide LanePrepared;
    xi, yi := [], [];
    for i := 0 to |numBits|
      invariant |xi| == |yi| == Active(numBits, j, i)
      invariant forall k :: 0 <= k < i ==> LanePrepared(numBits, j, k, carry[k], x[k], y[k], old(z[k]), z[k], xi, yi)
      invariant forall k :: i <= k < |numBits| ==> z[k] == old(z[k])
    {
      if j >= numBits[i] {
        LaneSkipped(numBits, j, i, carry[i], x[i], y[i], z[i], xi, yi);
        continue;
      }
      var v, w := carry[i] != x[i][j], carry[i] != y[i][j];
      LaneAppended(numBits, j, i, carry[i], x[i], y[i], z[i], xi, yi);
      forall k | 0 <= k < i
        ensures LanePrepared(numBits, j, k, carry[k], x[k], y[k], old(z[k]), z[k], xi + [v], yi + [w])
      {
        LaneKept(numBits, j, k, carry[k], x[k], y[k], old(z[k]), z[k], xi, yi, v, w);
      }
      z[i] := z[i] + [(carry[i] != x[i][j]) != y[i][j]];
      xi, yi := xi + [v], yi + [w];
    }
  }

  method ApplyCarries(numBits: seq<nat>, j: nat, carry: array<bool>, newCarry: seq<bool>)
    requires carry.Length == |numBits| && |newCarry| == Active(numBits, j, |numBits|)
    modifies carry
    ensures forall i :: 0 <= i < |numBits| ==> CarryApplied(numBits, j, i, old(carry[i]), carry[i], newCarry)
  {
    var idx := 0;
    for i := 0 to |numBits|
      invariant idx == Active(numBits, j, i)
      invariant forall k :: 0 <= k < i ==> CarryApplied(numBits, j, k, old(carry[k]), carry[k], newCarry)
      invariant forall k :: i <= k < |numBits| ==> carry[k] == old(carry[k])
    {
      if j >= numBits[i] {
        continue;
      }
      ActiveMonotone(numBits, j, i + 1, |numBits|);
      carry[i] := carry[i] != newCarry[idx];
      idx := idx + 1;
    }
  }

  predicate CarryApplied(numBits: seq<nat>, j: nat, i: nat, was: bool, now: bool, newCarry: seq<bool>)
    requires i < |numBits|
  {
    if numBits[i] > j then Active(numBits, j, i) < |newCarry| && now == (was != newCarry[Active(numBits, j, i)])
    else now == was
  }

  // ---------- one lane of both servers ----------

  /** The first m bits have been added. */
  ghost predicate LaneSum(x0: seq<bool>, x1: seq<bool>, y0: seq<bool>, y1: seq<bool>, z0: seq<bool>, z1: seq<bool>,
                          c0: bool, c1: bool, m: nat)
  {
    && m <= |x0| && m <= |x1| && m <= |y0| && m <= |y1| && |z0| == |z1| == m
    && XorVal(z0, z1, m) + Pow2(m) * AsBit(c0 != c1) == XorVal(x0, x1, m) + XorVal(y0, y1, m)
  }

  lemma FullAdder(x0: seq<bool>, x1: seq<bool>, y0: seq<bool>, y1: seq<bool>, z0: seq<bool>, z1: seq<bool>,
                  c0: bool, c1: bool, n0: bool, n1: bool, m: nat)
    requires LaneSum(x0, x1, y0, y1, z0, z1, c0, c1, m) && m < |x0| && m < |x1| && m < |y0| && m < |y1|
    requires (n0 != n1) == (((c0 != x0[m]) != (c1 != x1[m])) && ((c0 != y0[m]) != (c1 != y1[m])))
    ensures LaneSum(x0, x1, y0, y1, z0 + [(c0 != x0[m]) != y0[m]], z1 + [(c1 != x1[m]) != y1[m]],
                    c0 != n0, c1 != n1, m + 1)
  {
    XorValPrefix(z0, z1, (c0 != x0[m]) != y0[m], (c1 != x1[m]) != y1[m], m);
  }

  /** One round of a lane, active or not. */
  lemma LaneRound(numBits: seq<nat>, j: nat, i: nat, x0: seq<bool>, x1: seq<bool>, y0: seq<bool>, y1: seq<bool>,
                  zWas0: seq<bool>, zWas1: seq<bool>, z0: seq<bool>, z1: seq<bool>,
                  cWas0: bool, cWas1: bool, c0: bool, c1: bool,
                  xi0: seq<bool>, yi0: seq<bool>, xi1: seq<bool>, yi1: seq<bool>, n0: seq<bool>, n1: seq<bool>)
    requires i < |numBits| && numBits[i] <= |x0| && numBits[i] <= |x1| && numBits[i] <= |y0| && numBits[i] <= |y1|
    requires LaneSum(x0, x1, y0, y1, zWas0, zWas1, cWas0, cWas1, Min(j, numBits[i]))
    requires LanePrepared(numBits, j, i, cWas0, x0, y0, zWas0, z0, xi0, yi0)
    requires LanePrepared(numBits, j, i, cWas1, x1, y1, zWas1, z1, xi1, yi1)
    requires CarryApplied(numBits, j, i, cWas0, c0, n0) && CarryApplied(numBits, j, i, cWas1, c1, n1)
    requires |xi0| == |xi1| == |n0| == |n1|
    requires forall k :: 0 <= k < |xi0| && k < |yi0| && k < |yi1| ==>
               ((n0[k] != n1[k]) <==> (xi0[k] != xi1[k]) && (yi0[k] != yi1[k]))
    ensures LaneSum(x0, x1, y0, y1, z0, z1, c0, c1, Min(j + 1, numBits[i]))
  {
    hide LaneSum;
    if numBits[i] > j {
      var at := Active(numBits, j, i);
      FullAdder(x0, x1, y0, y1, zWas0, zWas1, cWas0, cWas1, n0[at], n1[at], j);
    }
  }

  ghost predicate LaneSums(numBits: seq<nat>, x0: seq<seq<bool>>, x1: seq<seq<bool>>, y0: seq<seq<bool>>,
                           y1: seq<seq<bool>>,
                           z0: seq<seq<bool>>, z1: seq<seq<bool>>, c0: seq<bool>, c1: seq<bool>, j: nat)
  {
    && |x0| == |x1| == |y0| == |y1| == |z0| == |z1| == |c0| == |c1| == |numBits|
    && forall i :: 0 <= i < |numBits| ==>
         LaneSum(x0[i], x1[i], y0[i], y1[i], z0[i], z1[i], c0[i], c1[i], Min(j, numBits[i]))
  }

  /** Round j of both servers. */
  method AddRound(store: CorrelatedStores, numBits: seq<nat>, j: nat,
                  x0: seq<seq<bool>>, x1: seq<seq<bool>>, y0: seq<seq<bool>>, y1: seq<seq<bool>>,
                  z0: array<seq<bool>>, z1: array<seq<bool>>, carry0: array<bool>, carry1: array<bool>)
    requires store.Valid() && z0 != z1 && carry0 != carry1
    requires Wide(x0, numBits) && Wide(x1, numBits) && Wide(y0, numBits) && Wide(y1, numBits)
    requires z0.Length == z1.Length == carry0.Length == carry1.Length == |numBits|
    requires LaneSums(numBits, x0, x1, y0, y1, z0[..], z1[..], carry0[..], carry1[..], j)
    modifies store, z0, z1, carry0, carry1
    ensures store.Valid() && store.BitsKept() && store.TriplesGrow()
    ensures store.usedTriples == old(store.usedTriples) + Active(numBits, j, |numBits|)
    ensures Active(numBits, j, |numBits|) <= old(|store.triples0|) ==>
              && store.tripleRounds == old(store.tripleRounds)
              && |store.triples0| == old(|store.triples0|) - Active(numBits, j, |numBits|)
    ensures LaneSums(numBits, x0, x1, y0, y1, z0[..], z1[..], carry0[..], carry1[..], j + 1)
  {
    hide LanePrepared, CarryApplied, LaneSum, AreDaBits, AreBoolTriples, Active;
    ghost var zWas0, zWas1, cWas0, cWas1 := z0[..], z1[..], carry0[..], carry1[..];
    var xi0, yi0 := PrepareRound(numBits, j, carry0, x0, y0, z0);
    var xi1, yi1 := PrepareRound(numBits, j, carry1, x1, y1, z1);
    var n0, n1 := store.MultiplyBoolShares(xi0, yi0, xi1, yi1);
    ApplyCarries(numBits, j, carry0, n0);
    ApplyCarries(numBits, j, carry1, n1);
    forall i | 0 <= i < |numBits|
      ensures LaneSum(x0[i], x1[i], y0[i], y1[i], z0[i], z1[i], carry0[i], carry1[i], Min(j + 1, numBits[i]))
    {
      LaneRound(numBits, j, i, x0[i], x1[i], y0[i], y1[i], zWas0[i], zWas1[i], z0[i], z1[i],
                cWas0[i], cWas1[i], carry0[i], carry1[i], xi0, yi0, xi1, yi1, n0, n1);
    }
  }

  method MaxBits(numBits: seq<nat>) returns (maxBits: nat)
    ensures forall i :: 0 <= i < |numBits| ==> numBits[i] <= maxBits
    ensures maxBits == 0 || maxBits in numBits
  {
    maxBits := 0;
    for i := 0 to |numBits|
      invariant forall k :: 0 <= k < i ==> numBits[k] <= maxBits
      invariant maxBits == 0 || maxBits in numBits
    {
      maxBits := if numBits[i] > maxBits then numBits[i] else maxBits;
    }
  }

  /** Lane i of the result: z + 2^bits carry == x + y. */
  ghost predicate Added(x0: seq<bool>, x1: seq<bool>, y0: seq<bool>, y1: seq<bool>, z0: seq<bool>, z1: seq<bool>,
                        c0: bool, c1: bool, bits: nat)
    requires bits <= |x0| && bits <= |x1| && bits <= |y0| && bits <= |y1|
  {
    && |z0| == |z1| == bits
    && XorVal(z0, z1, bits) + Pow2(bits) * AsBit(c0 != c1) == XorVal(x0, x1, bits) + XorVal(y0, y1, bits)
  }

  method AddRounds(store: CorrelatedStores, numBits: seq<nat>, maxBits: nat,
                   x0: seq<seq<bool>>, x1: seq<seq<bool>>, y0: seq<seq<bool>>, y1: seq<seq<bool>>,
                   z0: array<seq<bool>>, z1: array<seq<bool>>, carry0: array<bool>, carry1: array<bool>)
    requires store.Valid() && z0 != z1 && carry0 != carry1
    requires Wide(x0, numBits) && Wide(x1, numBits) && Wide(y0, numBits) && Wide(y1, numBits)
    requires z0.Length == z1.Length == carry0.Length == carry1.Length == |numBits|
    requires |store.triples0| >= Start(numBits, |numBits|)
    requires LaneSums(numBits, x0, x1, y0, y1, z0[..], z1[..], carry0[..], carry1[..], 0)
    modifies store, z0, z1, carry0, carry1
    ensures store.Valid() && store.BitsKept() && store.TriplesGrow() && store.tripleRounds == old(store.tripleRounds)
    ensures store.usedTriples == old(store.usedTriples) + Consumed(numBits, maxBits, |numBits|)
    ensures LaneSums(numBits, x0, x1, y0, y1, z0[..], z1[..], carry0[..], carry1[..], maxBits)
  {
    hide Active, Consumed, Start, AreDaBits, AreBoolTriples, LaneSums, Wide;
    ghost var n := |numBits|;
    ConsumedStep(numBits, 0, n);
    for j := 0 to maxBits
      invariant store.Valid() && store.BitsKept() && store.TriplesGrow()
      invariant store.tripleRounds == old(store.tripleRounds)
      invariant store.usedTriples == old(store.usedTriples) + Consumed(numBits, j, n)
      invariant |store.triples0| >= Start(numBits, n) - Consumed(numBits, j, n)
      invariant LaneSums(numBits, x0, x1, y0, y1, z0[..], z1[..], carry0[..], carry1[..], j)
    {
      ConsumedStep(numBits, j, n);
      ConsumedStep(numBits, j + 1, n);
      AddRound(store, numBits, j, x0, x1, y0, y1, z0, z1, carry0, carry1);
    }
  }

  /** All lanes are added, every triple is checked for in advance and used once. */
  method AddBinaryShares(store: CorrelatedStores, numBits: seq<nat>,
                         x0: seq<seq<bool>>, x1: seq<seq<bool>>, y0: seq<seq<bool>>, y1: seq<seq<bool>>)
    returns (z0: array<seq<bool>>, z1: array<seq<bool>>, carry0: array<bool>, carry1: array<bool>)
    requires store.Valid()
    requires Wide(x0, numBits) && Wide(x1, numBits) && Wide(y0, numBits) && Wide(y1, numBits)
    modifies store
    ensures store.Valid() && store.BitsKept() && store.TriplesGrow()
    ensures store.usedTriples == old(store.usedTriples) + Start(numBits, |numBits|)
    ensures store.tripleRounds
         == old(store.tripleRounds) + if Start(numBits, |numBits|) <= old(|store.triples0|) then 0 else 1
    ensures z0.Length == z1.Length == carry0.Length == carry1.Length == |numBits|
    ensures forall i :: 0 <= i < |numBits| ==>
              Added(x0[i], x1[i], y0[i], y1[i], z0[i], z1[i], carry0[i], carry1[i], numBits[i])
  {
    hide Active, Consumed, Start, AreDaBits, AreBoolTriples, LaneSums, Wide;
    var n := |numBits|;
    carry0 := new bool[n](_ => false);
    carry1 := new bool[n](_ => false);
    z0 := new seq<bool>[n](_ => []);
    z1 := new seq<bool>[n](_ => []);
    var maxBits := MaxBits(numBits);
    var totalBits := Start(numBits, n);
    store.CheckBoolTriples(totalBits);
    NothingAdded(numBits, x0, x1, y0, y1, z0[..], z1[..], carry0[..], carry1[..]);
    AddRounds(store, numBits, maxBits, x0, x1, y0, y1, z0, z1, carry0, carry1);
    ConsumedAll(numBits, maxBits, n);
    AllAdded(numBits, x0, x1, y0, y1, z0[..], z1[..], carry0[..], carry1[..], maxBits);
  }

  lemma AllAdded(numBits: seq<nat>, x0: seq<seq<bool>>, x1: seq<seq<bool>>, y0: seq<seq<bool>>, y1: seq<seq<bool>>,
                 z0: seq<seq<bool>>, z1: seq<seq<bool>>, c0: seq<bool>, c1: seq<bool>, j: nat)
    requires Wide(x0, numBits) && Wide(x1, numBits) && Wide(y0, numBits) && Wide(y1, numBits)
    requires LaneSums(numBits, x0, x1, y0, y1, z0, z1, c0, c1, j)
    requires forall i :: 0 <= i < |numBits| ==> numBits[i] <= j
    ensures forall i :: 0 <= i < |numBits| ==>
              Added(x0[i], x1[i], y0[i], y1[i], z0[i], z1[i], c0[i], c1[i], numBits[i])
  {
    forall i | 0 <= i < |numBits|
      ensures Added(x0[i], x1[i], y0[i], y1[i], z0[i], z1[i], c0[i], c1[i], numBits[i])
    {
      assert LaneSum(x0[i], x1[i], y0[i], y1[i], z0[i], z1[i], c0[i], c1[i], Min(j, numBits[i]));
    }
  }

  lemma NothingAdded(numBits: seq<nat>, x0: seq<seq<bool>>, x1: seq<seq<bool>>, y0: seq<seq<bool>>, y1: seq<seq<bool>>,
                     z0: seq<seq<bool>>, z1: seq<seq<bool>>, c0: seq<bool>, c1: seq<bool>)
    requires Wide(x0, numBits) && Wide(x1, numBits) && Wide(y0, numBits) && Wide(y1, numBits)
    requires |z0| == |z1| == |c0| == |c1| == |numBits|
    requires forall i :: 0 <= i < |numBits| ==> z0[i] == z1[i] == [] && c0[i] == c1[i]
    ensures LaneSums(numBits, x0, x1, y0, y1, z0, z1, c0, c1, 0)
  {
  }
}
