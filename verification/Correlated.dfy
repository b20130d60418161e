/**
 The cached store of correlated randomness: correlated.cpp.  One object holds the
 stores of both servers; each method is a pair of matching calls.
 */
module Correlated {
  import opened Modular
  import opened Words
  import opened BoolOt
  import opened DaBits

  // ---------- local steps of one server ----------

  /** After the exchange: the server's share of the bit. */
  function FinishBit(serverNum: nat, bp: int, v: bool, p: Modulus): int {
    if v then (serverNum - bp) % p else bp
  }

  lemma BitFromDaBit(x0: bool, x1: bool, d0: DaBit, d1: DaBit, p: Modulus)
    requires IsDaBit(d0, d1, p)
    ensures var v := (x0 != d0.b2) != (x1 != d1.b2);
            var y0, y1 := FinishBit(0, d0.bp, v, p), FinishBit(1, d1.bp, v, p);
            Reduced(y0, p) && Reduced(y1, p) && Cong(y0 + y1, AsBit(x0 != x1), p)
  {
    hide Cong;
    var v := (x0 != d0.b2) != (x1 != d1.b2);
    if v {
      CongMod(0 - d0.bp, p);
      CongMod(1 - d1.bp, p);
      CongAdd((0 - d0.bp) % p, 0 - d0.bp, (1 - d1.bp) % p, 1 - d1.bp, p);
      CongIntro(1, 1, 0, p);
      CongSub(1, 1, d0.bp + d1.bp, AsBit(d0.b2 != d1.b2), p);
      CongTrans((0 - d0.bp) % p + (1 - d1.bp) % p, 1 - (d0.bp + d1.bp), AsBit(x0 != x1), p);
    }
  }

  /** Additive shares of one bit. */
  ghost predicate BitShared(y0: int, y1: int, b: bool, p: Modulus) {
    Reduced(y0, p) && Reduced(y1, p) && Cong(y0 + y1, AsBit(b), p)
  }

  /** One server's blinded bit, made with this daBit. */
  ghost predicate BlindedWith(x: bool, v: bool, bp: int, d: DaBit) {
    v == (x != d.b2) && bp == d.bp
  }

  /** The two results for one bit, made with this pair of daBits. */
  ghost predicate ConvertedWith(x0: bool, x1: bool, y0: int, y1: int, d0: DaBit, d1: DaBit, p: Modulus) {
    var v := (x0 != d0.b2) != (x1 != d1.b2);
    y0 == FinishBit(0, d0.bp, v, p) && y1 == FinishBit(1, d1.bp, v, p)
  }

  lemma BlindedConverted(x0: bool, x1: bool, v0: bool, v1: bool, bp0: int, bp1: int, d0: DaBit, d1: DaBit, p: Modulus)
    requires BlindedWith(x0, v0, bp0, d0) && BlindedWith(x1, v1, bp1, d1)
    ensures ConvertedWith(x0, x1, FinishBit(0, bp0, v0 != v1, p), FinishBit(1, bp1, v1 != v0, p), d0, d1, p)
  {
  }

  /** With a valid daBit the results are shares of the XORed bits. */
  lemma ConvertedShared(x0: bool, x1: bool, y0: int, y1: int, d0: DaBit, d1: DaBit, p: Modulus)
    requires ConvertedWith(x0, x1, y0, y1, d0, d1, p) && IsDaBit(d0, d1, p)
    ensures BitShared(y0, y1, x0 != x1, p)
  {
    BitFromDaBit(x0, x1, d0, d1, p);
  }

  /** One server's blinded factors of a product and its share c. */
  datatype Factors = Factors(d: bool, e: bool, c: bool)

  /** One server's share of a product, after the exchange of d and e. */
  function FinishProduct(serverNum: nat, x: bool, y: bool, mine: Factors, other: Factors): bool {
    var d, e := mine.d != other.d, mine.e != other.e;
    var z := mine.c != ((x && e) != (y && d));
    if serverNum == 0 then z != (d && e) else z
  }

  /** One server's blinded factors, made with this triple. */
  ghost predicate FactorsWith(x: bool, y: bool, f: Factors, t: BoolTriple) {
    f == Factors(x != t.a, y != t.b, t.c)
  }

  /** The two results for one product, made with this pair of triples. */
  ghost predicate MultipliedWith(x0: bool, y0: bool, x1: bool, y1: bool, z0: bool, z1: bool, t0: BoolTriple,
                                 t1: BoolTriple) {
    var f0, f1 := Factors(x0 != t0.a, y0 != t0.b, t0.c), Factors(x1 != t1.a, y1 != t1.b, t1.c);
    z0 == FinishProduct(0, x0, y0, f0, f1) && z1 == FinishProduct(1, x1, y1, f1, f0)
  }

  /** With a valid triple the results are XOR shares of the product. */
  lemma MultipliedShared(x0: bool, y0: bool, x1: bool, y1: bool, z0: bool, z1: bool, t0: BoolTriple, t1: BoolTriple)
    requires MultipliedWith(x0, y0, x1, y1, z0, z1, t0, t1) && IsBoolTriple(t0, t1)
    ensures (z0 != z1) <==> (x0 != x1) && (y0 != y1)
  {
  }

  method FinishBits(serverNum: nat, xp: seq<int>, vThis: seq<bool>, vOther: seq<bool>,
                    p: Modulus) returns (ret: seq<int>)
    requires |xp| == |vThis| == |vOther|
    ensures |ret| == |xp|
    ensures forall i :: 0 <= i < |xp| ==> ret[i] == FinishBit(serverNum, xp[i], vThis[i] != vOther[i], p)
  {
    hide FinishBit;
    ret := [];
    for i := 0 to |xp|
      invariant |ret| == i
      invariant forall k :: 0 <= k < i ==> ret[k] == FinishBit(serverNum, xp[k], vThis[k] != vOther[k], p)
    {
      ret := ret + [FinishBit(serverNum, xp[i], vThis[i] != vOther[i], p)];
    }
  }

  method FinishProducts(serverNum: nat, x: seq<bool>, y: seq<bool>, mine: seq<Factors>, other: seq<Factors>)
    returns (z: seq<bool>)
    requires |x| == |y| == |mine| == |other|
    ensures |z| == |x|
    ensures forall i :: 0 <= i < |x| ==> z[i] == FinishProduct(serverNum, x[i], y[i], mine[i], other[i])
  {
    hide FinishProduct;
    z := [];
    for i := 0 to |x|
      invariant |z| == i
      invariant forall k :: 0 <= k < i ==> z[k] == FinishProduct(serverNum, x[k], y[k], mine[k], other[k])
    {
      z := z + [FinishProduct(serverNum, x[i], y[i], mine[i], other[i])];
    }
  }

  /** A batch made by server 0 alone, which sends the other halves over. */
  method MakeLocalDaBits(n: nat, p: Modulus) returns (d0: seq<DaBit>, d1: seq<DaBit>)
    requires p > 2
    ensures |d0| == |d1| == n
    ensures p % 2 == 1 ==> AreDaBits(d0, d1, p)
  {
    hide IsDaBit;
    d0, d1 := [], [];
    for i := 0 to n
      invariant |d0| == |d1| == i
      invariant p % 2 == 1 ==> AreDaBits(d0, d1, p)
    {
      var bit0, bit1 := MakeLocalDaBit(p);
      d0, d1 := d0 + [bit0], d1 + [bit1];
    }
  }

  lemma AreDaBitsAppend(m0: seq<DaBit>, m1: seq<DaBit>, d0: seq<DaBit>, d1: seq<DaBit>, p: Modulus)
    requires AreDaBits(m0, m1, p) && AreDaBits(d0, d1, p)
    ensures AreDaBits(m0 + d0, m1 + d1, p)
  {
    hide IsDaBit;
  }

  lemma DropAppend<T>(s: seq<T>, t: seq<T>, k: nat)
    requires k <= |s|
    ensures (s + t)[k..] == s[k..] + t
  {
  }

  // ---------- the stores ----------

  /** The stock of triples after a check for n: what is missing is made, but at least a batch. */
  function Topped(stock: nat, n: nat, batchSize: nat): (r: nat)
    ensures r >= n && r >= stock
  {
    if n <= stock then stock
    else if n - stock > batchSize then n
    else stock + batchSize
  }

  class CorrelatedStores {
    const p: Modulus
    const batchSize: nat
    const lazy: bool
    /** `dabit_store` and `btriple_store` of server 0 and of server 1. */
    var dabits0: seq<DaBit>
    var dabits1: seq<DaBit>
    var triples0: seq<BoolTriple>
    var triples1: seq<BoolTriple>
    /** Everything generated so far, how much of it was consumed, and in how many rounds it was made. */
    ghost var madeBits0: seq<DaBit>
    ghost var madeBits1: seq<DaBit>
    ghost var usedBits: nat
    ghost var madeTriples0: seq<BoolTriple>
    ghost var madeTriples1: seq<BoolTriple>
    ghost var usedTriples: nat
    ghost var bitRounds: nat
    ghost var tripleRounds: nat

    /** The modulus suits the way daBits are made. */
    predicate Sound() {
      if lazy then p % 2 == 1 else 2 * p + 1 < TWO64
    }

    /** Lockstep: the stores are the unconsumed rest of one common history of valid pairs. */
    ghost predicate Valid()
      reads this
    {
      && p > 2 && (!lazy ==> p < TWO64)
      && usedBits <= |madeBits0| == |madeBits1|
      && dabits0 == madeBits0[usedBits..] && dabits1 == madeBits1[usedBits..]
      && (Sound() ==> AreDaBits(madeBits0, madeBits1, p))
      && usedTriples <= |madeTriples0| == |madeTriples1|
      && triples0 == madeTriples0[usedTriples..] && triples1 == madeTriples1[usedTriples..]
      && AreBoolTriples(madeTriples0, madeTriples1)
    }

    /** Nothing about the triples changes. */
    twostate predicate TriplesKept()
      reads this
    {
      && triples0 == old(triples0) && triples1 == old(triples1)
      && madeTriples0 == old(madeTriples0) && madeTriples1 == old(madeTriples1)
      && usedTriples == old(usedTriples) && tripleRounds == old(tripleRounds)
    }

    twostate predicate BitsKept()
      reads this
    {
      && dabits0 == old(dabits0) && dabits1 == old(dabits1)
      && madeBits0 == old(madeBits0) && madeBits1 == old(madeBits1)
      && usedBits == old(usedBits) && bitRounds == old(bitRounds)
    }

    /** The history only grows. */
    twostate predicate BitsGrow()
      reads this
    {
      old(madeBits0) <= madeBits0 && old(madeBits1) <= madeBits1 && old(bitRounds) <= bitRounds
    }

    twostate predicate TriplesGrow()
      reads this
    {
      old(madeTriples0) <= madeTriples0 && old(madeTriples1) <= madeTriples1 && old(tripleRounds) <= tripleRounds
    }

    constructor (p: Modulus, batchSize: nat, lazy: bool)
      requires p > 2 && (!lazy ==> p < TWO64)
      ensures Valid() && dabits0 == [] && triples0 == []
      ensures usedBits == usedTriples == bitRounds == tripleRounds == 0
      ensures this.p == p && this.batchSize == batchSize && this.lazy == lazy
    {
      this.p, this.batchSize, this.lazy := p, batchSize, lazy;
      dabits0, dabits1, triples0, triples1 := [], [], [], [];
      madeBits0, madeBits1, usedBits, bitRounds := [], [], 0, 0;
      madeTriples0, madeTriples1, usedTriples, tripleRounds := [], [], 0, 0;
    }

    // ----- daBits -----

    method AddDaBits(n: nat)
      requires Valid()
      modifies this
      ensures Valid() && TriplesKept() && BitsGrow() && usedBits == old(usedBits)
      ensures |dabits0| == |dabits1| == old(|dabits0|) + n && bitRounds == old(bitRounds) + 1
    {
      hide AreDaBits, AreBoolTriples;
      var numToMake := n;
      var d0, d1;
      if !lazy {
        d0, d1 := GenerateDaBit(numToMake, p);
      } else {
        d0, d1 := MakeLocalDaBits(numToMake, p);
      }
      if Sound() {
        AreDaBitsAppend(madeBits0, madeBits1, d0, d1, p);
      }
      DropAppend(madeBits0, d0, usedBits);
      DropAppend(madeBits1, d1, usedBits);
      dabits0, dabits1 := dabits0 + d0, dabits1 + d1;
      madeBits0, madeBits1, bitRounds := madeBits0 + d0, madeBits1 + d1, bitRounds + 1;
    }

    method CheckDaBits(n: nat)
      requires Valid()
      modifies this
      ensures Valid() && TriplesKept() && BitsGrow() && usedBits == old(usedBits)
      ensures if n <= old(|dabits0|) then BitsKept() else |dabits0| == n && bitRounds == old(bitRounds) + 1
    {
      // each server tests its own store; both generate or neither does
      var add0, add1 := |dabits0| < n, |dabits1| < n;
      assert add0 == add1;
      if add0 {
        AddDaBits(n - |dabits0|);
      }
    }

    method GetDaBit() returns (d0: DaBit, d1: DaBit)
      requires Valid()
      modifies this
      ensures Valid() && TriplesKept() && BitsGrow() && usedBits == old(usedBits) + 1
      ensures d0 == madeBits0[old(usedBits)] && d1 == madeBits1[old(usedBits)]
      ensures Sound() ==> IsDaBit(d0, d1, p)
      ensures old(|dabits0|) > 0 ==> madeBits0 == old(madeBits0)
      ensures |dabits0| == if old(|dabits0|) > 0 then old(|dabits0|) - 1 else 0
      ensures bitRounds == old(bitRounds) + if old(|dabits0|) > 0 then 0 else 1
    {
      hide IsDaBit, IsBoolTriple;
      CheckDaBits(1);
      d0, d1 := dabits0[0], dabits1[0];
      dabits0, dabits1 := dabits0[1..], dabits1[1..];
      usedBits := usedBits + 1;
    }

    /** No Boolean triples are made here: their target is 0. */
    method MaybeUpdate()
      requires Valid()
      modifies this
      ensures Valid() && TriplesKept() && BitsGrow() && usedBits == old(usedBits)
      ensures if old(|dabits0|) < batchSize / 2 then
                |dabits0| == old(|dabits0|) + 2 * batchSize && bitRounds == old(bitRounds) + 1
              else BitsKept()
    {
      var makeDa := |dabits0| < batchSize / 2;
      assert makeDa == (|dabits1| < batchSize / 2);
      var daTarget := if makeDa then 2 else 0;
      if |dabits0| < daTarget * batchSize {
        AddDaBits(daTarget * batchSize);
      }
    }

    // ----- Boolean triples -----

    method AddBoolTriples(n: nat)
      requires Valid()
      modifies this
      ensures Valid() && BitsKept() && TriplesGrow() && usedTriples == old(usedTriples)
      ensures |triples0| == |triples1| == old(|triples0|) + if n > batchSize then n else batchSize
      ensures tripleRounds == old(tripleRounds) + 1
    {
      hide IsDaBit, IsBoolTriple;
      var numToMake := if n > batchSize then n else batchSize;
      var t0, t1 := GenBooleanBeaverTriples(numToMake);
      triples0, triples1 := triples0 + t0, triples1 + t1;
      madeTriples0, madeTriples1, tripleRounds := madeTriples0 + t0, madeTriples1 + t1, tripleRounds + 1;
    }

    method CheckBoolTriples(n: nat)
      requires Valid()
      modifies this
      ensures Valid() && BitsKept() && TriplesGrow() && usedTriples == old(usedTriples) && |triples0| >= n
      ensures |triples0| == Topped(old(|triples0|), n, batchSize)
      ensures if n <= old(|triples0|) then TriplesKept() else tripleRounds == old(tripleRounds) + 1
    {
      assert (|triples0| < n) == (|triples1| < n);
      if |triples0| < n {
        AddBoolTriples(n - |triples0|);
      }
    }

    method GetBoolTriple() returns (t0: BoolTriple, t1: BoolTriple)
      requires Valid()
      modifies this
      ensures Valid() && BitsKept() && TriplesGrow() && usedTriples == old(usedTriples) + 1
      ensures t0 == madeTriples0[old(usedTriples)] && t1 == madeTriples1[old(usedTriples)]
      ensures IsBoolTriple(t0, t1)
      ensures |triples0| == Topped(old(|triples0|), 1, batchSize) - 1
      ensures tripleRounds == old(tripleRounds) + if old(|triples0|) > 0 then 0 else 1
    {
      hide IsDaBit, IsBoolTriple;
      CheckBoolTriples(1);
      t0, t1 := triples0[0], triples1[0];
      triples0, triples1 := triples0[1..], triples1[1..];
      usedTriples := usedTriples + 1;
    }

    // ----- conversion of single bits -----

    /** Consumes one daBit for each bit, in order, and blinds it. */
    method BlindBits(x0: seq<bool>, x1: seq<bool>)
      returns (v0: seq<bool>, v1: seq<bool>, xp0: seq<int>, xp1: seq<int>)
      requires Valid() && |x0| == |x1| <= |dabits0|
      modifies this
      ensures Valid() && TriplesKept() && usedBits == old(usedBits) + |x0| && |dabits0| == old(|dabits0|) - |x0|
      ensures madeBits0 == old(madeBits0) && madeBits1 == old(madeBits1) && bitRounds == old(bitRounds)
      ensures |v0| == |v1| == |xp0| == |xp1| == |x0|
      ensures forall i :: 0 <= i < |x0| ==>
                && BlindedWith(x0[i], v0[i], xp0[i], madeBits0[old(usedBits)+i])
                && BlindedWith(x1[i], v1[i], xp1[i], madeBits1[old(usedBits)+i])
    {
      hide AreDaBits, AreBoolTriples, IsDaBit;
      v0, v1, xp0, xp1 := [], [], [], [];
      for i := 0 to |x0|
        invariant Valid() && TriplesKept() && usedBits == old(usedBits) + i
        invariant madeBits0 == old(madeBits0) && madeBits1 == old(madeBits1) && bitRounds == old(bitRounds)
        invariant |dabits0| == old(|dabits0|) - i && |v0| == |v1| == |xp0| == |xp1| == i
        invariant forall k :: 0 <= k < i ==>
                    && BlindedWith(x0[k], v0[k], xp0[k], madeBits0[old(usedBits)+k])
                    && BlindedWith(x1[k], v1[k], xp1[k], madeBits1[old(usedBits)+k])
      {
        var d0, d1 := GetDaBit();
        v0, v1 := v0 + [x0[i] != d0.b2], v1 + [x1[i] != d1.b2];
        xp0, xp1 := xp0 + [d0.bp], xp1 + [d1.bp];
      }
    }

    /** The results for all bits use the daBits from position `at` of the history on. */
    ghost predicate ConvertedFrom(x0: seq<bool>, x1: seq<bool>, y0: seq<int>, y1: seq<int>, at: nat)
      reads this
    {
      && |y0| == |y1| == |x0| == |x1| && at + |x0| <= |madeBits0| == |madeBits1|
      && forall i :: 0 <= i < |x0| ==> ConvertedWith(x0[i], x1[i], y0[i], y1[i], madeBits0[at+i], madeBits1[at+i], p)
    }

    /** `b2a_daBit_single`: additive shares of the XORed bits, in at most one generation round. */
    method B2aDaBitSingle(x0: seq<bool>, x1: seq<bool>) returns (xp0: seq<int>, xp1: seq<int>)
      requires Valid() && |x0| == |x1|
      modifies this
      ensures Valid() && TriplesKept() && BitsGrow() && usedBits == old(usedBits) + |x0|
      ensures bitRounds == old(bitRounds) + if |x0| <= old(|dabits0|) then 0 else 1
      ensures |dabits0| == if |x0| <= old(|dabits0|) then old(|dabits0|) - |x0| else 0
      ensures |xp0| == |xp1| == |x0| && ConvertedFrom(x0, x1, xp0, xp1, old(usedBits))
      ensures Sound() ==> forall i :: 0 <= i < |x0| ==> BitShared(xp0[i], xp1[i], x0[i] != x1[i], p)
    {
      hide AreDaBits, AreBoolTriples, BitShared, FinishBit, BlindedWith, ConvertedWith;
      CheckDaBits(|x0|);
      var v0, v1, bp0, bp1 := BlindBits(x0, x1);
      xp0 := FinishBits(0, bp0, v0, v1, p);
      xp1 := FinishBits(1, bp1, v1, v0, p);
      forall i | 0 <= i < |x0|
        ensures ConvertedWith(x0[i], x1[i], xp0[i], xp1[i], madeBits0[old(usedBits)+i], madeBits1[old(usedBits)+i], p)
      {
        BlindedConverted(x0[i], x1[i], v0[i], v1[i], bp0[i], bp1[i],
                         madeBits0[old(usedBits)+i], madeBits1[old(usedBits)+i], p);
      }
      if Sound() {
        AllConvertedShared(x0, x1, xp0, xp1, old(usedBits));
      }
    }

    lemma AllConvertedShared(x0: seq<bool>, x1: seq<bool>, y0: seq<int>, y1: seq<int>, at: nat)
      requires ConvertedFrom(x0, x1, y0, y1, at) && AreDaBits(madeBits0, madeBits1, p)
      ensures forall i :: 0 <= i < |x0| ==> BitShared(y0[i], y1[i], x0[i] != x1[i], p)
    {
      hide IsDaBit, BitShared, ConvertedWith;
      forall i | 0 <= i < |x0| ensures BitShared(y0[i], y1[i], x0[i] != x1[i], p) {
        ConvertedShared(x0[i], x1[i], y0[i], y1[i], madeBits0[at+i], madeBits1[at+i], p);
      }
    }

    // ----- products of bits -----

    /** Consumes one triple for each product, in order, and blinds the factors. */
    method BlindFactors(x0: seq<bool>, y0: seq<bool>, x1: seq<bool>, y1: seq<bool>)
      returns (f0: seq<Factors>, f1: seq<Factors>)
      requires Valid() && |x0| == |y0| == |x1| == |y1| <= |triples0|
      modifies this
      ensures Valid() && BitsKept() && usedTriples == old(usedTriples) + |x0| && |triples0| == old(|triples0|) - |x0|
      ensures madeTriples0 == old(madeTriples0) && madeTriples1 == old(madeTriples1)
      ensures tripleRounds == old(tripleRounds)
      ensures |f0| == |f1| == |x0|
      ensures forall i :: 0 <= i < |x0| ==>
                && FactorsWith(x0[i], y0[i], f0[i], madeTriples0[old(usedTriples)+i])
                && FactorsWith(x1[i], y1[i], f1[i], madeTriples1[old(usedTriples)+i])
    {
      hide AreDaBits, AreBoolTriples, IsBoolTriple;
      f0, f1 := [], [];
      for i := 0 to |x0|
        invariant Valid() && BitsKept() && usedTriples == old(usedTriples) + i
        invariant madeTriples0 == old(madeTriples0) && madeTriples1 == old(madeTriples1)
        invariant tripleRounds == old(tripleRounds) && |triples0| == old(|triples0|) - i && |f0| == |f1| == i
        invariant forall k :: 0 <= k < i ==>
                    && FactorsWith(x0[k], y0[k], f0[k], madeTriples0[old(usedTriples)+k])
                    && FactorsWith(x1[k], y1[k], f1[k], madeTriples1[old(usedTriples)+k])
      {
        var t0, t1 := GetBoolTriple();
        f0 := f0 + [Factors(x0[i] != t0.a, y0[i] != t0.b, t0.c)];
        f1 := f1 + [Factors(x1[i] != t1.a, y1[i] != t1.b, t1.c)];
      }
    }

    /** The results for all products use the triples from position `at` of the history on. */
    ghost predicate MultipliedFrom(x0: seq<bool>, y0: seq<bool>, x1: seq<bool>, y1: seq<bool>, z0: seq<bool>,
                                   z1: seq<bool>, at: nat)
      reads this
    {
      && |z0| == |z1| == |x0| == |y0| == |x1| == |y1| && at + |x0| <= |madeTriples0| == |madeTriples1|
      && forall i :: 0 <= i < |x0| ==>
           MultipliedWith(x0[i], y0[i], x1[i], y1[i], z0[i], z1[i], madeTriples0[at+i], madeTriples1[at+i])
    }

    /** `multiplyBoolShares`: XOR shares of the products of XOR-shared bits. */
    method MultiplyBoolShares(x0: seq<bool>, y0: seq<bool>, x1: seq<bool>, y1: seq<bool>)
      returns (z0: seq<bool>, z1: seq<bool>)
      requires Valid() && |x0| == |y0| == |x1| == |y1|
      modifies this
      ensures Valid() && BitsKept() && TriplesGrow() && usedTriples == old(usedTriples) + |x0|
      ensures tripleRounds == old(tripleRounds) + if |x0| <= old(|triples0|) then 0 else 1
      ensures |triples0| == Topped(old(|triples0|), |x0|, batchSize) - |x0|
      ensures |z0| == |z1| == |x0| && MultipliedFrom(x0, y0, x1, y1, z0, z1, old(usedTriples))
      ensures forall i :: 0 <= i < |x0| ==> ((z0[i] != z1[i]) <==> (x0[i] != x1[i]) && (y0[i] != y1[i]))
    {
      hide AreDaBits, AreBoolTriples, FinishProduct, MultipliedWith;
      CheckBoolTriples(|x0|);
      var f0, f1 := BlindFactors(x0, y0, x1, y1);
      z0 := FinishProducts(0, x0, y0, f0, f1);
      z1 := FinishProducts(1, x1, y1, f1, f0);
      AllMultiplied(x0, y0, x1, y1, f0, f1, z0, z1, old(usedTriples));
    }

    lemma AllMultiplied(x0: seq<bool>, y0: seq<bool>, x1: seq<bool>, y1: seq<bool>, f0: seq<Factors>, f1: seq<Factors>,
                        z0: seq<bool>, z1: seq<bool>, at: nat)
      requires |x0| == |y0| == |x1| == |y1| == |f0| == |f1| == |z0| == |z1|
      requires at + |x0| <= |madeTriples0| == |madeTriples1| && AreBoolTriples(madeTriples0, madeTriples1)
      requires forall i :: 0 <= i < |x0| ==>
                 && FactorsWith(x0[i], y0[i], f0[i], madeTriples0[at+i])
                 && FactorsWith(x1[i], y1[i], f1[i], madeTriples1[at+i])
      requires forall i :: 0 <= i < |x0| ==> z0[i] == FinishProduct(0, x0[i], y0[i], f0[i], f1[i])
      requires forall i :: 0 <= i < |x0| ==> z1[i] == FinishProduct(1, x1[i], y1[i], f1[i], f0[i])
      ensures MultipliedFrom(x0, y0, x1, y1, z0, z1, at)
      ensures forall i :: 0 <= i < |x0| ==> ((z0[i] != z1[i]) <==> (x0[i] != x1[i]) && (y0[i] != y1[i]))
    {
      hide FinishProduct, IsBoolTriple;
      forall i | 0 <= i < |x0|
        ensures MultipliedWith(x0[i], y0[i], x1[i], y1[i], z0[i], z1[i], madeTriples0[at+i], madeTriples1[at+i])
        ensures (z0[i] != z1[i]) <==> (x0[i] != x1[i]) && (y0[i] != y1[i])
      {
        assert IsBoolTriple(madeTriples0[at+i], madeTriples1[at+i]);
        MultipliedShared(x0[i], y0[i], x1[i], y1[i], z0[i], z1[i], madeTriples0[at+i], madeTriples1[at+i]);
      }
    }
  }

  /** Where daBits are generated with an odd modulus, the store is sound exactly when every outcome is valid. */
  lemma SoundIsExact(store: CorrelatedStores)
    requires store.p < TWO64 && store.p % 2 == 1
    ensures store.lazy ==> store.Sound()
    ensures !store.lazy ==>
              (store.Sound() <==> forall d0, d1 :: Generable(d0, d1, store.p) ==> IsDaBit(d0, d1, store.p))
  {
    hide IsDaBit, Generable;
    GenerationExact(store.p);
  }
}
