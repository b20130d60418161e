/** The hash families of hash.h and hash.cpp. */
module Hashes {
  import opened Modular
  import opened RootsOfUnity
  import opened Words
  import opened Sketches
  import Poly
  import Shares

  /** The smallest number of bits, but at least one, whose values cover w columns. */
  ghost predicate Covers(bits: nat, w: nat) {
    bits >= 1 && w <= Pow2(bits) && (bits == 1 || Pow2(bits - 1) < w)
  }

  /** `w_bits` */
  method WidthOf(w: nat) returns (bits: nat)
    requires w > 0
    ensures Covers(bits, w)
  {
    hide Shr, Pow2;
    bits := 1;
    var rest := (w - 1) / 2;
    WidthStart(w);
    while rest != 0
      invariant bits >= 1 && rest == Shr(w - 1, bits) && (bits == 1 || Pow2(bits - 1) < w)
      decreases rest
    {
      ShrAbove(w - 1, bits);
      ShrNext(w - 1, bits);
      rest := rest / 2;
      bits := bits + 1;
    }
    LowBitsSplit(w - 1, bits);
  }

  lemma ShrNext(n: nat, k: nat)
    ensures Shr(n, k + 1) == Shr(n, k) / 2
  {
  }

  lemma WidthStart(w: nat)
    requires w > 0
    ensures Shr(w - 1, 1) == (w - 1) / 2
  {
    assert Shr(w - 1, 0) == w - 1;
  }

  lemma ShrAbove(n: nat, k: nat)
    requires Shr(n, k) != 0
    ensures Pow2(k) <= n
  {
    hide Pow2, Shr, LowBits;
    LowBitsSplit(n, k);
    MulAtLeast(Shr(n, k), Pow2(k));
  }

  /** `HashStore`: d polynomials over `l_bits`-bit numbers, hashing into w columns. */
  class HashStore {
    const lBits: nat
    const w: nat
    const wBits: nat
    const coeff: seq<seq<nat>>

    /** Constant terms below w, the others below 2^l_bits. */
    constructor (d: nat, lBits: nat, w: nat, degree: nat)
      requires w > 0
      ensures Covers(wBits, w) && this.lBits == lBits && this.w == w
      ensures |coeff| == d && forall i :: 0 <= i < d ==> IsDrawn(coeff[i], lBits, w, degree)
    {
      this.lBits, this.w := lBits, w;
      var bits := WidthOf(w);
      wBits := bits;
      var drawn := [];
      for i := 0 to d
        invariant |drawn| == i && forall k :: 0 <= k < i ==> IsDrawn(drawn[k], lBits, w, degree)
      {
        var cs := Draw(lBits, w, degree);
        drawn := drawn + [cs];
      }
      coeff := drawn;
    }

    /** The polynomial without its constant term, modulo 2^l_bits. */
    function Tail(i: nat, x: nat): nat
      requires i < |coeff| && coeff[i] != []
    {
      (x % TWO32 * Poly.Eval(coeff[i][1..], x % TWO32)) % Pow2(lBits)
    }

    /** The top w_bits bits of the tail, shifted by the constant term into the columns. */
    function Value(i: nat, x: nat): nat
      requires i < |coeff| && coeff[i] != [] && w > 0
    {
      (Tail(i, x) / Pow2(Word(lBits - wBits)) + coeff[i][0]) % w
    }

    method Eval(i: nat, x: nat) returns (out: nat)
      requires i < |coeff| && coeff[i] != [] && w > 0
      ensures out == Value(i, x) && out < w
      ensures var y := x % 0x1_0000_0000;
              out == ((y * Poly.Eval(coeff[i][1..], y)) % Pow2(lBits) / Pow2(Word(lBits - wBits)) + coeff[i][0]) % w
    {
      // the argument is an `unsigned int`
      var arg, cs, l := x % TWO32, coeff[i], Pow2(lBits);
      out := 0;
      var j := |cs| - 1;
      assert cs[j+1..] == [];
      while j > 0
        invariant 0 <= j < |cs| && out == (arg * Poly.Eval(cs[j+1..], arg)) % l
      {
        assert cs[j..][1..] == cs[j+1..];
        HornerStep(out, Poly.Eval(cs[j+1..], arg), cs[j], arg, l);
        out := ((out + cs[j]) * arg) % l;
        j := j - 1;
      }
      // the difference is a `size_t`
      out := (out / Pow2(Word(lBits - wBits)) + cs[0]) % w;
    }

    /** With enough input bits the shifted tail has w_bits bits. */
    lemma TopBits(i: nat, x: nat)
      requires i < |coeff| && coeff[i] != [] && wBits <= lBits < TWO64
      ensures Tail(i, x) / Pow2(Word(lBits - wBits)) < Pow2(wBits)
    {
      Shares.Pow2Plus(wBits, lBits - wBits);
      QuotientBelow(Tail(i, x), Pow2(wBits), Pow2(lBits - wBits));
    }
  }

  /** With this tail the constant term c leads to this column. */
  ghost predicate LeadsTo(tail: nat, c: nat, w: nat, column: nat)
    requires w > 0
  {
    c < w && (tail + c) % w == column
  }

  /** For any tail each column belongs to exactly one constant term. */
  lemma ConstantSpreads(tail: nat, w: nat, column: nat) returns (c: nat)
    requires column < w
    ensures LeadsTo(tail, c, w, column) && forall d: nat :: LeadsTo(tail, d, w, column) ==> d == c
  {
    c := 0;
    if w > 1 {
      c := (column - tail) % w;
      OneLeads(tail, c, w, column);
      forall d: nat | LeadsTo(tail, d, w, column) ensures d == c {
        SameRemainder(tail, c, d, w);
      }
    }
  }

  lemma OneLeads(tail: nat, c: nat, w: Modulus, column: nat)
    requires column < w && c == (column - tail) % w
    ensures LeadsTo(tail, c, w, column)
  {
    hide Cong;
    CongMod(column - tail, w);
    CongIntro(tail, tail, 0, w);
    CongAdd(tail, tail, c, column - tail, w);
    CongMod(tail + c, w);
    CongTrans((tail + c) % w, tail + c, column, w);
    ReducedEqual((tail + c) % w, column, w);
  }

  lemma SameRemainder(tail: nat, c: nat, d: nat, w: Modulus)
    requires c < w && d < w && (tail + c) % w == (tail + d) % w
    ensures c == d
  {
    CongIntro(tail, tail, 0, w);
    CongSub(tail + c, tail + d, tail, tail, w);
    ReducedEqual(c, d, w);
  }

  lemma QuotientBelow(a: nat, b: nat, c: nat)
    requires c > 0 && a < b * c
    ensures a / c < b
  {
    LessByFactor(a / c, b, c);
  }

  lemma LessByFactor(q: nat, b: nat, c: nat)
    requires q * c < b * c
    ensures q < b
  {
    Distribute(c, q - b, b);
    assert q >= b ==> 0 <= c * (q - b);
  }

  lemma HornerStep(out: nat, e: int, c: int, x: int, l: nat)
    requires l > 0 && out == (x * e) % l
    ensures ((out + c) * x) % l == (x * (c + x * e)) % l
  {
    hide Cong;
    if l > 1 {
      CongMod(x * e, l);
      CongIntro(c, c, 0, l);
      CongAdd(out, x * e, c, c, l);
      CongScale(x, out + c, x * e + c, l);
      CongRemainders(x * (out + c), x * (x * e + c), l);
    }
  }

  lemma CongRemainders(a: int, b: int, l: Modulus)
    requires Cong(a, b, l)
    ensures a % l == b % l
  {
  }

  ghost predicate IsDrawn(cs: seq<nat>, lBits: nat, w: nat, degree: nat) {
    && |cs| == degree + 1 && cs[0] < w
    && forall j :: 1 <= j <= degree ==> cs[j] < Pow2(lBits)
  }

  method Draw(lBits: nat, w: nat, degree: nat) returns (cs: seq<nat>)
    requires w > 0
    ensures IsDrawn(cs, lBits, w, degree)
  {
    var c: nat :| c < w;
    cs := [c];
    for j := 1 to degree + 1
      invariant |cs| == j && cs[0] < w && forall k :: 1 <= k < j ==> cs[k] < Pow2(lBits)
    {
      assert 0 < Pow2(lBits);
      c :| c < Pow2(lBits);
      cs := cs + [c];
    }
  }

  // ---------- the hashes of a run ----------

  /** One store for each layer. */
  ghost predicate StoresFor(stores: seq<HashStore>, cfg: Config) {
    && |stores| == cfg.layers
    && forall k :: 0 <= k < |stores| ==> StoreFor(stores[k], cfg)
  }

  ghost predicate StoreFor(store: HashStore, cfg: Config) {
    store.w == cfg.w > 0 && |store.coeff| == cfg.d && forall j :: 0 <= j < cfg.d ==> store.coeff[j] != []
  }

  /** The program's hash functions, 0 outside their layers. */
  function HashOf(stores: seq<HashStore>): Hash {
    (k: nat, j: nat, x: nat) =>
      if k < |stores| && j < |stores[k].coeff| && stores[k].coeff[j] != [] && stores[k].w > 0 then
        stores[k].Value(j, x)
      else 0
  }

  /** They hash into the columns. */
  lemma StoresInRange(stores: seq<HashStore>, cfg: Config)
    requires StoresFor(stores, cfg)
    ensures InRange(HashOf(stores), cfg)
  {
    forall k: nat, j: nat, x: nat | k < cfg.layers && j < cfg.d ensures HashOf(stores)(k, j, x) < cfg.w {
      assert StoreFor(stores[k], cfg);
    }
  }

  /** `new HashStore*[L]`, one for each layer. */
  method MakeStores(cfg: Config, degree: nat) returns (stores: seq<HashStore>)
    requires cfg.Valid()
    ensures StoresFor(stores, cfg) && forall k :: 0 <= k < |stores| ==> stores[k].lBits == cfg.numBits - k
  {
    stores := [];
    for k := 0 to cfg.layers
      invariant |stores| == k
      invariant forall m :: 0 <= m < k ==> StoreFor(stores[m], cfg) && stores[m].lBits == cfg.numBits - m
    {
      var store := new HashStore(cfg.d, cfg.numBits - k, cfg.w, degree);
      assert forall j :: 0 <= j < cfg.d ==> IsDrawn(store.coeff[j], cfg.numBits - k, cfg.w, degree);
      stores := stores + [store];
    }
  }
}
