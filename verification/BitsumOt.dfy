/** Counting clients whose bit is 1 by one-bit transfers: `bitsum_ot_sender` and `bitsum_ot_receiver`. */
module BitsumOt {
  import opened Modular
  import opened RootsOfUnity
  import opened Words
  import opened Ot
  import opened BoolOt

  // ---------- the two sums ----------

  /** The sender's message for choice 1: unlike the first one it is not reduced. */
  function BitMessage(share: bool, b0: int): int {
    Word(b0 + 1 - 2 * AsBit(share))
  }

  function KeepBit(sum: int, share: bool, b0: int, mod: WordMod): (r: int)
    ensures Reduced(r, Ring(mod))
  {
    Store(sum + Word(Minus(b0, mod) + AsBit(share)), mod)
  }

  /** What the sender keeps for the first n clients. */
  function Kept(shares: seq<bool>, valid: seq<bool>, b0: seq<int>, n: nat, mod: WordMod): (r: int)
    requires n <= |shares| == |valid| && n <= |b0|
    ensures Reduced(r, Ring(mod))
  {
    if n == 0 then 0 else
      var sum := Kept(shares, valid, b0, n - 1, mod);
      if valid[n-1] then KeepBit(sum, shares[n-1], b0[n-1], mod) else sum
  }

  ghost predicate BitOffered(share: bool, ok: bool, b0: int, b1: int, mod: WordMod) {
    if ok then Reduced(b0, Ring(mod)) && b1 == BitMessage(share, b0) else b0 == 0 && b1 == 0
  }

  lemma {:induction false} KeptSame(shares: seq<bool>, valid: seq<bool>, b0: seq<int>, b0': seq<int>, n: nat,
                                    mod: WordMod)
    requires n <= |shares| == |valid| && SameCells(b0, b0', 0, n)
    ensures Kept(shares, valid, b0, n, mod) == Kept(shares, valid, b0', n, mod)
  {
    if n > 0 {
      KeptSame(shares, valid, b0, b0', n - 1, mod);
    }
  }

  method OfferBit(share: bool, sum: int, mod: WordMod) returns (m0: int, m1: int, kept: int)
    ensures BitOffered(share, true, m0, m1, mod) && kept == KeepBit(sum, share, m0, mod)
  {
    m0 := RandomMessage(mod);
    m1 := Word(m0 + 1 - 2 * AsBit(share));
    kept := Stored(sum + Word(Minus(m0, mod) + AsBit(share)), mod);
  }

  method BitsumSender(shares: seq<bool>, valid: seq<bool>, mod: WordMod)
    returns (sum: int, b0: array<int>, b1: array<int>)
    requires |shares| == |valid|
    ensures b0.Length == b1.Length == |shares|
    ensures forall i :: 0 <= i < |shares| ==> BitOffered(shares[i], valid[i], b0[i], b1[i], mod)
    ensures sum == Kept(shares, valid, b0[..], |shares|, mod)
  {
    hide KeepBit, BitMessage, Ring;
    sum := 0;
    b0 := new int[|shares|];
    b1 := new int[|shares|];
    for i := 0 to |shares|
      invariant forall m :: 0 <= m < i ==> BitOffered(shares[m], valid[m], b0[m], b1[m], mod)
      invariant sum == Kept(shares, valid, b0[..], i, mod)
    {
      ghost var was := b0[..];
      if !valid[i] {
        b0[i] := 0;
        b1[i] := 0;
        KeptSame(shares, valid, was, b0[..], i, mod);
        continue;
      }
      var m0, m1, kept := OfferBit(shares[i], sum, mod);
      b0[i], b1[i] := m0, m1;
      KeptSame(shares, valid, was, b0[..], i, mod);
      sum := kept;
    }
  }

  method BitsumReceiver(r: array<int>, mod: WordMod) returns (sum: int)
    ensures sum == ReceiverSum(r[..], 0, r.Length, mod)
  {
    sum := SumValue(r, 0, r.Length, mod);
  }

  // ---------- what the two sums share ----------

  /** How many accepted clients sent a 1. */
  ghost function CountOnes(s: seq<bool>, t: seq<bool>, valid: seq<bool>, n: nat): nat
    requires n <= |s| == |t| == |valid|
  {
    if n == 0 then 0 else CountOnes(s, t, valid, n - 1) + if valid[n-1] && s[n-1] != t[n-1] then 1 else 0
  }

  lemma {:induction false} CountBound(s: seq<bool>, t: seq<bool>, valid: seq<bool>, n: nat)
    requires n <= |s| == |t| == |valid|
    ensures CountOnes(s, t, valid, n) <= n
  {
    if n > 0 {
      CountBound(s, t, valid, n - 1);
    }
  }

  /** What the receiver gets from one client. */
  function GotBit(s: bool, t: bool, ok: bool, b0: int): int {
    if !ok then 0 else if t then BitMessage(s, b0) else b0
  }

  /** How often 2^64 is lost (or, below 0, gained) when one client's bit is added. */
  ghost function BitWraps(sumS: int, sumR: int, s: bool, t: bool, b0: int, mod: WordMod): int {
    var kept := Word(sumS + Word(Minus(b0, mod) + AsBit(s)));
    var got := Word(sumR + GotBit(s, t, true, b0));
    var d := if t then b0 + 1 - 2 * AsBit(s) else b0;
    (sumS + Ring(mod) - b0 + AsBit(s) - kept) / TWO64 + (sumR + d - got) / TWO64
  }

  ghost function Wraps(s: seq<bool>, t: seq<bool>, valid: seq<bool>, b0: seq<int>, r: seq<int>, n: nat,
                       mod: WordMod): int
    requires n <= |s| == |t| == |valid| && n <= |b0| && n <= |r|
  {
    if n == 0 then 0 else
      Wraps(s, t, valid, b0, r, n - 1, mod)
      + if valid[n-1] then
          BitWraps(Kept(s, valid, b0, n - 1, mod), ReceiverSum(r, 0, n - 1, mod), s[n-1], t[n-1], b0[n-1], mod)
        else 0
  }

  /** x is v up to whole words. */
  lemma WholeWords(x: int, v: int)
    requires Cong(x, v, TWO64)
    ensures x == v - (v - x) / TWO64 * TWO64
  {
    var k := CongWitness(v, x, TWO64);
    assert v - x == k * TWO64;
  }

  lemma MinusWord(b0: int, mod: WordMod)
    ensures Cong(Minus(b0, mod), Ring(mod) - b0, TWO64)
  {
    hide Cong, Word;
    var max := if mod == 0 then TWO64 - 1 else mod - 1;
    WordCong(max - b0);
    WordCong(Word(max - b0) + 1);
    CongIntro(1, 1, 0, TWO64);
    CongAdd(Word(max - b0), max - b0, 1, 1, TWO64);
    CongTrans(Word(Word(max - b0) + 1), Word(max - b0) + 1, max - b0 + 1, TWO64);
  }

  lemma KeptWord(sum: int, s: bool, b0: int, mod: WordMod)
    ensures Cong(Word(sum + Word(Minus(b0, mod) + AsBit(s))), sum + Ring(mod) - b0 + AsBit(s), TWO64)
  {
    hide Cong, Word, Minus;
    MinusWord(b0, mod);
    WordAddCong(AsBit(s), Minus(b0, mod), Ring(mod) - b0);
    WordAddCong(sum, Word(AsBit(s) + Minus(b0, mod)), AsBit(s) + (Ring(mod) - b0));
  }

  lemma GotWord(sum: int, s: bool, t: bool, b0: int)
    ensures Cong(Word(sum + GotBit(s, t, true, b0)), sum + if t then b0 + 1 - 2 * AsBit(s) else b0, TWO64)
  {
    hide Cong, Word;
    WordCong(b0 + 1 - 2 * AsBit(s));
    CongIntro(b0, b0, 0, TWO64);
    WordAddCong(sum, GotBit(s, t, true, b0), if t then b0 + 1 - 2 * AsBit(s) else b0);
  }

  lemma StoreWord(x: int, mod: WordMod)
    ensures Cong(Store(x, mod), Word(x), Ring(mod))
  {
    hide Cong, Word;
    if mod == 0 {
      CongIntro(Word(x), Word(x), 0, TWO64);
    } else {
      CongMod(Word(x), mod);
    }
  }

  lemma BitWords(sumS: int, sumR: int, s: bool, t: bool, b0: int, mod: WordMod)
    ensures Word(sumS + Word(Minus(b0, mod) + AsBit(s))) + Word(sumR + GotBit(s, t, true, b0))
         == sumS + sumR + Ring(mod) + AsBit(s != t) - BitWraps(sumS, sumR, s, t, b0, mod) * TWO64
  {
    hide Cong, Word, Minus, Ring, BitMessage;
    var d := if t then b0 + 1 - 2 * AsBit(s) else b0;
    var x, y := sumS + Ring(mod) - b0 + AsBit(s), sumR + d;
    var kept, got := Word(sumS + Word(Minus(b0, mod) + AsBit(s))), Word(sumR + GotBit(s, t, true, b0));
    KeptWord(sumS, s, b0, mod);
    GotWord(sumR, s, t, b0);
    WholeWords(kept, x);
    WholeWords(got, y);
    Distribute(TWO64, (x - kept) / TWO64, (y - got) / TWO64);
  }

  /** One client: the two sums grow by the XOR of the two bits, up to the words that are lost. */
  lemma BitCounted(sumS: int, sumR: int, v: int, s: bool, t: bool, b0: int, mod: WordMod)
    requires Cong(sumS + sumR, v, Ring(mod))
    ensures Cong(KeepBit(sumS, s, b0, mod) + ReceiverStep(sumR, GotBit(s, t, true, b0), mod),
                 v + AsBit(s != t) - BitWraps(sumS, sumR, s, t, b0, mod) * TWO64, Ring(mod))
  {
    hide Cong, Word, Minus, Store, GotBit, BitWraps, Ring;
    var m := Ring(mod);
    var kept, got := Word(sumS + Word(Minus(b0, mod) + AsBit(s))), Word(sumR + GotBit(s, t, true, b0));
    BitWords(sumS, sumR, s, t, b0, mod);
    StoreWord(sumS + Word(Minus(b0, mod) + AsBit(s)), mod);
    StoreWord(sumR + GotBit(s, t, true, b0), mod);
    var sender, receiver := KeepBit(sumS, s, b0, mod), ReceiverStep(sumR, GotBit(s, t, true, b0), mod);
    CongAdd(sender, kept, receiver, got, m);
    var e := AsBit(s != t) - BitWraps(sumS, sumR, s, t, b0, mod) * TWO64;
    CongIntro(kept + got, sumS + sumR + e, 1, m);
    CongIntro(e, e, 0, m);
    CongAdd(sumS + sumR, v, e, e, m);
    CongTrans(kept + got, sumS + sumR + e, v + e, m);
    CongTrans(sender + receiver, kept + got, v + e, m);
  }

  /** r is what the receiver gets from every client. */
  ghost predicate Gotten(s: seq<bool>, t: seq<bool>, valid: seq<bool>, b0: seq<int>, r: seq<int>) {
    && |s| == |t| == |valid| == |b0| == |r|
    && forall i :: 0 <= i < |r| ==> r[i] == GotBit(s[i], t[i], valid[i], b0[i])
  }

  /** The two sums add to the count, less 2^64 for every word that is lost. */
  lemma {:induction false} BitsumCounts(s: seq<bool>, t: seq<bool>, valid: seq<bool>, b0: seq<int>, r: seq<int>,
                                        n: nat, mod: WordMod)
    requires Gotten(s, t, valid, b0, r) && n <= |s|
    ensures Cong(Kept(s, valid, b0, n, mod) + ReceiverSum(r, 0, n, mod),
                 CountOnes(s, t, valid, n) - Wraps(s, t, valid, b0, r, n, mod) * TWO64, Ring(mod))
  {
    hide Cong, KeepBit, ReceiverStep, BitWraps, BitMessage;
    if n == 0 {
      CongIntro(0, 0, 0, Ring(mod));
    } else {
      var i := n - 1;
      BitsumCounts(s, t, valid, b0, r, i, mod);
      assert r[i] == GotBit(s[i], t[i], valid[i], b0[i]);
      var sumS, sumR, w := Kept(s, valid, b0, i, mod), ReceiverSum(r, 0, i, mod), Wraps(s, t, valid, b0, r, i, mod);
      if valid[i] {
        BitCounted(sumS, sumR, CountOnes(s, t, valid, i) - w * TWO64, s[i], t[i], b0[i], mod);
        Distribute(TWO64, w, BitWraps(sumS, sumR, s[i], t[i], b0[i], mod));
      } else {
        NothingAdded(sumR, mod);
      }
    }
  }

  lemma NothingAdded(sum: int, mod: WordMod)
    requires Reduced(sum, Ring(mod))
    ensures ReceiverStep(sum, 0, mod) == sum
  {
    if mod != 0 {
      SmallMod(sum, mod);
    }
  }

  // ---------- when the sums are right ----------

  /** The two sums are shares of the count. */
  ghost predicate Counted(s: seq<bool>, t: seq<bool>, valid: seq<bool>, b0: seq<int>, r: seq<int>, mod: WordMod)
    requires Gotten(s, t, valid, b0, r)
  {
    Cong(Kept(s, valid, b0, |s|, mod) + ReceiverSum(r, 0, |s|, mod), CountOnes(s, t, valid, |s|), Ring(mod))
  }

  /** With native wrap-around they always are. */
  lemma NativeCounts(s: seq<bool>, t: seq<bool>, valid: seq<bool>, b0: seq<int>, r: seq<int>)
    requires Gotten(s, t, valid, b0, r)
    ensures Counted(s, t, valid, b0, r, 0)
  {
    hide Cong, Kept, ReceiverSum, Wraps;
    var n := |s|;
    BitsumCounts(s, t, valid, b0, r, n, 0);
    var c, w := CountOnes(s, t, valid, n), Wraps(s, t, valid, b0, r, n, 0);
    CongIntro(c - w * TWO64, c, -w, TWO64);
    CongTrans(Kept(s, valid, b0, n, 0) + ReceiverSum(r, 0, n, 0), c - w * TWO64, c, TWO64);
  }

  lemma {:induction false} CancelPower(k: int, n: nat, m: Modulus)
    requires m % 2 == 1 && Cong(k * Pow2(n), 0, m)
    ensures Cong(k, 0, m)
  {
    if n > 0 {
      SwapLeft(k, 2, Pow2(n - 1));
      HalveCong(k * Pow2(n - 1), m);
      CancelPower(k, n - 1, m);
    }
  }

  /** With an odd modulus, per run: exactly when the number of lost words is a multiple of it. */
  lemma OddCountsExact(s: seq<bool>, t: seq<bool>, valid: seq<bool>, b0: seq<int>, r: seq<int>, mod: Modulus)
    requires mod < TWO64 && mod % 2 == 1 && Gotten(s, t, valid, b0, r)
    ensures Counted(s, t, valid, b0, r, mod) <==> Cong(Wraps(s, t, valid, b0, r, |s|, mod), 0, mod)
  {
    hide Cong, Kept, ReceiverSum, Wraps, Pow2;
    var n := |s|;
    BitsumCounts(s, t, valid, b0, r, n, mod);
    var x := Kept(s, valid, b0, n, mod) + ReceiverSum(r, 0, n, mod);
    var c, w := CountOnes(s, t, valid, n), Wraps(s, t, valid, b0, r, n, mod);
    CongIntro(c, c, 0, mod);
    if Counted(s, t, valid, b0, r, mod) {
      CongZeroFrom(x, c - w * TWO64, c, mod);
      Pow2At64();
      CancelPower(w, 64, mod);
    }
    if Cong(w, 0, mod) {
      CongIntro(TWO64, TWO64, 0, mod);
      CongMul(w, 0, TWO64, TWO64, mod);
      CongSub(c, c, w * TWO64, 0, mod);
      CongTrans(x, c - w * TWO64, c, mod);
    }
  }

  ghost predicate AlwaysCounts(n: nat, mod: WordMod) {
    forall s, t, valid, b0, r ::
      |s| == n && Gotten(s, t, valid, b0, r) && AllReduced(b0, Ring(mod)) ==> Counted(s, t, valid, b0, r, mod)
  }

  /** With an odd modulus no number of clients is safe: the unreduced message wraps below 0. */
  lemma OddAlwaysExact(n: nat, mod: Modulus)
    requires mod < TWO64 && mod % 2 == 1
    ensures AlwaysCounts(n, mod) <==> n == 0
  {
    if n == 0 {
      forall s, t, valid, b0, r | |s| == n && Gotten(s, t, valid, b0, r) && AllReduced(b0, Ring(mod))
        ensures Counted(s, t, valid, b0, r, mod)
      {
        CongIntro(0, 0, 0, mod);
      }
    } else {
      // the last modulus overflows in the sender's sum, all others in the receiver's
      var one := mod < TWO64 - 1;
      BadRun(n, one, mod);
    }
  }

  /** Only the last client is accepted, its share is 1 and its random message 0. */
  lemma BadRun(n: nat, one: bool, mod: Modulus)
    requires n > 0 && mod < TWO64 && mod % 2 == 1 && one == (mod < TWO64 - 1)
    ensures !AlwaysCounts(n, mod)
  {
    hide Cong, KeepBit, ReceiverStep, BitMessage;
    var s, t := seq(n, i => true), seq(n, i => one);
    var valid, b0 := seq(n, i => i == n - 1), seq(n, i => 0);
    var r := seq(n, i => if i == n - 1 then GotBit(true, one, true, 0) else 0);
    assert Gotten(s, t, valid, b0, r) && AllReduced(b0, Ring(mod));
    QuietClients(s, t, valid, b0, r, n - 1, mod);
    LastClient(one, mod);
    assert Kept(s, valid, b0, n, mod) == KeepBit(0, true, 0, mod);
    assert ReceiverSum(r, 0, n, mod) == ReceiverStep(0, GotBit(true, one, true, 0), mod);
    assert CountOnes(s, t, valid, n) == if one then 0 else 1;
    assert !Counted(s, t, valid, b0, r, mod);
  }

  lemma {:induction false} QuietClients(s: seq<bool>, t: seq<bool>, valid: seq<bool>, b0: seq<int>, r: seq<int>,
                                        n: nat, mod: Modulus)
    requires mod < TWO64 && n <= |s| == |t| == |valid| == |b0| == |r|
    requires forall i :: 0 <= i < n ==> !valid[i] && r[i] == 0
    ensures Kept(s, valid, b0, n, mod) == 0 && ReceiverSum(r, 0, n, mod) == 0 && CountOnes(s, t, valid, n) == 0
  {
    hide KeepBit, ReceiverStep;
    if n > 0 {
      QuietClients(s, t, valid, b0, r, n - 1, mod);
      NothingAdded(0, mod);
    }
  }

  lemma LastClient(one: bool, mod: Modulus)
    requires mod < TWO64 && mod % 2 == 1 && one == (mod < TWO64 - 1)
    ensures !Cong(KeepBit(0, true, 0, mod) + ReceiverStep(0, GotBit(true, one, true, 0), mod), if one then 0 else 1,
                  mod)
  {
    hide Cong, Minus;
    MinusExact(0, mod);
    if one {
      assert GotBit(true, true, true, 0) == TWO64 - 1;
      var x, y := mod + 1, TWO64 - 1;
      assert KeepBit(0, true, 0, mod) == x % mod && ReceiverStep(0, y, mod) == y % mod;
      CongMod(x, mod);
      CongMod(y, mod);
      CongAdd(x % mod, x, y % mod, y, mod);
      if Cong(x % mod + y % mod, 0, mod) {
        CongIntro(x + y, TWO64, 1, mod);
        CongTrans(x % mod + y % mod, x + y, TWO64, mod);
        SameZero(x % mod + y % mod, TWO64, mod);
        LostIsPower(TWO64, mod);
      }
    } else {
      assert KeepBit(0, true, 0, mod) == 0 && ReceiverStep(0, 0, mod) == 0 by { SmallMod(0, mod); }
      if Cong(0, 1, mod) {
        ReducedEqual(0, 1, mod);
      }
    }
  }

  lemma SameZero(a: int, b: int, p: Modulus)
    requires Cong(a, b, p) && Cong(a, 0, p)
    ensures Cong(b, 0, p)
  {
  }
}
