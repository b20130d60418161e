/** Doubly shared random bits: `makeLocalDaBit` and `generateDaBit`. */
module DaBits {
  import opened Modular
  import opened Words
  import opened Ot
  import opened BoolOt

  /** One server's half: a share modulo p and an XOR share of the same bit. */
  datatype DaBit = DaBit(bp: int, b2: bool)

  ghost predicate IsDaBit(d0: DaBit, d1: DaBit, p: Modulus) {
    Reduced(d0.bp, p) && Reduced(d1.bp, p) && Cong(d0.bp + d1.bp, AsBit(d0.b2 != d1.b2), p)
  }

  ghost predicate AreDaBits(d0: seq<DaBit>, d1: seq<DaBit>, p: Modulus) {
    |d0| == |d1| && forall i :: 0 <= i < |d0| ==> IsDaBit(d0[i], d1[i], p)
  }

  // ---------- made by one server for both ----------

  /** A valid pair results exactly when p is odd, whatever is drawn. */
  method MakeLocalDaBit(p: Modulus) returns (bit0: DaBit, bit1: DaBit)
    requires p > 2
    ensures IsDaBit(bit0, bit1, p) <==> p % 2 == 1
  {
    var bit: int :| 0 <= bit < 2;
    var adjust := bit + 1;
    var r: int :| 0 <= r < p - adjust;
    var bp0 := r + adjust;
    var bp1 := SubMod(bit, bp0, p);
    SubModCong(bit, bp0, p);
    bit0 := DaBit(bp0, bp0 % 2 == 1);
    bit1 := DaBit(bp1, bp1 % 2 == 0);
    NegativeRemainder(bit - bp0, p);
    SharesOfBit(bp0, bp1, bit, p);
    DistinctBits(AsBit(bit0.b2 != bit1.b2), bit, p);
  }

  lemma NegativeRemainder(x: int, p: Modulus)
    requires x < 0 && x + p >= 0
    ensures x % p == x + p
  {
    Multiple(x, 1, p);
  }

  lemma SharesOfBit(bp0: int, bp1: int, bit: int, p: Modulus)
    requires bp0 + bp1 == bit + p
    ensures Cong(bp0 + bp1, bit, p)
  {
    CongIntro(bp0 + bp1, bit, 1, p);
  }

  lemma DistinctBits(a: int, b: int, p: Modulus)
    requires Reduced(a, p) && Reduced(b, p)
    ensures Cong(a, b, p) <==> a == b
  {
    if Cong(a, b, p) {
      ReducedEqual(a, b, p);
    }
  }

  // ---------- made by oblivious transfer ----------

  /** `(b + 2 * (mod - x)) % mod` in words. */
  function GeneratedBp(b: bool, x: int, mod: Modulus): int {
    Word(AsBit(b) + Word(2 * Word(mod - x))) % mod
  }

  /** Server 1's message for its bit. */
  function ReceivedX(b0: bool, b1: bool, r: int, mod: Modulus): int {
    Chosen(AsBit(b1), r, Word(r + AsBit(b0)) % mod)
  }

  /** What `generateDaBit` makes from the bits and server 0's random r. */
  ghost predicate Generated(d0: DaBit, d1: DaBit, r: int, mod: Modulus) {
    && Reduced(r, mod)
    && d0.bp == GeneratedBp(d0.b2, Word(mod - r), mod)
    && d1.bp == GeneratedBp(d1.b2, ReceivedX(d0.b2, d1.b2, r, mod), mod)
  }

  /** A possible outcome of `generateDaBit`. */
  ghost predicate Generable(d0: DaBit, d1: DaBit, mod: Modulus) {
    exists r :: Generated(d0, d1, r, mod)
  }

  /** Neither server's sum leaves the 64 bits. */
  predicate NoOverflow(d0: DaBit, d1: DaBit, r: int, mod: Modulus) {
    && AsBit(d0.b2) + 2 * r < TWO64
    && AsBit(d1.b2) + 2 * (mod - ReceivedX(d0.b2, d1.b2, r, mod)) < TWO64
  }

  function Lost(v: int): int {
    if v < TWO64 then 0 else TWO64
  }

  lemma DoubledWord(b: bool, y: int, mod: Modulus)
    requires mod < TWO64 && 0 <= y <= mod
    ensures var v := AsBit(b) + 2 * y; Word(AsBit(b) + Word(2 * y)) == v - Lost(v)
  {
  }

  lemma GeneratedBpCong(b: bool, x: int, y: int, mod: Modulus)
    requires mod < TWO64 && 0 <= y <= mod && Word(mod - x) == y
    ensures var v := AsBit(b) + 2 * y; Cong(GeneratedBp(b, x, mod), v - Lost(v), mod)
    ensures Reduced(GeneratedBp(b, x, mod), mod)
  {
    hide Word, Cong;
    DoubledWord(b, y, mod);
    CongMod(Word(AsBit(b) + Word(2 * y)), mod);
  }

  lemma ReceivedXCong(b0: bool, b1: bool, r: int, mod: Modulus)
    requires mod < TWO64 && Reduced(r, mod)
    ensures var x := ReceivedX(b0, b1, r, mod);
            Reduced(x, mod) && Cong(x, r + if b0 && b1 then 1 else 0, mod)
  {
    hide Cong, Word;
    CongMod(r + AsBit(b0), mod);
    CongIntro(r, r, 0, mod);
  }

  /** Per run: the pair is valid exactly when no word overflows. */
  lemma GeneratedExact(d0: DaBit, d1: DaBit, r: int, mod: Modulus)
    requires mod < TWO64 && mod % 2 == 1 && Generated(d0, d1, r, mod)
    ensures IsDaBit(d0, d1, mod) <==> NoOverflow(d0, d1, r, mod)
  {
    hide Cong, Word, GeneratedBp, ReceivedX;
    var lost := GeneratedSum(d0, d1, r, mod);
    var x := AsBit(d0.b2 != d1.b2);
    CongIntro(x - lost, x - lost, 0, mod);
    if IsDaBit(d0, d1, mod) {
      CongDifference(d0.bp + d1.bp, x, x - lost, mod);
      if lost != 0 {
        LostIsPower(lost, mod);
      }
    }
  }

  lemma CongDifference(s: int, x: int, y: int, mod: Modulus)
    requires Cong(s, x, mod) && Cong(s, y, mod)
    ensures Cong(x - y, 0, mod)
  {
    CongZeroFrom(s, y, x, mod);
  }

  lemma GeneratedSum(d0: DaBit, d1: DaBit, r: int, mod: Modulus) returns (lost: int)
    requires mod < TWO64 && Generated(d0, d1, r, mod)
    ensures Reduced(d0.bp, mod) && Reduced(d1.bp, mod)
    ensures Cong(d0.bp + d1.bp, AsBit(d0.b2 != d1.b2) - lost, mod)
    ensures lost == 0 || lost == TWO64 || lost == 2 * TWO64
    ensures lost == 0 <==> NoOverflow(d0, d1, r, mod)
  {
    hide Cong, Word, GeneratedBp, ReceivedX;
    var x := ReceivedX(d0.b2, d1.b2, r, mod);
    ReceivedXCong(d0.b2, d1.b2, r, mod);
    assert Word(mod - r) == mod - r && Word(mod - (mod - r)) == r && Word(mod - x) == mod - x;
    GeneratedBpCong(d0.b2, mod - r, r, mod);
    GeneratedBpCong(d1.b2, x, mod - x, mod);
    var v0, v1 := AsBit(d0.b2) + 2 * r, AsBit(d1.b2) + 2 * (mod - x);
    lost := Lost(v0) + Lost(v1);
    CongAdd(d0.bp, v0 - Lost(v0), d1.bp, v1 - Lost(v1), mod);
    var both := if d0.b2 && d1.b2 then 1 else 0;
    CongScale(2, x, r + both, mod);
    var w := AsBit(d0.b2) + AsBit(d1.b2) + 2 * r - lost;
    CongIntro(w, w, 0, mod);
    CongSub(w, w, 2 * x, 2 * (r + both), mod);
    CongIntro(v0 - Lost(v0) + (v1 - Lost(v1)), w - 2 * x, 2, mod);
    CongTrans(v0 - Lost(v0) + (v1 - Lost(v1)), w - 2 * x, w - 2 * (r + both), mod);
    CongTrans(d0.bp + d1.bp, v0 - Lost(v0) + (v1 - Lost(v1)), w - 2 * (r + both), mod);
  }

  /** With 2 mod + 1 below 2^64 every pair is valid. */
  lemma GeneratedValid(d0: DaBit, d1: DaBit, r: int, mod: Modulus)
    requires 2 * mod + 1 < TWO64 && Generated(d0, d1, r, mod)
    ensures IsDaBit(d0, d1, mod)
  {
    hide Cong, Word, GeneratedBp, ReceivedX;
    var lost := GeneratedSum(d0, d1, r, mod);
    ReceivedXCong(d0.b2, d1.b2, r, mod);
  }

  /** For an odd modulus that is also necessary: all randomness is safe exactly under this bound. */
  lemma GenerationExact(mod: Modulus)
    requires mod < TWO64 && mod % 2 == 1
    ensures (forall d0, d1 :: Generable(d0, d1, mod) ==> IsDaBit(d0, d1, mod)) <==> 2 * mod + 1 < TWO64
  {
    if 2 * mod + 1 < TWO64 {
      forall d0, d1 | Generable(d0, d1, mod) ensures IsDaBit(d0, d1, mod) {
        var r :| Generated(d0, d1, r, mod);
        GeneratedValid(d0, d1, r, mod);
      }
    } else {
      hide Word, Cong, GeneratedBp, IsDaBit;
      var d0 := DaBit(GeneratedBp(false, Word(mod - 0), mod), false);
      var d1 := DaBit(GeneratedBp(true, ReceivedX(false, true, 0, mod), mod), true);
      assert Generated(d0, d1, 0, mod);
      assert ReceivedX(false, true, 0, mod) == 0 by { SmallMod(0, mod); }
      GeneratedExact(d0, d1, 0, mod);
      assert Generable(d0, d1, mod);
    }
  }

  /** The two servers' messages and shares. */
  method DaBitMessages(b: seq<bool>, mod: Modulus) returns (b0: array<int>, b1: array<int>, x: array<int>)
    requires mod < TWO64
    ensures b0.Length == b1.Length == x.Length == |b|
    ensures forall i :: 0 <= i < |b| ==>
              Reduced(b0[i], mod) && b1[i] == Word(b0[i] + AsBit(b[i])) % mod && x[i] == Word(mod - b0[i])
  {
    b0 := new int[|b|];
    b1 := new int[|b|];
    x := new int[|b|];
    for i := 0 to |b|
      invariant forall k :: 0 <= k < i ==>
                  Reduced(b0[k], mod) && b1[k] == Word(b0[k] + AsBit(b[k])) % mod && x[k] == Word(mod - b0[k])
    {
      var random: int :| 0 <= random < TWO64;
      b0[i] := random % mod;
      b1[i] := Word(b0[i] + AsBit(b[i])) % mod;
      x[i] := Word(mod - b0[i]);
    }
  }

  method FinishDaBits(b: seq<bool>, x: array<int>, mod: Modulus) returns (dabit: seq<DaBit>)
    requires x.Length == |b|
    ensures |dabit| == |b|
    ensures forall i :: 0 <= i < |b| ==> dabit[i] == DaBit(GeneratedBp(b[i], x[i], mod), b[i])
  {
    hide GeneratedBp;
    dabit := [];
    for i := 0 to |b|
      invariant |dabit| == i
      invariant forall k :: 0 <= k < i ==> dabit[k] == DaBit(GeneratedBp(b[k], x[k], mod), b[k])
    {
      dabit := dabit + [DaBit(GeneratedBp(b[i], x[i], mod), b[i])];
    }
  }

  /** `generateDaBit` on both servers. */
  method GenerateDaBit(n: nat, mod: Modulus) returns (d0: seq<DaBit>, d1: seq<DaBit>)
    requires mod < TWO64
    ensures |d0| == |d1| == n
    ensures forall i :: 0 <= i < n ==> Generable(d0[i], d1[i], mod)
    ensures 2 * mod + 1 < TWO64 ==> AreDaBits(d0, d1, mod)
  {
    hide GeneratedBp, Word, IsDaBit;
    var s0 := RandomBools(n);
    var s1 := RandomBools(n);
    var b0, b1, x0 := DaBitMessages(s0, mod);
    var choice := ChoiceBits(s1);
    assert choice.Length == |choice[..]|;
    var x1 := Transfer(b0, b1, choice);
    assert x1.Length == n by { TransferredSize(b0[..], b1[..], choice[..], x1[..]); }
    d0 := FinishDaBits(s0, x0, mod);
    d1 := FinishDaBits(s1, x1, mod);
    forall i | 0 <= i < n
      ensures Generable(d0[i], d1[i], mod)
      ensures 2 * mod + 1 < TWO64 ==> IsDaBit(d0[i], d1[i], mod)
    {
      assert x1[..][i] == Chosen(choice[..][i], b0[..][i], b1[..][i]);
      assert Generated(d0[i], d1[i], b0[i], mod);
      if 2 * mod + 1 < TWO64 {
        GeneratedValid(d0[i], d1[i], b0[i], mod);
      }
    }
  }
}
