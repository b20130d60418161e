/**
 Share conversion by oblivious transfer: ot.cpp.  All arithmetic is on 64-bit
 words; `mod == 0` means the native wrap-around.  The transfer itself is ideal.
 */
module Ot {
  import opened Modular
  import opened RootsOfUnity
  import opened Shares
  import opened Rows
  import opened Words

  type WordMod = m: int | m == 0 || 2 <= m < TWO64 witness 0

  /** The ring in which the two results are shares. */
  function Ring(mod: WordMod): Modulus {
    if mod == 0 then TWO64 else mod
  }

  /** `x` stored in a word and then, unless mod is 0, reduced. */
  function Store(x: int, mod: WordMod): (r: int)
    ensures Reduced(r, Ring(mod))
  {
    if mod != 0 then Word(x) % mod else Word(x)
  }

  /** `max - x + 1` for `max = mod - 1`, or `UINT64_MAX` when mod is 0. */
  function Minus(x: int, mod: WordMod): int {
    var max := if mod == 0 then TWO64 - 1 else mod - 1;
    Word(Word(max - x) + 1)
  }

  /** The message for choice 1 next to the message `b0` for choice 0. */
  function OtherMessage(b0: int, share: nat, k: nat, mod: WordMod): int {
    var pow := Word(Pow2(k));
    Store(b0 + (if share == 1 then Minus(pow, mod) else pow), mod)
  }

  function SenderStep(sum: int, share: nat, k: nat, b0: int, mod: WordMod): (r: int)
    ensures Reduced(r, Ring(mod))
  {
    Store(sum + Word(Word(share * Word(Pow2(k))) + Minus(b0, mod)), mod)
  }

  function ReceiverStep(sum: int, r: int, mod: WordMod): (s: int)
    ensures Reduced(s, Ring(mod))
  {
    Store(sum + r, mod)
  }

  /** Bit k can be converted without any word overflowing. */
  ghost predicate BitFits(k: nat, mod: WordMod) {
    k < 64 && (mod == 0 || (Pow2(k) <= mod && 2 * mod + Pow2(k) <= TWO64))
  }

  ghost predicate WidthFits(bits: nat, mod: WordMod) {
    bits == 0 || BitFits(bits - 1, mod)
  }

  lemma NarrowerFits(bits: nat, k: nat, mod: WordMod)
    requires WidthFits(bits, mod) && k < bits
    ensures BitFits(k, mod) && WidthFits(k, mod)
  {
    Pow2Monotone(k, bits - 1);
    if k > 0 {
      Pow2Monotone(k - 1, bits - 1);
    }
  }

  // ---------- native wrap-around ----------

  lemma MinusCong(x: int)
    ensures Cong(Minus(x, 0), -x, TWO64)
  {
    hide Cong, Word;
    var y := TWO64 - 1 - x;
    WordCong(y);
    WordCong(Word(y) + 1);
    CongIntro(1, 1, 0, TWO64);
    CongAdd(Word(y), y, 1, 1, TWO64);
    CongIntro(y + 1, -x, 1, TWO64);
    CongTrans(Word(Word(y) + 1), Word(y) + 1, y + 1, TWO64);
    CongTrans(Word(Word(y) + 1), y + 1, -x, TWO64);
  }

  lemma WordAddCong(a: int, b: int, v: int)
    requires Cong(b, v, TWO64)
    ensures Cong(Word(a + b), a + v, TWO64)
  {
    CongAdd(a, a, b, v, TWO64);
    WordCong(a + b);
  }

  lemma BitTimes(s: nat, k: nat)
    requires s <= 1 && k < 64
    ensures Word(Pow2(k)) == Pow2(k) && Word(s * Pow2(k)) == s * Pow2(k)
    ensures s * Pow2(k) == if s == 1 then Pow2(k) else 0
    ensures s == 0 ==> (1 - 2 * s) * Pow2(k) == Pow2(k)
    ensures s == 1 ==> (1 - 2 * s) * Pow2(k) == 0 - Pow2(k)
  {
    hide Pow2, Word;
    Pow2Below(k);
    if s == 0 {
      assert s * Pow2(k) == 0;
    } else {
      assert s * Pow2(k) == Pow2(k);
    }
  }

  lemma Pow2Below(k: nat)
    requires k < 64
    ensures 0 < Pow2(k) < TWO64
  {
    Pow2At64();
    Pow2Monotone(0, k);
    Pow2Monotone(k, 63);
  }

  lemma SenderCongNative(sum: int, share: nat, k: nat, b0: int)
    requires k < 64 && share <= 1
    ensures Cong(SenderStep(sum, share, k, b0, 0), sum + (share * Pow2(k) - b0), TWO64)
  {
    hide Cong, Word, Minus, Pow2;
    BitTimes(share, k);
    var t := share * Pow2(k);
    MinusCong(b0);
    WordAddCong(t, Minus(b0, 0), -b0);
    WordAddCong(sum, Word(t + Minus(b0, 0)), t - b0);
  }

  lemma MessageCongNative(share: nat, k: nat, b0: int)
    requires k < 64 && share <= 1
    ensures Cong(OtherMessage(b0, share, k, 0), b0 + (1 - 2 * share) * Pow2(k), TWO64)
  {
    hide Cong, Word, Minus, Pow2;
    BitTimes(share, k);
    if share == 1 {
      MinusCong(Pow2(k));
      WordAddCong(b0, Minus(Pow2(k), 0), 0 - Pow2(k));
    } else {
      CongIntro(Pow2(k), Pow2(k), 0, TWO64);
      WordAddCong(b0, Pow2(k), Pow2(k));
    }
  }

  // ---------- an explicit modulus: no word overflows ----------

  lemma MinusExact(x: int, mod: Modulus)
    requires mod < TWO64 && 0 <= x <= mod
    ensures Minus(x, mod) == mod - x
  {
  }

  lemma StoreExact(sum: int, t: int, mod: Modulus)
    requires mod < TWO64 && 0 <= sum && 0 <= t && sum + t < TWO64
    ensures Store(sum + Word(t), mod) == AddMod(sum, t, mod)
  {
  }

  lemma SenderExact(sum: int, share: nat, k: nat, b0: int, mod: Modulus)
    requires mod < TWO64 && BitFits(k, mod) && share <= 1
    requires Reduced(sum, mod) && Reduced(b0, mod)
    ensures SenderStep(sum, share, k, b0, mod) == AddMod(sum, mod + share * Pow2(k) - b0, mod)
    ensures OtherMessage(b0, share, k, mod) == AddMod(b0, if share == 1 then mod - Pow2(k) else Pow2(k), mod)
  {
    hide Word, AddMod, Store, Minus, Pow2;
    BitTimes(share, k);
    MinusExact(b0, mod);
    MinusExact(Pow2(k), mod);
    StoreExact(sum, share * Pow2(k) + (mod - b0), mod);
    var d := if share == 1 then mod - Pow2(k) else Pow2(k);
    assert Word(d) == d;
    StoreExact(b0, d, mod);
  }

  lemma AddModShifted(a: int, b: int, c: int, k: int, mod: Modulus)
    requires b == c + k * mod
    ensures Cong(AddMod(a, b, mod), a + c, mod)
  {
    hide Cong;
    AddModCong(a, b, mod);
    CongIntro(a + b, a + c, k, mod);
    CongTrans(AddMod(a, b, mod), a + b, a + c, mod);
  }

  lemma SenderCongMod(sum: int, share: nat, k: nat, b0: int, mod: Modulus)
    requires mod < TWO64 && BitFits(k, mod) && share <= 1
    requires Reduced(sum, mod) && Reduced(b0, mod)
    ensures Cong(SenderStep(sum, share, k, b0, mod), sum + (share * Pow2(k) - b0), mod)
  {
    hide Cong, SenderStep, OtherMessage, AddMod, Pow2;
    SenderExact(sum, share, k, b0, mod);
    AddModShifted(sum, mod + share * Pow2(k) - b0, share * Pow2(k) - b0, 1, mod);
  }

  lemma MessageCongMod(share: nat, k: nat, b0: int, mod: Modulus)
    requires mod < TWO64 && BitFits(k, mod) && share <= 1 && Reduced(b0, mod)
    ensures Cong(OtherMessage(b0, share, k, mod), b0 + (1 - 2 * share) * Pow2(k), mod)
  {
    hide Cong, SenderStep, OtherMessage, AddMod, Pow2;
    SenderExact(0, share, k, b0, mod);
    BitTimes(share, k);
    if share == 1 {
      AddModShifted(b0, mod - Pow2(k), 0 - Pow2(k), 1, mod);
    } else {
      AddModShifted(b0, Pow2(k), Pow2(k), 0, mod);
    }
  }

  // ---------- one bit ----------

  lemma SenderCong(sum: int, share: nat, k: nat, b0: int, mod: WordMod)
    requires BitFits(k, mod) && share <= 1
    requires Reduced(sum, Ring(mod)) && Reduced(b0, Ring(mod))
    ensures Cong(SenderStep(sum, share, k, b0, mod), sum + (share * Pow2(k) - b0), Ring(mod))
    ensures Cong(OtherMessage(b0, share, k, mod), b0 + (1 - 2 * share) * Pow2(k), Ring(mod))
  {
    hide Cong, SenderStep, OtherMessage, Pow2;
    if mod == 0 {
      SenderCongNative(sum, share, k, b0);
      MessageCongNative(share, k, b0);
    } else {
      SenderCongMod(sum, share, k, b0, mod);
      MessageCongMod(share, k, b0, mod);
    }
  }

  lemma ReceiverCong(sum: int, r: int, k: nat, mod: WordMod)
    requires BitFits(k, mod) && Reduced(sum, Ring(mod)) && Reduced(r, Ring(mod))
    ensures Cong(ReceiverStep(sum, r, mod), sum + r, Ring(mod))
  {
    hide Cong;
    CongMod(sum + r, Ring(mod));
  }

  /** What the receiver learns for its choice bit. */
  function Chosen(c: nat, b0: int, b1: int): int {
    if c == 1 then b1 else b0
  }

  lemma OtherMessageReduced(b0: int, s: nat, k: nat, mod: WordMod)
    ensures Reduced(OtherMessage(b0, s, k, mod), Ring(mod))
  {
  }

  lemma XorTimes(s: nat, c: nat, x: int)
    requires s <= 1 && c <= 1
    ensures s * x + (if c == 1 then (1 - 2 * s) * x else 0) == Xor(s, c) * x
  {
  }

  /** One bit: the two sums grow by a sharing of the XOR of the two bits. */
  lemma BitConverted(sumS: int, sumR: int, v: int, s: nat, c: nat, k: nat, b0: int, mod: WordMod)
    requires BitFits(k, mod) && s <= 1 && c <= 1
    requires Reduced(sumS, Ring(mod)) && Reduced(sumR, Ring(mod)) && Reduced(b0, Ring(mod))
    requires Cong(sumS + sumR, v, Ring(mod))
    ensures var r := Chosen(c, b0, OtherMessage(b0, s, k, mod));
            Cong(SenderStep(sumS, s, k, b0, mod) + ReceiverStep(sumR, r, mod), v + Xor(s, c) * Pow2(k), Ring(mod))
  {
    hide Cong, OtherMessage, SenderStep, ReceiverStep, BitFits, Pow2;
    var m, x := Ring(mod), Pow2(k);
    var r := Chosen(c, b0, OtherMessage(b0, s, k, mod));
    var d := if c == 1 then (1 - 2 * s) * x else 0;
    var sender, receiver := SenderStep(sumS, s, k, b0, mod), ReceiverStep(sumR, r, mod);
    SenderCong(sumS, s, k, b0, mod);
    OtherMessageReduced(b0, s, k, mod);
    CongIntro(b0, b0, 0, m);
    assert Cong(r, b0 + d, m);
    ReceiverCong(sumR, r, k, mod);
    CongIntro(sumR, sumR, 0, m);
    CongAdd(sumR, sumR, r, b0 + d, m);
    CongTrans(receiver, sumR + r, sumR + (b0 + d), m);
    CongAdd(sender, sumS + (s * x - b0), receiver, sumR + (b0 + d), m);
    XorTimes(s, c, x);
    CongIntro(Xor(s, c) * x, Xor(s, c) * x, 0, m);
    CongAdd(sumS + sumR, v, Xor(s, c) * x, Xor(s, c) * x, m);
    CongTrans(sender + receiver, sumS + sumR + Xor(s, c) * x, v + Xor(s, c) * x, m);
  }

  // ---------- one value ----------

  /** The sender's result for one value, whose messages start at cell `at`. */
  function SenderSum(share: nat, b0: seq<int>, at: nat, bits: nat, mod: WordMod): (r: int)
    requires at + bits <= |b0|
    ensures Reduced(r, Ring(mod))
  {
    if bits == 0 then 0
    else SenderStep(SenderSum(share, b0, at, bits - 1, mod), Bit(share, bits - 1), bits - 1, b0[at + bits - 1], mod)
  }

  function ReceiverSum(r: seq<int>, at: nat, bits: nat, mod: WordMod): (s: int)
    requires at + bits <= |r|
    ensures Reduced(s, Ring(mod))
  {
    if bits == 0 then 0 else ReceiverStep(ReceiverSum(r, at, bits - 1, mod), r[at + bits - 1], mod)
  }

  /** The messages for one bit, random or, for a rejected client, zero. */
  ghost predicate BitSent(share: nat, ok: bool, b0: int, b1: int, k: nat, mod: WordMod) {
    if ok then Reduced(b0, Ring(mod)) && b1 == OtherMessage(b0, Bit(share, k), k, mod) else b0 == 0 && b1 == 0
  }

  ghost predicate ValueSent(share: nat, ok: bool, b0: seq<int>, b1: seq<int>, at: nat, bits: nat, mod: WordMod) {
    at + bits <= |b0| == |b1|
    && forall c :: at <= c < at + bits ==> BitSent(share, ok, b0[c], b1[c], c - at, mod)
  }

  ghost predicate ValueChosen(share: nat, choice: seq<nat>, at: nat, bits: nat) {
    at + bits <= |choice| && forall c :: at <= c < at + bits ==> choice[c] == Bit(share, c - at)
  }

  /** The ideal functionality: the receiver learns one message per cell. */
  ghost predicate Transferred(b0: seq<int>, b1: seq<int>, choice: seq<nat>, r: seq<int>) {
    |b0| == |b1| == |choice| == |r| && forall c :: 0 <= c < |r| ==> r[c] == Chosen(choice[c], b0[c], b1[c])
  }

  /** A value: the results are shares of the XOR, cut to the width. */
  lemma {:induction false} ValueConverted(s: nat, t: nat, b0: seq<int>, b1: seq<int>, choice: seq<nat>, r: seq<int>,
                                          at: nat, bits: nat, mod: WordMod)
    requires WidthFits(bits, mod) && Transferred(b0, b1, choice, r)
    requires ValueSent(s, true, b0, b1, at, bits, mod) && ValueChosen(t, choice, at, bits)
    ensures Cong(SenderSum(s, b0, at, bits, mod) + ReceiverSum(r, at, bits, mod), XorBits(s, t, bits), Ring(mod))
  {
    hide BitFits, OtherMessage, SenderStep, ReceiverStep, Bit, Cong, Pow2, Xor;
    if bits == 0 {
      CongIntro(0, 0, 0, Ring(mod));
    } else {
      var k, c := bits - 1, at + bits - 1;
      NarrowerFits(bits, k, mod);
      ValueConverted(s, t, b0, b1, choice, r, at, k, mod);
      assert BitSent(s, true, b0[c], b1[c], c - at, mod);
      assert choice[c] == Bit(t, c - at);
      BitConverted(SenderSum(s, b0, at, k, mod), ReceiverSum(r, at, k, mod), XorBits(s, t, k),
                   Bit(s, k), Bit(t, k), k, b0[c], mod);
    }
  }

  lemma {:induction false} ZeroSum(r: seq<int>, at: nat, bits: nat, mod: WordMod)
    requires at + bits <= |r| && forall c :: at <= c < at + bits ==> r[c] == 0
    ensures ReceiverSum(r, at, bits, mod) == 0
  {
    if bits > 0 {
      ZeroSum(r, at, bits - 1, mod);
      assert ReceiverStep(0, 0, mod) == 0;
    }
  }

  /** A rejected client's value: the receiver's result is 0. */
  lemma RejectedValue(s: nat, b0: seq<int>, b1: seq<int>, choice: seq<nat>, r: seq<int>, at: nat, bits: nat,
                      mod: WordMod)
    requires Transferred(b0, b1, choice, r) && ValueSent(s, false, b0, b1, at, bits, mod)
    ensures ReceiverSum(r, at, bits, mod) == 0
  {
    hide ReceiverSum, OtherMessage, Bit;
    forall c | at <= c < at + bits ensures r[c] == 0 {
      assert BitSent(s, false, b0[c], b1[c], c - at, mod);
    }
    ZeroSum(r, at, bits, mod);
  }

  // ---------- the two programs ----------

  /** Cells of the values before value j of a row. */
  function Start(numBits: seq<nat>, j: nat): (r: nat)
    requires j <= |numBits|
  {
    if j == 0 then 0 else Start(numBits, j - 1) + numBits[j-1]
  }

  lemma {:induction false} StartMonotone(numBits: seq<nat>, j: nat, k: nat)
    requires j <= k <= |numBits|
    ensures Start(numBits, j) <= Start(numBits, k)
    decreases k
  {
    if j < k {
      StartMonotone(numBits, j, k - 1);
    }
  }

  ghost predicate SameCells<T>(a: seq<T>, b: seq<T>, lo: nat, hi: nat) {
    |a| == |b| && hi <= |a| && forall c :: lo <= c < hi ==> a[c] == b[c]
  }

  lemma {:induction false} SenderSumSame(share: nat, b: seq<int>, b': seq<int>, at: nat, bits: nat, mod: WordMod)
    requires at + bits <= |b| && SameCells(b, b', at, at + bits)
    ensures SenderSum(share, b, at, bits, mod) == SenderSum(share, b', at, bits, mod)
  {
    hide SenderStep;
    if bits > 0 {
      SenderSumSame(share, b, b', at, bits - 1, mod);
      assert b[at + bits - 1] == b'[at + bits - 1];
    }
  }

  /** A value has been sent and `out` is the sender's result for it. */
  ghost predicate ValueDone(share: nat, ok: bool, b0: seq<int>, b1: seq<int>, at: nat, bits: nat, out: int,
                            mod: WordMod) {
    && ValueSent(share, ok, b0, b1, at, bits, mod)
    && out == if ok then SenderSum(share, b0, at, bits, mod) else 0
  }

  lemma ValueDoneSame(share: nat, ok: bool, b0: seq<int>, b1: seq<int>, c0: seq<int>, c1: seq<int>,
                      at: nat, bits: nat, out: int, mod: WordMod)
    requires ValueDone(share, ok, b0, b1, at, bits, out, mod)
    requires SameCells(b0, c0, at, at + bits) && SameCells(b1, c1, at, at + bits)
    ensures ValueDone(share, ok, c0, c1, at, bits, out, mod)
  {
    hide BitSent;
    SenderSumSame(share, b0, c0, at, bits, mod);
    forall c | at <= c < at + bits ensures BitSent(share, ok, c0[c], c1[c], c - at, mod) {
      assert BitSent(share, ok, b0[c], b1[c], c - at, mod);
    }
  }

  /** Value j of a row. */
  ghost predicate CellDone(share: nat, ok: bool, b0: seq<int>, b1: seq<int>, start: nat, numBits: seq<nat>, j: nat,
                           out: int, mod: WordMod)
    requires j < |numBits|
  {
    ValueDone(share, ok, b0, b1, start + Start(numBits, j), numBits[j], out, mod)
  }

  ghost predicate RowDone(row: seq<nat>, ok: bool, b0: seq<int>, b1: seq<int>, start: nat, numBits: seq<nat>,
                          out: seq<int>, mod: WordMod)
  {
    |out| <= |row| == |numBits|
    && forall j :: 0 <= j < |out| ==> CellDone(row[j], ok, b0, b1, start, numBits, j, out[j], mod)
  }

  lemma CellDoneSame(share: nat, ok: bool, b0: seq<int>, b1: seq<int>, c0: seq<int>, c1: seq<int>,
                     start: nat, numBits: seq<nat>, j: nat, n: nat, out: int, mod: WordMod)
    requires j < n <= |numBits| && CellDone(share, ok, b0, b1, start, numBits, j, out, mod)
    requires SameCells(b0, c0, start, start + Start(numBits, n))
    requires SameCells(b1, c1, start, start + Start(numBits, n))
    ensures CellDone(share, ok, c0, c1, start, numBits, j, out, mod)
  {
    hide ValueDone;
    StartMonotone(numBits, j + 1, n);
    assert Start(numBits, j + 1) == Start(numBits, j) + numBits[j];
    ValueDoneSame(share, ok, b0, b1, c0, c1, start + Start(numBits, j), numBits[j], out, mod);
  }

  lemma RowDoneSame(row: seq<nat>, ok: bool, b0: seq<int>, b1: seq<int>, c0: seq<int>, c1: seq<int>,
                    start: nat, numBits: seq<nat>, out: seq<int>, mod: WordMod)
    requires RowDone(row, ok, b0, b1, start, numBits, out, mod)
    requires SameCells(b0, c0, start, start + Start(numBits, |out|))
    requires SameCells(b1, c1, start, start + Start(numBits, |out|))
    ensures RowDone(row, ok, c0, c1, start, numBits, out, mod)
  {
    hide CellDone, SameCells, Start;
    forall j | 0 <= j < |out|
      ensures CellDone(row[j], ok, c0, c1, start, numBits, j, out[j], mod)
    {
      CellDoneSame(row[j], ok, b0, b1, c0, c1, start, numBits, j, |out|, out[j], mod);
    }
  }

  /** A word, reduced when there is a modulus. */
  method Stored(x: int, mod: WordMod) returns (r: int)
    ensures r == Store(x, mod)
  {
    r := Word(x);
    if mod != 0 {
      r := r % mod;
    }
  }

  /** Any word, reduced when there is a modulus. */
  method RandomMessage(mod: WordMod) returns (m: int)
    ensures Reduced(m, Ring(mod))
  {
    m :| 0 <= m < TWO64;
    if mod != 0 {
      m := m % mod;
    }
  }

  method BitMessages(share: nat, k: nat, sum: int, mod: WordMod) returns (m0: int, m1: int, out: int)
    requires share <= 1
    ensures Reduced(m0, Ring(mod)) && m1 == OtherMessage(m0, share, k, mod)
    ensures out == SenderStep(sum, share, k, m0, mod)
  {
    hide Word, Minus, Pow2, Store;
    var pow := Word(Pow2(k));
    var minusPow := Minus(pow, mod);
    m0 := RandomMessage(mod);
    var minusM0 := Minus(m0, mod);
    m1 := Stored(m0 + if share == 1 then minusPow else pow, mod);
    out := Stored(sum + Word(Word(share * Word(Pow2(k))) + minusM0), mod);
  }

  method SendBit(share: nat, k: nat, b0: array<int>, b1: array<int>, idx: nat, sum: int,
                 mod: WordMod) returns (out: int)
    requires b0 != b1 && idx < b0.Length == b1.Length && share <= 1
    modifies b0, b1
    ensures forall c :: 0 <= c < b0.Length && c != idx ==> b0[c] == old(b0[c]) && b1[c] == old(b1[c])
    ensures Reduced(b0[idx], Ring(mod)) && b1[idx] == OtherMessage(b0[idx], share, k, mod)
    ensures out == SenderStep(sum, share, k, b0[idx], mod)
  {
    var m0, m1;
    m0, m1, out := BitMessages(share, k, sum, mod);
    b0[idx] := m0;
    b1[idx] := m1;
  }

  method SendValue(share: nat, bits: nat, b0: array<int>, b1: array<int>, idx: nat, mod: WordMod) returns (sum: int)
    requires b0 != b1 && idx + bits <= b0.Length == b1.Length
    modifies b0, b1
    ensures forall c :: 0 <= c < b0.Length && !(idx <= c < idx + bits) ==> b0[c] == old(b0[c]) && b1[c] == old(b1[c])
    ensures ValueDone(share, true, b0[..], b1[..], idx, bits, sum, mod)
  {
    hide OtherMessage, SenderStep, Ring;
    sum := 0;
    var num := share;
    for k := 0 to bits
      invariant num == Shr(share, k)
      invariant forall c :: 0 <= c < b0.Length && !(idx <= c < idx + k) ==> b0[c] == old(b0[c]) && b1[c] == old(b1[c])
      invariant ValueDone(share, true, b0[..], b1[..], idx, k, sum, mod)
    {
      ghost var w0, w1 := b0[..], b1[..];
      var boolShare := num % 2;
      num := num / 2;
      ghost var was := sum;
      sum := SendBit(boolShare, k, b0, b1, idx + k, sum, mod);
      ValueDoneSame(share, true, w0, w1, b0[..], b1[..], idx, k, was, mod);
    }
  }

  /** The messages of a rejected client. */
  method SendZeros(b0: array<int>, b1: array<int>, idx: nat, bits: nat)
    requires b0 != b1 && idx + bits <= b0.Length == b1.Length
    modifies b0, b1
    ensures forall c :: 0 <= c < b0.Length && !(idx <= c < idx + bits) ==> b0[c] == old(b0[c]) && b1[c] == old(b1[c])
    ensures forall c :: idx <= c < idx + bits ==> b0[c] == 0 && b1[c] == 0
  {
    for k := 0 to bits
      invariant forall c :: 0 <= c < b0.Length && !(idx <= c < idx + k) ==> b0[c] == old(b0[c]) && b1[c] == old(b1[c])
      invariant forall c :: idx <= c < idx + k ==> b0[c] == 0 && b1[c] == 0
    {
      b0[idx+k] := 0;
      b1[idx+k] := 0;
    }
  }

  method SendRow(row: seq<nat>, ok: bool, numBits: seq<nat>, b0: array<int>, b1: array<int>, start: nat, mod: WordMod)
    returns (ret: seq<int>)
    requires b0 != b1 && |row| == |numBits|
    requires start + Start(numBits, |numBits|) <= b0.Length == b1.Length
    modifies b0, b1
    ensures forall c :: 0 <= c < b0.Length && !(start <= c < start + Start(numBits, |numBits|)) ==>
              b0[c] == old(b0[c]) && b1[c] == old(b1[c])
    ensures |ret| == |row| && RowDone(row, ok, b0[..], b1[..], start, numBits, ret, mod)
  {
    hide ValueDone;
    ret := [];
    var idx := start;
    for j := 0 to |row|
      invariant |ret| == j && idx == start + Start(numBits, j) && idx <= b0.Length
      invariant forall c :: 0 <= c < b0.Length && !(start <= c < idx) ==>
                  b0[c] == old(b0[c]) && b1[c] == old(b1[c])
      invariant RowDone(row, ok, b0[..], b1[..], start, numBits, ret, mod)
    {
      StartMonotone(numBits, j + 1, |numBits|);
      ghost var w0, w1 := b0[..], b1[..];
      var value := 0;
      if ok {
        value := SendValue(row[j], numBits[j], b0, b1, idx, mod);
      } else {
        SendZeros(b0, b1, idx, numBits[j]);
        RejectedDone(row[j], b0[..], b1[..], idx, numBits[j], mod);
      }
      RowDoneSame(row, ok, w0, w1, b0[..], b1[..], start, numBits, ret, mod);
      ret := ret + [value];
      idx := idx + numBits[j];
    }
  }

  lemma RejectedDone(share: nat, b0: seq<int>, b1: seq<int>, at: nat, bits: nat, mod: WordMod)
    requires at + bits <= |b0| == |b1|
    requires forall c :: at <= c < at + bits ==> b0[c] == 0 && b1[c] == 0
    ensures ValueDone(share, false, b0, b1, at, bits, 0, mod)
  {
  }

  method SendRows(shares: seq<seq<nat>>, valid: seq<bool>, numBits: seq<nat>, total: nat, b0: array<int>,
                  b1: array<int>,
                  mod: WordMod)
    returns (ret: seq<seq<int>>)
    requires |valid| == |shares| && forall i :: 0 <= i < |shares| ==> |shares[i]| == |numBits|
    requires b0 != b1 && b0.Length == b1.Length == RowStart(|shares|, total) && total == Start(numBits, |numBits|)
    modifies b0, b1
    ensures |ret| == |shares|
    ensures forall i :: 0 <= i < |ret| ==>
              |ret[i]| == |numBits| && RowDone(shares[i], valid[i], b0[..], b1[..], RowStart(i, total), numBits,
                                               ret[i], mod)
  {
    hide RowDone, Start, RowStart;
    ret := [];
    for i := 0 to |shares|
      invariant |ret| == i
      invariant forall m :: 0 <= m < i ==>
                  |ret[m]| == |numBits| && RowDone(shares[m], valid[m], b0[..], b1[..], RowStart(m, total), numBits,
                                                   ret[m], mod)
    {
      ghost var w0, w1 := b0[..], b1[..];
      RowsFit(i, |shares|, total);
      var row := SendRow(shares[i], valid[i], numBits, b0, b1, RowStart(i, total), mod);
      forall m | 0 <= m < i
        ensures RowDone(shares[m], valid[m], b0[..], b1[..], RowStart(m, total), numBits, ret[m], mod)
      {
        RowsFit(m, i, total);
        RowDoneSame(shares[m], valid[m], w0, w1, b0[..], b1[..], RowStart(m, total), numBits, ret[m], mod);
      }
      ret := ret + [row];
    }
  }

  method IntsumSender(shares: seq<seq<nat>>, valid: seq<bool>, numBits: seq<nat>, mod: WordMod)
    returns (ret: seq<seq<int>>, b0: array<int>, b1: array<int>)
    requires |valid| == |shares| && forall i :: 0 <= i < |shares| ==> |shares[i]| == |numBits|
    ensures b0.Length == b1.Length == RowStart(|shares|, Start(numBits, |numBits|)) && |ret| == |shares|
    ensures forall i :: 0 <= i < |ret| ==>
              && |ret[i]| == |numBits|
              && RowDone(shares[i], valid[i], b0[..], b1[..], RowStart(i, Start(numBits, |numBits|)), numBits, ret[i],
                         mod)
  {
    hide RowDone, Start, RowStart;
    var total := Start(numBits, |numBits|);
    b0 := new int[RowStart(|shares|, total)];
    b1 := new int[RowStart(|shares|, total)];
    ret := SendRows(shares, valid, numBits, total, b0, b1, mod);
  }

  // ---------- the receiver ----------

  /** The choice bits of value j of a row. */
  ghost predicate CellChosen(share: nat, choice: seq<nat>, start: nat, numBits: seq<nat>, j: nat)
    requires j < |numBits|
  {
    ValueChosen(share, choice, start + Start(numBits, j), numBits[j])
  }

  ghost predicate RowChosen(row: seq<nat>, choice: seq<nat>, start: nat, numBits: seq<nat>, n: nat) {
    n <= |row| == |numBits| && forall j :: 0 <= j < n ==> CellChosen(row[j], choice, start, numBits, j)
  }

  method ChooseValue(share: nat, bits: nat, choice: array<nat>, idx: nat)
    requires idx + bits <= choice.Length
    modifies choice
    ensures forall c :: 0 <= c < choice.Length && !(idx <= c < idx + bits) ==> choice[c] == old(choice[c])
    ensures ValueChosen(share, choice[..], idx, bits)
  {
    var num := share;
    for k := 0 to bits
      invariant num == Shr(share, k)
      invariant forall c :: 0 <= c < choice.Length && !(idx <= c < idx + k) ==> choice[c] == old(choice[c])
      invariant forall c :: idx <= c < idx + k ==> choice[c] == Bit(share, c - idx)
    {
      choice[idx+k] := num % 2;
      num := num / 2;
    }
  }

  lemma RowChosenSame(row: seq<nat>, choice: seq<nat>, choice': seq<nat>, start: nat, numBits: seq<nat>, n: nat)
    requires RowChosen(row, choice, start, numBits, n)
    requires SameCells(choice, choice', start, start + Start(numBits, n))
    ensures RowChosen(row, choice', start, numBits, n)
  {
    hide Bit;
    forall j | 0 <= j < n ensures CellChosen(row[j], choice', start, numBits, j) {
      assert CellChosen(row[j], choice, start, numBits, j);
      StartMonotone(numBits, j + 1, n);
      assert Start(numBits, j + 1) == Start(numBits, j) + numBits[j];
    }
  }

  method ChooseRow(row: seq<nat>, numBits: seq<nat>, choice: array<nat>, start: nat)
    requires |row| == |numBits| && start + Start(numBits, |numBits|) <= choice.Length
    modifies choice
    ensures forall c :: 0 <= c < choice.Length && !(start <= c < start + Start(numBits, |numBits|)) ==>
              choice[c] == old(choice[c])
    ensures RowChosen(row, choice[..], start, numBits, |row|)
  {
    hide ValueChosen;
    var idx := start;
    for j := 0 to |row|
      invariant idx == start + Start(numBits, j) && idx <= choice.Length
      invariant forall c :: 0 <= c < choice.Length && !(start <= c < idx) ==> choice[c] == old(choice[c])
      invariant RowChosen(row, choice[..], start, numBits, j)
    {
      StartMonotone(numBits, j + 1, |numBits|);
      ghost var was := choice[..];
      ChooseValue(row[j], numBits[j], choice, idx);
      RowChosenSame(row, was, choice[..], start, numBits, j);
      idx := idx + numBits[j];
    }
  }

  method IntsumChoices(shares: seq<seq<nat>>, numBits: seq<nat>) returns (choice: array<nat>)
    requires forall i :: 0 <= i < |shares| ==> |shares[i]| == |numBits|
    ensures choice.Length == RowStart(|shares|, Start(numBits, |numBits|))
    ensures forall i :: 0 <= i < |shares| ==>
              RowChosen(shares[i], choice[..], RowStart(i, Start(numBits, |numBits|)), numBits, |numBits|)
  {
    hide CellChosen, Start, RowStart;
    var total := Start(numBits, |numBits|);
    choice := new nat[RowStart(|shares|, total)];
    for i := 0 to |shares|
      invariant forall m :: 0 <= m < i ==> RowChosen(shares[m], choice[..], RowStart(m, total), numBits, |numBits|)
    {
      ghost var was := choice[..];
      RowsFit(i, |shares|, total);
      ChooseRow(shares[i], numBits, choice, RowStart(i, total));
      forall m | 0 <= m < i ensures RowChosen(shares[m], choice[..], RowStart(m, total), numBits, |numBits|) {
        RowsFit(m, i, total);
        RowChosenSame(shares[m], was, choice[..], RowStart(m, total), numBits, |numBits|);
      }
    }
  }

  method SumValue(r: array<int>, idx: nat, bits: nat, mod: WordMod) returns (sum: int)
    requires idx + bits <= r.Length
    ensures sum == ReceiverSum(r[..], idx, bits, mod)
  {
    hide ReceiverStep;
    sum := 0;
    for k := 0 to bits
      invariant sum == ReceiverSum(r[..], idx, k, mod)
    {
      sum := AddMessage(sum, r[idx+k], mod);
    }
  }

  method AddMessage(sum: int, r: int, mod: WordMod) returns (s: int)
    ensures s == ReceiverStep(sum, r, mod)
  {
    s := Word(sum + r);
    if mod != 0 {
      s := s % mod;
    }
  }

  /** What the receiver's sums are for a row that starts at cell `start`. */
  ghost predicate RowSummed(r: seq<int>, start: nat, numBits: seq<nat>, out: seq<int>, mod: WordMod) {
    |out| <= |numBits| && start + Start(numBits, |out|) <= |r|
    && forall j :: 0 <= j < |out| ==> CellSummed(r, start, numBits, j, out[j], mod)
  }

  ghost predicate CellSummed(r: seq<int>, start: nat, numBits: seq<nat>, j: nat, out: int, mod: WordMod)
    requires j < |numBits|
  {
    start + Start(numBits, j) + numBits[j] <= |r| && out == ReceiverSum(r, start + Start(numBits, j), numBits[j], mod)
  }

  method SumRow(r: array<int>, start: nat, numBits: seq<nat>, mod: WordMod) returns (ret: seq<int>)
    requires start + Start(numBits, |numBits|) <= r.Length
    ensures |ret| == |numBits| && RowSummed(r[..], start, numBits, ret, mod)
  {
    ret := [];
    var idx := start;
    for j := 0 to |numBits|
      invariant |ret| == j && idx == start + Start(numBits, j) && idx <= r.Length
      invariant RowSummed(r[..], start, numBits, ret, mod)
    {
      StartMonotone(numBits, j + 1, |numBits|);
      var value := SumValue(r, idx, numBits[j], mod);
      ret := ret + [value];
      idx := idx + numBits[j];
    }
  }

  method IntsumReceiver(r: array<int>, numShares: nat, numBits: seq<nat>, mod: WordMod) returns (ret: seq<seq<int>>)
    requires r.Length == RowStart(numShares, Start(numBits, |numBits|))
    ensures |ret| == numShares
    ensures forall i :: 0 <= i < numShares ==>
              |ret[i]| == |numBits|
              && RowSummed(r[..], RowStart(i, Start(numBits, |numBits|)), numBits, ret[i], mod)
  {
    hide CellSummed, Start, RowStart;
    ret := [];
    for i := 0 to numShares
      invariant |ret| == i
      invariant forall m :: 0 <= m < i ==>
                  |ret[m]| == |numBits|
                  && RowSummed(r[..], RowStart(m, Start(numBits, |numBits|)), numBits, ret[m], mod)
    {
      RowsFit(i, numShares, Start(numBits, |numBits|));
      var row := SumRow(r, RowStart(i, Start(numBits, |numBits|)), numBits, mod);
      ret := ret + [row];
    }
  }

  /** The ideal transfer. */
  method Transfer(b0: array<int>, b1: array<int>, choice: array<nat>) returns (r: array<int>)
    requires b0.Length == b1.Length == choice.Length
    ensures Transferred(b0[..], b1[..], choice[..], r[..])
  {
    r := new int[b0.Length];
    for c := 0 to b0.Length
      invariant forall d :: 0 <= d < c ==> r[d] == Chosen(choice[d], b0[d], b1[d])
    {
      r[c] := Chosen(choice[c], b0[c], b1[c]);
    }
  }

  // ---------- both servers ----------

  /** What the two results for one value are shares of. */
  ghost function Converted(s: nat, t: nat, ok: bool, bits: nat): nat {
    if ok then XorBits(s, t, bits) else 0
  }

  lemma CellConverted(s: nat, t: nat, ok: bool, b0: seq<int>, b1: seq<int>, choice: seq<nat>, r: seq<int>,
                      start: nat, numBits: seq<nat>, j: nat, outS: int, outR: int, mod: WordMod)
    requires j < |numBits| && Transferred(b0, b1, choice, r)
    requires CellDone(s, ok, b0, b1, start, numBits, j, outS, mod)
    requires CellChosen(t, choice, start, numBits, j) && CellSummed(r, start, numBits, j, outR, mod)
    ensures WidthFits(numBits[j], mod) ==> Cong(outS + outR, Converted(s, t, ok, numBits[j]), Ring(mod))
    ensures !ok ==> outS == outR == 0
    ensures Reduced(outS, Ring(mod)) && Reduced(outR, Ring(mod))
  {
    hide SenderSum, ReceiverSum, Transferred, ValueSent, ValueChosen, Start, XorBits, Cong, WidthFits;
    var at := start + Start(numBits, j);
    if ok {
      if WidthFits(numBits[j], mod) {
        ValueConverted(s, t, b0, b1, choice, r, at, numBits[j], mod);
      }
    } else {
      RejectedValue(s, b0, b1, choice, r, at, numBits[j], mod);
      CongIntro(0, 0, 0, Ring(mod));
    }
  }

  /** `intsum_ot_sender` on one server, `intsum_ot_receiver` on the other. */
  method IntsumOt(shares0: seq<seq<nat>>, shares1: seq<seq<nat>>, valid: seq<bool>, numBits: seq<nat>, mod: WordMod)
    returns (ret0: seq<seq<int>>, ret1: seq<seq<int>>)
    requires |valid| == |shares0| == |shares1|
    requires forall i :: 0 <= i < |shares0| ==> |shares0[i]| == |shares1[i]| == |numBits|
    ensures |ret0| == |ret1| == |shares0|
    ensures forall i :: 0 <= i < |ret0| ==> |ret0[i]| == |ret1[i]| == |numBits|
    ensures forall i, j :: 0 <= i < |ret0| && 0 <= j < |numBits| ==>
              && (WidthFits(numBits[j], mod) ==>
                    Cong(ret0[i][j] + ret1[i][j], Converted(shares0[i][j], shares1[i][j], valid[i], numBits[j]),
                         Ring(mod)))
              && (!valid[i] ==> ret0[i][j] == ret1[i][j] == 0)
              && Reduced(ret0[i][j], Ring(mod)) && Reduced(ret1[i][j], Ring(mod))
  {
    hide CellDone, CellSummed, CellChosen, Transferred, Start, RowStart, Converted, Cong, WidthFits;
    var b0, b1;
    ret0, b0, b1 := IntsumSender(shares0, valid, numBits, mod);
    var choice := IntsumChoices(shares1, numBits);
    var r := Transfer(b0, b1, choice);
    assert r.Length == RowStart(|shares1|, Start(numBits, |numBits|)) by {
      TransferredSize(b0[..], b1[..], choice[..], r[..]);
    }
    ret1 := IntsumReceiver(r, |shares1|, numBits, mod);
    forall i, j | 0 <= i < |ret0| && 0 <= j < |numBits|
      ensures WidthFits(numBits[j], mod) ==>
                Cong(ret0[i][j] + ret1[i][j], Converted(shares0[i][j], shares1[i][j], valid[i], numBits[j]), Ring(mod))
      ensures !valid[i] ==> ret0[i][j] == ret1[i][j] == 0
      ensures Reduced(ret0[i][j], Ring(mod)) && Reduced(ret1[i][j], Ring(mod))
    {
      CellConverted(shares0[i][j], shares1[i][j], valid[i], b0[..], b1[..], choice[..], r[..],
                    RowStart(i, Start(numBits, |numBits|)), numBits, j, ret0[i][j], ret1[i][j], mod);
    }
  }

  lemma TransferredSize(b0: seq<int>, b1: seq<int>, choice: seq<nat>, r: seq<int>)
    requires Transferred(b0, b1, choice, r)
    ensures |b0| == |b1| == |choice| == |r|
  {
  }

  // ---------- exactly when the words suffice ----------

  function Received(s: nat, t: nat, b0: seq<int>, mod: WordMod): (r: seq<int>)
    ensures |r| == |b0|
  {
    seq(|b0|, k requires 0 <= k < |b0| => Chosen(Bit(t, k), b0[k], OtherMessage(b0[k], Bit(s, k), k, mod)))
  }

  /** This value, with these random messages, is converted correctly. */
  ghost predicate Converts(s: nat, t: nat, b0: seq<int>, mod: WordMod) {
    var bits := |b0|;
    Cong(SenderSum(s, b0, 0, bits, mod) + ReceiverSum(Received(s, t, b0, mod), 0, bits, mod), XorBits(s, t, bits),
         Ring(mod))
  }

  ghost predicate AlwaysConverts(bits: nat, mod: WordMod) {
    forall s: nat, t: nat, b0: seq<int> :: |b0| == bits && AllReduced(b0, Ring(mod)) ==> Converts(s, t, b0, mod)
  }

  lemma FittingWidthConverts(s: nat, t: nat, b0: seq<int>, mod: WordMod)
    requires WidthFits(|b0|, mod) && AllReduced(b0, Ring(mod))
    ensures Converts(s, t, b0, mod)
  {
    hide OtherMessage, Bit, WidthFits, Cong, SenderSum, ReceiverSum, Ring;
    var bits := |b0|;
    var b1 := seq(bits, k requires 0 <= k < bits => OtherMessage(b0[k], Bit(s, k), k, mod));
    var choice: seq<nat> := seq(bits, k requires 0 <= k < bits => Bit(t, k));
    assert Transferred(b0, b1, choice, Received(s, t, b0, mod));
    assert ValueSent(s, true, b0, b1, 0, bits, mod);
    ValueConverted(s, t, b0, b1, choice, Received(s, t, b0, mod), 0, bits, mod);
  }

  lemma {:induction false} OddModulusPowers(n: nat, m: Modulus)
    requires m % 2 == 1
    ensures !Cong(Pow2(n), 0, m)
  {
    if n > 0 {
      OddModulusPowers(n - 1, m);
      if Cong(Pow2(n), 0, m) {
        HalveCong(Pow2(n - 1), m);
      }
    }
  }

  lemma HalveCong(x: int, m: Modulus)
    requires m % 2 == 1 && Cong(2 * x, 0, m)
    ensures Cong(x, 0, m)
  {
    var k := CongWitness(2 * x, 0, m);
    ParityOfProduct(k, m);
    HalfTimes(k, m);
    CongIntro(x, 0, k / 2, m);
  }

  lemma ParityOfProduct(k: int, m: int)
    requires m % 2 == 1 && (k * m) % 2 == 0
    ensures k % 2 == 0
  {
    if k % 2 == 1 {
      assert k * m == 2 * (k / 2 * m + m / 2) + 1 by {
        Distribute(m, 2 * (k / 2), 1);
        Assoc(2, k / 2, m);
      }
    }
  }

  lemma HalfTimes(k: int, m: int)
    requires k % 2 == 0
    ensures k * m == 2 * (k / 2 * m)
  {
    Assoc(2, k / 2, m);
  }

  lemma {:induction false} ShrPow2(k: nat, i: nat)
    requires i <= k
    ensures Shr(Pow2(k), i) == Pow2(k - i)
  {
    if i > 0 {
      ShrPow2(k, i - 1);
    }
  }

  lemma BitPow2(k: nat, i: nat)
    requires i <= k
    ensures Bit(Pow2(k), i) == if i == k then 1 else 0
  {
    hide Shr;
    ShrPow2(k, i);
    if i < k {
      assert Pow2(k - i) == 2 * Pow2(k - i - 1);
    }
  }

  lemma {:induction false} BitZero(i: nat)
    ensures Shr(0, i) == 0 && Bit(0, i) == 0
  {
    if i > 0 {
      BitZero(i - 1);
    }
  }

  lemma {:induction false} XorWithZero(a: nat, bits: nat)
    ensures XorBits(a, 0, bits) == LowBits(a, bits)
  {
    if bits > 0 {
      BitZero(bits - 1);
      XorWithZero(a, bits - 1);
    }
  }

  /** Where both low parts and all messages are 0, neither sum moves. */
  lemma {:induction false} QuietBits(k: nat, t: nat, b0: seq<int>, bits: nat, mod: Modulus)
    requires mod < TWO64 && bits <= k < 64 && bits <= |b0|
    requires forall i :: 0 <= i < bits ==> b0[i] == 0 && Bit(t, i) == 0
    ensures SenderSum(Pow2(k), b0, 0, bits, mod) == 0
    ensures ReceiverSum(Received(Pow2(k), t, b0, mod), 0, bits, mod) == 0
  {
    hide SenderStep, ReceiverStep, Bit, OtherMessage;
    if bits > 0 {
      QuietBits(k, t, b0, bits - 1, mod);
      BitPow2(k, bits - 1);
      SenderAtZero(bits - 1, mod);
    }
  }

  lemma SmallMod(x: int, m: Modulus)
    ensures 0 <= x < m ==> x % m == x
    ensures m % m == 0
  {
  }

  lemma StoreSmall(x: int, mod: Modulus)
    requires mod < TWO64
    ensures 0 <= x < mod ==> Store(x, mod) == x
    ensures Store(mod, mod) == 0
  {
    hide Word;
    SmallMod(x, mod);
  }

  lemma SenderAtZero(k: nat, mod: Modulus)
    requires mod < TWO64
    ensures SenderStep(0, 0, k, 0, mod) == 0 && ReceiverStep(0, 0, mod) == 0
    ensures SenderStep(0, 0, k, 1, mod) == mod - 1
    ensures ReceiverStep(0, 1, mod) == 1 && ReceiverStep(1, 0, mod) == 1
  {
    hide Store, Word, Minus;
    MinusExact(0, mod);
    MinusExact(1, mod);
    StoreSmall(0, mod);
    StoreSmall(1, mod);
    StoreSmall(mod - 1, mod);
    assert Word(0 * Word(Pow2(k))) == 0;
  }

  /** A sum that overflows loses one or two multiples of 2^64. */
  lemma OverflowStep(k: nat, mod: Modulus)
    requires mod < TWO64 && k < 64 && Pow2(k) <= mod && mod % 2 == 1 && 2 * mod + Pow2(k) > TWO64
    ensures !Cong(SenderStep(mod - 1, 1, k, 0, mod) + 1, Pow2(k), mod)
  {
    hide Cong, Word, Minus, Pow2;
    BitTimes(1, k);
    MinusExact(0, mod);
    var x := Word(mod - 1 + Word(Pow2(k) + mod));
    var lost := mod - 1 + Pow2(k) + mod - x;
    assert SenderStep(mod - 1, 1, k, 0, mod) == x % mod;
    LostWords(mod - 1, Pow2(k), mod);
    CongMod(x, mod);
    if Cong(x % mod + 1, Pow2(k), mod) {
      CongIntro(1, 1, 0, mod);
      CongAdd(x % mod, x, 1, 1, mod);
      CongZeroFrom(x % mod + 1, x + 1, Pow2(k), mod);
      CongIntro(lost, Pow2(k) - (x + 1), 2, mod);
      CongTrans(lost, Pow2(k) - (x + 1), 0, mod);
      LostIsPower(lost, mod);
    }
  }

  lemma CongZeroFrom(a: int, b: int, c: int, mod: Modulus)
    requires Cong(a, b, mod) && Cong(a, c, mod)
    ensures Cong(c - b, 0, mod)
  {
    CongZeroDifference(c, b, mod);
  }

  lemma LostIsPower(lost: int, mod: Modulus)
    requires mod % 2 == 1 && (lost == TWO64 || lost == 2 * TWO64)
    ensures !Cong(lost, 0, mod)
  {
    hide Cong;
    Pow2At64();
    assert Pow2(65) == 2 * TWO64;
    OddModulusPowers(64, mod);
    OddModulusPowers(65, mod);
  }

  lemma LostWords(a: nat, b: nat, c: nat)
    requires a < TWO64 && b < TWO64 && c < TWO64 && a + b + c >= TWO64
    ensures var lost := a + b + c - Word(a + Word(b + c)); lost == TWO64 || lost == 2 * TWO64
  {
  }

  /**
   For an odd modulus the conversion of `bits` bits is right for all shares and all randomness
   exactly when the top bit fits: 2^(bits-1) <= mod and 2 mod + 2^(bits-1) <= 2^64.
   */
  lemma ConversionExact(bits: nat, mod: Modulus)
    requires bits <= 64 && mod < TWO64 && mod % 2 == 1
    ensures AlwaysConverts(bits, mod) <==> WidthFits(bits, mod)
  {
    if WidthFits(bits, mod) {
      forall s: nat, t: nat, b0: seq<int> | |b0| == bits && AllReduced(b0, Ring(mod)) ensures Converts(s, t, b0, mod) {
        FittingWidthConverts(s, t, b0, mod);
      }
    } else if Pow2(bits - 1) > mod {
      NegativePower(bits - 1, mod);
    } else if bits == 1 {
      OverflowOneBit(mod);
    } else {
      OverflowWide(bits - 1, mod);
    }
  }

  /** `max - pow + 1` wraps for a power above the modulus: two equal shares do not open to 0. */
  lemma NegativePower(k: nat, mod: Modulus)
    requires k < 64 && mod < TWO64 && mod % 2 == 1 && Pow2(k) > mod
    ensures !AlwaysConverts(k + 1, mod)
  {
    hide SenderStep, ReceiverStep, Cong, OtherMessage, Bit;
    var s, b0 := Pow2(k), seq(k + 1, i => 0);
    assert AllReduced(b0, Ring(mod));
    forall i | 0 <= i <= k ensures Bit(s, i) == if i == k then 1 else 0 {
      BitPow2(k, i);
    }
    QuietBits(k, s, b0, k, mod);
    NegativePowerStep(k, mod);
    assert SenderSum(s, b0, 0, k + 1, mod) == SenderStep(0, 1, k, 0, mod);
    assert Received(s, s, b0, mod)[k] == OtherMessage(0, 1, k, mod);
    assert ReceiverSum(Received(s, s, b0, mod), 0, k + 1, mod) == ReceiverStep(0, OtherMessage(0, 1, k, mod), mod);
    XorWithSelf(s, k + 1);
    assert !Converts(s, s, b0, mod);
  }

  lemma NegativePowerStep(k: nat, mod: Modulus)
    requires k < 64 && mod < TWO64 && mod % 2 == 1 && Pow2(k) > mod
    ensures !Cong(SenderStep(0, 1, k, 0, mod) + ReceiverStep(0, OtherMessage(0, 1, k, mod), mod), 0, mod)
  {
    hide Cong, Word, Minus, Pow2;
    Pow2At64();
    Pow2Monotone(k, 63);
    BitTimes(1, k);
    MinusExact(0, mod);
    MinusWraps(Pow2(k), mod);
    var x, y := Pow2(k) + mod, TWO64 + mod - Pow2(k);
    assert SenderStep(0, 1, k, 0, mod) == x % mod;
    assert OtherMessage(0, 1, k, mod) == y % mod;
    StoreSmall(y % mod, mod);
    CongMod(x, mod);
    CongMod(y, mod);
    CongAdd(x % mod, x, y % mod, y, mod);
    if Cong(x % mod + y % mod, 0, mod) {
      CongIntro(TWO64, x + y, -2, mod);
      CongZeroFrom(x % mod + y % mod, x + y, 0, mod);
      CongIntro(0, 0, 0, mod);
      CongSub(0, 0, 0 - (x + y), 0, mod);
      CongTrans(TWO64, x + y, 0, mod);
      LostIsPower(TWO64, mod);
    }
  }

  lemma MinusWraps(x: int, mod: Modulus)
    requires mod < x < TWO64
    ensures Minus(x, mod) == TWO64 + mod - x
  {
  }

  lemma {:induction false} XorWithSelf(a: nat, bits: nat)
    ensures XorBits(a, a, bits) == 0
  {
    if bits > 0 {
      XorWithSelf(a, bits - 1);
    }
  }

  lemma OverflowWide(k: nat, mod: Modulus)
    requires 1 <= k < 64 && mod < TWO64 && mod % 2 == 1 && Pow2(k) <= mod && 2 * mod + Pow2(k) > TWO64
    ensures !AlwaysConverts(k + 1, mod)
  {
    hide SenderStep, ReceiverStep, Cong, OtherMessage, Bit;
    var b0 := seq(k + 1, i => if i == k - 1 then 1 else 0);
    assert AllReduced(b0, Ring(mod));
    forall i | 0 <= i < k - 1 ensures Bit(0, i) == 0 {
      BitZero(i);
    }
    QuietBits(k, 0, b0, k - 1, mod);
    BitPow2(k, k - 1);
    BitPow2(k, k);
    BitZero(k - 1);
    BitZero(k);
    SenderAtZero(k - 1, mod);
    assert SenderSum(Pow2(k), b0, 0, k, mod) == mod - 1;
    assert ReceiverSum(Received(Pow2(k), 0, b0, mod), 0, k, mod) == 1;
    assert SenderSum(Pow2(k), b0, 0, k + 1, mod) == SenderStep(mod - 1, 1, k, 0, mod);
    assert ReceiverSum(Received(Pow2(k), 0, b0, mod), 0, k + 1, mod) == 1;
    OverflowStep(k, mod);
    XorWithZero(Pow2(k), k + 1);
    LowBitsAll(Pow2(k), k + 1);
    assert !Converts(Pow2(k), 0, b0, mod);
  }

  lemma OverflowOneBit(mod: Modulus)
    requires mod < TWO64 && mod % 2 == 1 && 2 * mod + 1 > TWO64
    ensures !AlwaysConverts(1, mod)
  {
    hide Cong, Store, Word, Minus;
    var b0 := [mod - 1];
    var r := 2 * mod - 2 - TWO64;
    OneBitMessages(mod);
    assert Received(1, 1, b0, mod)[0] == r;
    assert SenderSum(1, b0, 0, 1, mod) == SenderStep(SenderSum(1, b0, 0, 0, mod), 1, 0, mod - 1, mod);
    assert SenderSum(1, b0, 0, 1, mod) == 2;
    assert ReceiverSum(Received(1, 1, b0, mod), 0, 1, mod) == r;
    assert XorBits(1, 1, 1) == 0;
    if Converts(1, 1, b0, mod) {
      CongIntro(TWO64, TWO64, 0, mod);
      CongSub(TWO64, TWO64, 2 + r, 0, mod);
      CongIntro(TWO64 - (2 + r), 2 * TWO64, -2, mod);
      CongZeroFrom(TWO64 - (2 + r), TWO64 - 0, 2 * TWO64, mod);
      LostIsPower(TWO64, mod);
    }
  }

  lemma OneBitMessages(mod: Modulus)
    requires mod < TWO64 && mod % 2 == 1 && 2 * mod + 1 > TWO64
    ensures var r := 2 * mod - 2 - TWO64;
            && OtherMessage(mod - 1, 1, 0, mod) == r && ReceiverStep(0, r, mod) == r
            && SenderStep(0, 1, 0, mod - 1, mod) == 2
    ensures Bit(1, 0) == 1 && Pow2(0) == 1 && Pow2(1) == 2
  {
    hide Store, Minus;
    MinusExact(mod - 1, mod);
    MinusExact(1, mod);
    var r := 2 * mod - 2 - TWO64;
    StoreSmall(r, mod);
    StoreSmall(2, mod);
    StoreWraps(2 * mod - 2, mod);
  }

  lemma StoreWraps(x: int, mod: Modulus)
    requires mod < TWO64 && TWO64 <= x < TWO64 + mod
    ensures Store(x, mod) == x - TWO64
  {
  }

  /** `Int_Modulus` of constants.h exceeds 2^63. */
  const SHIPPED_MODULUS: Modulus := 0x8000_0000_0008_0001

  lemma ShippedModulusOverflows(bits: nat)
    requires 1 <= bits <= 64
    ensures !AlwaysConverts(bits, SHIPPED_MODULUS)
  {
    Pow2At64();
    Pow2Monotone(bits - 1, 63);
    ConversionExact(bits, SHIPPED_MODULUS);
  }
}
