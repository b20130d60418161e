/** 64-bit machine words and the bits of a natural number. */
module Words {
  import opened Modular
  import opened RootsOfUnity
  import opened Shares

  const TWO64: Modulus := 0x1_0000_0000_0000_0000

  /** What `uint64_t` arithmetic keeps of an integer. */
  function Word(x: int): (r: int)
    ensures 0 <= r < TWO64
    ensures 0 <= x < TWO64 ==> r == x
    ensures TWO64 <= x < 2 * TWO64 ==> r == x - TWO64
    ensures x < 0 && x + TWO64 >= 0 ==> r == x + TWO64
  {
    x % TWO64
  }

  lemma WordCong(x: int)
    ensures Cong(Word(x), x, TWO64)
  {
    CongMod(x, TWO64);
  }

  // ---------- bits ----------

  /** `n >> k` */
  function Shr(n: nat, k: nat): nat {
    if k == 0 then n else Shr(n, k - 1) / 2
  }

  function Bit(n: nat, k: nat): (b: nat)
    ensures b <= 1
  {
    Shr(n, k) % 2
  }

  function Xor(a: nat, b: nat): (c: nat)
    ensures c <= 1
  {
    if a == b then 0 else 1
  }

  /** The number formed by the low bits of n. */
  ghost function LowBits(n: nat, bits: nat): nat {
    if bits == 0 then 0 else LowBits(n, bits - 1) + Bit(n, bits - 1) * Pow2(bits - 1)
  }

  /** (a XOR b), restricted to its low bits. */
  function XorBits(a: nat, b: nat, bits: nat): nat {
    if bits == 0 then 0 else XorBits(a, b, bits - 1) + Xor(Bit(a, bits - 1), Bit(b, bits - 1)) * Pow2(bits - 1)
  }

  lemma SplitStep(q: nat, h: nat, low: nat)
    requires low < h
    ensures q * h + low == q / 2 * (2 * h) + (low + q % 2 * h)
    ensures low + q % 2 * h < 2 * h
  {
    Distribute(h, 2 * (q / 2), q % 2);
    Assoc(q / 2, 2, h);
    assert q % 2 * h == if q % 2 == 0 then 0 else h;
  }

  lemma {:induction false} LowBitsSplit(n: nat, bits: nat)
    ensures n == Shr(n, bits) * Pow2(bits) + LowBits(n, bits)
    ensures LowBits(n, bits) < Pow2(bits)
  {
    if bits > 0 {
      LowBitsSplit(n, bits - 1);
      SplitStep(Shr(n, bits - 1), Pow2(bits - 1), LowBits(n, bits - 1));
    }
  }

  /** A number below 2^bits is its own low bits. */
  lemma LowBitsAll(n: nat, bits: nat)
    requires n < Pow2(bits)
    ensures LowBits(n, bits) == n
  {
    LowBitsSplit(n, bits);
    SmallMultiple(Shr(n, bits), Pow2(bits));
  }

  /** The two halves of an XOR sharing of v. */
  ghost predicate XorShares(a: nat, b: nat, v: nat, bits: nat) {
    forall k :: 0 <= k < bits ==> Bit(b, k) == Xor(Bit(a, k), Bit(v, k))
  }

  /** Recombining an XOR sharing gives back the value, cut to its width. */
  lemma {:induction false} XorSharesRecombine(a: nat, b: nat, v: nat, bits: nat)
    requires XorShares(a, b, v, bits)
    ensures XorBits(a, b, bits) == LowBits(v, bits)
  {
    if bits > 0 {
      XorSharesRecombine(a, b, v, bits - 1);
      assert Bit(b, bits - 1) == Xor(Bit(a, bits - 1), Bit(v, bits - 1));
    }
  }

  // ---------- splitting a word ----------

  lemma NoBitsAbove(n: nat, k: nat)
    requires n < Pow2(k)
    ensures Shr(n, k) == 0
  {
    LowBitsSplit(n, k);
    SmallMultiple(Shr(n, k), Pow2(k));
  }

  lemma HalfSum(x: nat, b: nat, h: nat)
    ensures 0 <= b * h && 0 <= b * (2 * h)
    ensures (x + b * (2 * h)) / 2 == x / 2 + b * h && (x + b * (2 * h)) % 2 == x % 2
  {
    SwapLeft(b, 2, h);
  }

  lemma {:induction false} ShrSum(low: nat, b: nat, n: nat, k: nat)
    requires k <= n
    ensures 0 <= b * Pow2(n) && 0 <= b * Pow2(n - k)
    ensures Shr(low + b * Pow2(n), k) == Shr(low, k) + b * Pow2(n - k)
  {
    if k > 0 {
      ShrSum(low, b, n, k - 1);
      HalfSum(Shr(low, k - 1), b, Pow2(n - k));
    }
  }

  lemma {:induction false} XorBelow(a: nat, b: nat, n: nat)
    ensures XorBits(a, b, n) < Pow2(n)
  {
    if n > 0 {
      XorBelow(a, b, n - 1);
    }
  }

  /** The bits of an XOR are the XORs of the bits. */
  lemma {:induction false} BitOfXor(a: nat, b: nat, n: nat, k: nat)
    requires k < n
    ensures Bit(XorBits(a, b, n), k) == Xor(Bit(a, k), Bit(b, k))
  {
    var low, top := XorBits(a, b, n - 1), Xor(Bit(a, n - 1), Bit(b, n - 1));
    ShrSum(low, top, n - 1, k);
    if k == n - 1 {
      XorBelow(a, b, n - 1);
      NoBitsAbove(low, n - 1);
    } else {
      BitOfXor(a, b, n - 1, k);
      HalfSum(Shr(low, k), top, Pow2(n - 2 - k));
    }
  }

  /** A wider XOR of short numbers is the same number. */
  lemma {:induction false} XorWide(a: nat, b: nat, bits: nat, n: nat)
    requires a < Pow2(bits) && b < Pow2(bits) && bits <= n
    ensures XorBits(a, b, n) == XorBits(a, b, bits)
    decreases n
  {
    if bits < n {
      XorWide(a, b, bits, n - 1);
      Pow2Monotone(bits, n - 1);
      NoBitsAbove(a, n - 1);
      NoBitsAbove(b, n - 1);
    }
  }

  /** A random word below 2^bits and the XOR of it and the value. */
  method SplitWord(v: nat, bits: nat) returns (a: nat, b: nat)
    requires bits <= 64 && v < Pow2(bits)
    ensures a < Pow2(bits) && b < Pow2(bits) && XorShares(a, b, v, bits)
  {
    assert 0 < Pow2(bits);
    a :| a < Pow2(bits);
    b := XorBits(a, v, 64);
    XorWide(a, v, bits, 64);
    XorBelow(a, v, bits);
    forall k | 0 <= k < bits ensures Bit(b, k) == Xor(Bit(a, k), Bit(v, k)) {
      BitOfXor(a, v, 64, k);
    }
  }

  lemma Pow2At64()
    ensures Pow2(63) == 0x8000_0000_0000_0000 && Pow2(64) == TWO64
  {
    Pow2At31();
    Pow2Plus(31, 31);
    Pow2Plus(62, 1);
  }
}
