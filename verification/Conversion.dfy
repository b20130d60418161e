/** Conversion of whole values from XOR shares to additive shares modulo p. */
module Conversion {
  import opened Modular
  import opened RootsOfUnity
  import opened Words
  import opened Rows
  import opened Ot
  import opened BoolOt
  import opened DaBits
  import opened Correlated

  /** Additive shares of v modulo p, both reduced. */
  ghost predicate ValueShared(y0: int, y1: int, v: int, p: Modulus) {
    Reduced(y0, p) && Reduced(y1, p) && Cong(y0 + y1, v, p)
  }

  // ---------- one value from its bits ----------

  /** `fmpz_addmul_ui(xp, tmp, 1ULL << j)`, then `fmpz_mod`. */
  function AddShifted(sum: int, bit: int, j: nat, p: Modulus): (r: int)
    ensures Reduced(r, p)
  {
    (sum + bit * Word(Pow2(j))) % p
  }

  function Recombined(tmp: seq<int>, at: nat, bits: nat, p: Modulus): (r: int)
    requires at + bits <= |tmp|
    ensures Reduced(r, p)
  {
    if bits == 0 then 0 else AddShifted(Recombined(tmp, at, bits - 1, p), tmp[at + bits - 1], bits - 1, p)
  }

  lemma ShiftedShares(s0: int, s1: int, v: int, y0: int, y1: int, b: nat, j: nat, p: Modulus)
    requires j < 64 && Cong(s0 + s1, v, p) && Cong(y0 + y1, b, p)
    ensures Cong(AddShifted(s0, y0, j, p) + AddShifted(s1, y1, j, p), v + b * Pow2(j), p)
  {
    hide Cong, Word, Pow2, AddShifted;
    BitTimes(1, j);
    var w := Pow2(j);
    AddShiftedCong(s0, y0, j, p);
    AddShiftedCong(s1, y1, j, p);
    CongAdd(AddShifted(s0, y0, j, p), s0 + w * y0, AddShifted(s1, y1, j, p), s1 + w * y1, p);
    CongScale(w, y0 + y1, b, p);
    Distribute(w, y0, y1);
    CongAdd(s0 + s1, v, w * (y0 + y1), w * b, p);
    CongTrans(AddShifted(s0, y0, j, p) + AddShifted(s1, y1, j, p), s0 + s1 + w * (y0 + y1), v + w * b, p);
    Commute(w, b);
  }

  lemma AddShiftedCong(s: int, y: int, j: nat, p: Modulus)
    requires j < 64
    ensures Cong(AddShifted(s, y, j, p), s + Pow2(j) * y, p)
  {
    hide Cong, Word, Pow2;
    BitTimes(1, j);
    CongMod(s + y * Word(Pow2(j)), p);
    Commute(y, Pow2(j));
  }

  /** Shares of the XORed bits recombine to shares of the XORed value. */
  lemma {:induction false} RecombinedShares(tmp0: seq<int>, tmp1: seq<int>, s: nat, t: nat, at: nat, bits: nat,
                                            p: Modulus)
    requires bits <= 64 && at + bits <= |tmp0| == |tmp1|
    requires forall c :: at <= c < at + bits ==> BitShared(tmp0[c], tmp1[c], Bit(s, c - at) != Bit(t, c - at), p)
    ensures Cong(Recombined(tmp0, at, bits, p) + Recombined(tmp1, at, bits, p), XorBits(s, t, bits), p)
  {
    hide AddShifted, Cong, Bit;
    if bits == 0 {
      CongIntro(0, 0, 0, p);
    } else {
      var c := at + bits - 1;
      RecombinedShares(tmp0, tmp1, s, t, at, bits - 1, p);
      assert BitShared(tmp0[c], tmp1[c], Bit(s, c - at) != Bit(t, c - at), p);
      ShiftedShares(Recombined(tmp0, at, bits - 1, p), Recombined(tmp1, at, bits - 1, p), XorBits(s, t, bits - 1),
                    tmp0[c], tmp1[c], Xor(Bit(s, c - at), Bit(t, c - at)), bits - 1, p);
    }
  }

  method RecombineValue(tmp: seq<int>, at: nat, bits: nat, p: Modulus) returns (xp: int)
    requires at + bits <= |tmp|
    ensures xp == Recombined(tmp, at, bits, p)
  {
    hide AddShifted;
    xp := 0;
    for j := 0 to bits
      invariant xp == Recombined(tmp, at, j, p)
    {
      xp := AddShifted(xp, tmp[at+j], j, p);
    }
  }

  method RecombineAll(tmp: seq<int>, numBits: seq<nat>, p: Modulus) returns (xp: seq<int>)
    requires |tmp| == Start(numBits, |numBits|)
    ensures |xp| == |numBits|
    ensures forall i :: 0 <= i < |xp| ==> ValueRecombined(tmp, numBits, i, xp[i], p)
  {
    xp := [];
    var offset := 0;
    for i := 0 to |numBits|
      invariant |xp| == i && offset == Start(numBits, i) <= |tmp|
      invariant forall k :: 0 <= k < i ==> ValueRecombined(tmp, numBits, k, xp[k], p)
    {
      StartMonotone(numBits, i + 1, |numBits|);
      var v := RecombineValue(tmp, offset, numBits[i], p);
      xp := xp + [v];
      offset := offset + numBits[i];
    }
  }

  ghost predicate ValueRecombined(tmp: seq<int>, numBits: seq<nat>, i: nat, v: int, p: Modulus)
    requires i < |numBits|
  {
    Start(numBits, i) + numBits[i] <= |tmp| && v == Recombined(tmp, Start(numBits, i), numBits[i], p)
  }

  // ---------- daBit conversion ----------

  method BitsOf(x: seq<nat>, numBits: seq<nat>) returns (x2: seq<bool>)
    requires |x| == |numBits|
    ensures |x2| == Start(numBits, |numBits|)
    ensures forall i :: 0 <= i < |x| ==> IsBitsOf(x[i], x2, numBits, i)
  {
    hide CellChosen;
    var cells := new nat[Start(numBits, |numBits|)];
    ChooseRow(x, numBits, cells, 0);
    x2 := seq(cells.Length, c requires 0 <= c < cells.Length reads cells => cells[c] == 1);
    forall i | 0 <= i < |x| ensures IsBitsOf(x[i], x2, numBits, i) {
      assert CellChosen(x[i], cells[..], 0, numBits, i);
      IsBitsOfCells(x[i], cells[..], x2, numBits, i);
    }
  }

  lemma IsBitsOfCells(v: nat, cells: seq<nat>, x2: seq<bool>, numBits: seq<nat>, i: nat)
    requires i < |numBits| && CellChosen(v, cells, 0, numBits, i)
    requires |x2| == |cells| && forall c :: 0 <= c < |x2| ==> x2[c] == (cells[c] == 1)
    ensures IsBitsOf(v, x2, numBits, i)
  {
    hide Bit;
  }

  ghost predicate IsBitsOf(v: nat, x2: seq<bool>, numBits: seq<nat>, i: nat)
    requires i < |numBits|
  {
    var at := Start(numBits, i);
    at + numBits[i] <= |x2| && forall c :: at <= c < at + numBits[i] ==> x2[c] == (Bit(v, c - at) == 1)
  }

  lemma ValueFromBits(s: nat, t: nat, x0: seq<bool>, x1: seq<bool>, tmp0: seq<int>, tmp1: seq<int>,
                      numBits: seq<nat>, i: nat, v0: int, v1: int, p: Modulus)
    requires i < |numBits| && numBits[i] <= 64 && |x0| == |x1| == |tmp0| == |tmp1|
    requires IsBitsOf(s, x0, numBits, i) && IsBitsOf(t, x1, numBits, i)
    requires forall c :: 0 <= c < |tmp0| ==> BitShared(tmp0[c], tmp1[c], x0[c] != x1[c], p)
    requires ValueRecombined(tmp0, numBits, i, v0, p) && ValueRecombined(tmp1, numBits, i, v1, p)
    ensures ValueShared(v0, v1, XorBits(s, t, numBits[i]), p)
  {
    hide BitShared, Bit, Start, XorBits, Cong, Recombined;
    var at := Start(numBits, i);
    forall c | at <= c < at + numBits[i]
      ensures BitShared(tmp0[c], tmp1[c], Bit(s, c - at) != Bit(t, c - at), p)
    {
      assert x0[c] == (Bit(s, c - at) == 1) && x1[c] == (Bit(t, c - at) == 1);
    }
    RecombinedShares(tmp0, tmp1, s, t, at, numBits[i], p);
  }

  /** `b2a_daBit_multi`: additive shares of every XOR-shared value, cut to its width, in one round. */
  method B2aDaBitMulti(store: CorrelatedStores, numBits: seq<nat>, x0: seq<nat>, x1: seq<nat>)
    returns (xp0: seq<int>, xp1: seq<int>)
    requires store.Valid() && |numBits| == |x0| == |x1|
    requires forall i :: 0 <= i < |numBits| ==> numBits[i] <= 64
    modifies store
    ensures store.Valid() && store.usedBits == old(store.usedBits) + Start(numBits, |numBits|)
    ensures store.bitRounds
         == old(store.bitRounds) + if Start(numBits, |numBits|) <= old(|store.dabits0|) then 0 else 1
    ensures |xp0| == |xp1| == |numBits|
    ensures store.Sound() ==> forall i :: 0 <= i < |numBits| ==>
              ValueShared(xp0[i], xp1[i], XorBits(x0[i], x1[i], numBits[i]), store.p)
  {
    hide BitShared, ValueRecombined, IsBitsOf, ValueShared, Start, XorBits, AreDaBits, AreBoolTriples;
    var totalBits := Start(numBits, |numBits|);
    store.CheckDaBits(totalBits);
    var bits0 := BitsOf(x0, numBits);
    var bits1 := BitsOf(x1, numBits);
    var tmp0, tmp1 := store.B2aDaBitSingle(bits0, bits1);
    xp0 := RecombineAll(tmp0, numBits, store.p);
    xp1 := RecombineAll(tmp1, numBits, store.p);
    if store.Sound() {
      forall i | 0 <= i < |numBits|
        ensures ValueShared(xp0[i], xp1[i], XorBits(x0[i], x1[i], numBits[i]), store.p)
      {
        ValueFromBits(x0[i], x1[i], bits0, bits1, tmp0, tmp1, numBits, i, xp0[i], xp1[i], store.p);
      }
    }
  }

  // ---------- conversion by oblivious transfer ----------

  /** The values of row i start at this cell of a flat array. */
  method Unflatten(x: seq<nat>, numShares: nat, numValues: nat) returns (rows: seq<seq<nat>>)
    requires |x| == RowStart(numShares, numValues)
    ensures |rows| == numShares
    ensures forall i :: 0 <= i < numShares ==> IsRow(rows[i], x, RowStart(i, numValues), numValues)
  {
    hide IsRow, RowStart;
    rows := [];
    for i := 0 to numShares
      invariant |rows| == i
      invariant forall k :: 0 <= k < i ==> IsRow(rows[k], x, RowStart(k, numValues), numValues)
    {
      RowsFit(i, numShares, numValues);
      var at := RowStart(i, numValues);
      SliceIsRow(x, at, numValues);
      rows := rows + [x[at..at+numValues]];
    }
  }

  /** The values of one client, starting at cell `at`, are converted. */
  ghost predicate ClientConverted(ret0: seq<int>, ret1: seq<int>, x0: seq<nat>, x1: seq<nat>, at: nat,
                                  numBits: seq<nat>, p: Modulus)
  {
    && at + |numBits| <= |ret0| == |ret1| == |x0| == |x1|
    && forall j :: 0 <= j < |numBits| ==>
         ValueShared(ret0[at+j], ret1[at+j], XorBits(x0[at+j], x1[at+j], numBits[j]), p)
  }

  lemma ClientFromRows(row0: seq<int>, row1: seq<int>, s: seq<nat>, t: seq<nat>,
                       ret0: seq<int>, ret1: seq<int>, x0: seq<nat>, x1: seq<nat>, at: nat,
                       numBits: seq<nat>, p: Modulus)
    requires |ret0| == |ret1| == |x0| == |x1|
    requires IsRow(row0, ret0, at, |numBits|) && IsRow(row1, ret1, at, |numBits|)
    requires IsRow(s, x0, at, |numBits|) && IsRow(t, x1, at, |numBits|)
    requires forall j :: 0 <= j < |numBits| ==> ValueShared(row0[j], row1[j], XorBits(s[j], t[j], numBits[j]), p)
    ensures ClientConverted(ret0, ret1, x0, x1, at, numBits, p)
  {
    hide ValueShared, XorBits;
    forall j | 0 <= j < |numBits|
      ensures ValueShared(ret0[at+j], ret1[at+j], XorBits(x0[at+j], x1[at+j], numBits[j]), p)
    {
      assert row0[j] == ret0[at+j] && row1[j] == ret1[at+j] && s[j] == x0[at+j] && t[j] == x1[at+j];
    }
  }

  ghost predicate WidthsFit(numBits: seq<nat>, p: Modulus)
    requires p < TWO64
  {
    forall j :: 0 <= j < |numBits| ==> WidthFits(numBits[j], p)
  }

  /** `b2a_ot`: no client is rejected here. */
  method B2aOt(numShares: nat, numBits: seq<nat>, x0: seq<nat>, x1: seq<nat>, p: Modulus)
    returns (ans0: seq<int>, ans1: seq<int>)
    requires p < TWO64 && |x0| == |x1| == RowStart(numShares, |numBits|)
    ensures |ans0| == |ans1| == |x0|
    ensures WidthsFit(numBits, p) ==> forall i :: 0 <= i < numShares ==>
              ClientConverted(ans0, ans1, x0, x1, RowStart(i, |numBits|), numBits, p)
  {
    hide RowStart, ValueShared, XorBits, WidthFits, Cong;
    var rows0 := Unflatten(x0, numShares, |numBits|);
    var rows1 := Unflatten(x1, numShares, |numBits|);
    var valid := seq(numShares, i => true);
    var xp0, xp1 := IntsumOt(rows0, rows1, valid, numBits, p);
    ans0 := Flatten(xp0, |numBits|);
    ans1 := Flatten(xp1, |numBits|);
    if WidthsFit(numBits, p) {
      forall i | 0 <= i < numShares
        ensures ClientConverted(ans0, ans1, x0, x1, RowStart(i, |numBits|), numBits, p)
      {
        forall j | 0 <= j < |numBits|
          ensures ValueShared(xp0[i][j], xp1[i][j], XorBits(rows0[i][j], rows1[i][j], numBits[j]), p)
        {
          SharedFromOt(xp0[i][j], xp1[i][j], rows0[i][j], rows1[i][j], numBits[j], p);
        }
        ClientFromRows(xp0[i], xp1[i], rows0[i], rows1[i], ans0, ans1, x0, x1, RowStart(i, |numBits|), numBits, p);
      }
    }
  }

  lemma SharedFromOt(y0: int, y1: int, s: nat, t: nat, bits: nat, p: Modulus)
    requires p < TWO64 && Reduced(y0, Ring(p)) && Reduced(y1, Ring(p))
    requires Cong(y0 + y1, Converted(s, t, true, bits), Ring(p))
    ensures ValueShared(y0, y1, XorBits(s, t, bits), p)
  {
  }

  // ---------- the two conversions ----------

  lemma NoneStarted()
    ensures Start([], 0) == 0
  {
  }

  lemma {:induction false} StartConcat(a: seq<nat>, b: seq<nat>, j: nat)
    requires j <= |b|
    ensures Start(a + b, |a| + j) == Start(a, |a|) + Start(b, j)
  {
    if j == 0 {
      StartOfPrefix(a, b, |a|);
    } else {
      StartConcat(a, b, j - 1);
    }
  }

  lemma {:induction false} StartOfPrefix(a: seq<nat>, b: seq<nat>, j: nat)
    requires j <= |a|
    ensures Start(a + b, j) == Start(a, j)
  {
    if j > 0 {
      StartOfPrefix(a, b, j - 1);
    }
  }

  /** The widths of one client, repeated for every client. */
  method RepeatWidths(numBits: seq<nat>, numShares: nat) returns (bits: seq<nat>)
    ensures |bits| == RowStart(numShares, |numBits|)
    ensures forall i :: 0 <= i < numShares ==> IsRow(numBits, bits, RowStart(i, |numBits|), |numBits|)
    ensures forall k :: 0 <= k < |bits| ==> bits[k] in numBits
    ensures Start(bits, |bits|) == RowStart(numShares, Start(numBits, |numBits|))
  {
    hide IsRow, RowStart, Start;
    NoneStarted();
    RowZero(Start(numBits, |numBits|));
    bits := [];
    RowZero(|numBits|);
    for i := 0 to numShares
      invariant |bits| == RowStart(i, |numBits|)
      invariant forall k :: 0 <= k < i ==> IsRow(numBits, bits, RowStart(k, |numBits|), |numBits|)
      invariant forall k :: 0 <= k < |bits| ==> bits[k] in numBits
      invariant Start(bits, |bits|) == RowStart(i, Start(numBits, |numBits|))
    {
      StartConcat(bits, numBits, |numBits|);
      RowsFit(i, i + 1, Start(numBits, |numBits|));
      forall k | 0 <= k < i ensures IsRow(numBits, bits + numBits, RowStart(k, |numBits|), |numBits|) {
        RowKept(numBits, bits, numBits, RowStart(k, |numBits|), |numBits|);
      }
      RowsFit(i, i + 1, |numBits|);
      RowAppended(numBits, bits);
      bits := bits + numBits;
    }
  }

  lemma ClientFromFlat(ret0: seq<int>, ret1: seq<int>, x0: seq<nat>, x1: seq<nat>, bits: seq<nat>, at: nat,
                       numBits: seq<nat>, p: Modulus)
    requires |ret0| == |ret1| == |x0| == |x1| == |bits| && IsRow(numBits, bits, at, |numBits|)
    requires forall k :: 0 <= k < |bits| ==> ValueShared(ret0[k], ret1[k], XorBits(x0[k], x1[k], bits[k]), p)
    ensures ClientConverted(ret0, ret1, x0, x1, at, numBits, p)
  {
    hide ValueShared, XorBits;
    forall j | 0 <= j < |numBits|
      ensures ValueShared(ret0[at+j], ret1[at+j], XorBits(x0[at+j], x1[at+j], numBits[j]), p)
    {
      assert numBits[j] == bits[at+j];
    }
  }

  /** The settings under which the chosen conversion is exact. */
  ghost predicate ConversionSound(store: CorrelatedStores, useOt: bool, numBits: seq<nat>)
    requires useOt ==> store.p < TWO64
  {
    if useOt then WidthsFit(numBits, store.p) else store.Sound()
  }

  /** `share_convert`: whichever way is chosen, the results are shares of the same values. */
  method ShareConvert(store: CorrelatedStores, useOt: bool, numShares: nat, numBits: seq<nat>, x0: seq<nat>,
                      x1: seq<nat>)
    returns (ret0: seq<int>, ret1: seq<int>)
    requires store.Valid() && (useOt ==> store.p < TWO64)
    requires |x0| == |x1| == RowStart(numShares, |numBits|)
    requires forall j :: 0 <= j < |numBits| ==> numBits[j] <= 64
    modifies store
    ensures store.Valid() && |ret0| == |ret1| == |x0|
    ensures store.usedBits == old(store.usedBits)
                              + if useOt then 0 else RowStart(numShares, Start(numBits, |numBits|))
    ensures useOt ==> store.bitRounds == old(store.bitRounds) && store.dabits0 == old(store.dabits0)
    ensures !useOt ==>
              store.bitRounds == old(store.bitRounds)
              + if RowStart(numShares, Start(numBits, |numBits|)) <= old(|store.dabits0|) then 0 else 1
    ensures ConversionSound(store, useOt, numBits) ==> forall i :: 0 <= i < numShares ==>
              ClientConverted(ret0, ret1, x0, x1, RowStart(i, |numBits|), numBits, store.p)
  {
    hide ClientConverted, RowStart, ValueShared, Start, IsRow;
    if useOt {
      ret0, ret1 := B2aOt(numShares, numBits, x0, x1, store.p);
    } else {
      var bits := RepeatWidths(numBits, numShares);
      ret0, ret1 := B2aDaBitMulti(store, bits, x0, x1);
      if store.Sound() {
        forall i | 0 <= i < numShares
          ensures ClientConverted(ret0, ret1, x0, x1, RowStart(i, |numBits|), numBits, store.p)
        {
          ClientFromFlat(ret0, ret1, x0, x1, bits, RowStart(i, |numBits|), numBits, store.p);
        }
      }
    }
  }

  /** Shares of the same value open to the same number, so the two conversions agree. */
  lemma ConversionsAgree(a0: int, a1: int, b0: int, b1: int, v: nat, p: Modulus)
    requires ValueShared(a0, a1, v, p) && ValueShared(b0, b1, v, p)
    ensures AddMod(a0, a1, p) == AddMod(b0, b1, p) == v % p
  {
  }

  /** Cell c opens to the same number in both pairs. */
  ghost predicate SameOpening(a0: seq<int>, a1: seq<int>, b0: seq<int>, b1: seq<int>, at: nat, n: nat, p: Modulus) {
    && at + n <= |a0| == |a1| == |b0| == |b1|
    && forall c :: at <= c < at + n ==> AddMod(a0[c], a1[c], p) == AddMod(b0[c], b1[c], p)
  }

  lemma ClientAgrees(a0: seq<int>, a1: seq<int>, b0: seq<int>, b1: seq<int>, x0: seq<nat>, x1: seq<nat>, at: nat,
                     numBits: seq<nat>, p: Modulus)
    requires ClientConverted(a0, a1, x0, x1, at, numBits, p) && ClientConverted(b0, b1, x0, x1, at, numBits, p)
    ensures SameOpening(a0, a1, b0, b1, at, |numBits|, p)
  {
    hide ValueShared, XorBits, AddMod;
    forall c | at <= c < at + |numBits| ensures AddMod(a0[c], a1[c], p) == AddMod(b0[c], b1[c], p) {
      var j := c - at;
      var v := XorBits(x0[at+j], x1[at+j], numBits[j]);
      assert ValueShared(a0[at+j], a1[at+j], v, p) && ValueShared(b0[at+j], b1[at+j], v, p);
      ConversionsAgree(a0[c], a1[c], b0[c], b1[c], v, p);
    }
  }

  /** Where both conversions are sound, they open to the same numbers for every client. */
  method ConvertBothWays(store: CorrelatedStores, numShares: nat, numBits: seq<nat>, x0: seq<nat>, x1: seq<nat>)
    returns (a0: seq<int>, a1: seq<int>, b0: seq<int>, b1: seq<int>)
    requires store.Valid() && store.p < TWO64
    requires |x0| == |x1| == RowStart(numShares, |numBits|)
    requires forall j :: 0 <= j < |numBits| ==> numBits[j] <= 64
    modifies store
    ensures store.Valid() && |a0| == |a1| == |b0| == |b1| == |x0|
    // only the second conversion uses daBits
    ensures store.usedBits == old(store.usedBits) + RowStart(numShares, Start(numBits, |numBits|))
    ensures WidthsFit(numBits, store.p) ==> forall i :: 0 <= i < numShares ==>
              ClientConverted(a0, a1, x0, x1, RowStart(i, |numBits|), numBits, store.p)
    ensures store.Sound() ==> forall i :: 0 <= i < numShares ==>
              ClientConverted(b0, b1, x0, x1, RowStart(i, |numBits|), numBits, store.p)
    ensures WidthsFit(numBits, store.p) && store.Sound() ==> forall i :: 0 <= i < numShares ==>
              SameOpening(a0, a1, b0, b1, RowStart(i, |numBits|), |numBits|, store.p)
  {
    hide ClientConverted, RowStart, SameOpening, WidthsFit;
    a0, a1 := ShareConvert(store, true, numShares, numBits, x0, x1);
    b0, b1 := ShareConvert(store, false, numShares, numBits, x0, x1);
    if WidthsFit(numBits, store.p) && store.Sound() {
      forall i | 0 <= i < numShares
        ensures SameOpening(a0, a1, b0, b1, RowStart(i, |numBits|), |numBits|, store.p)
      {
        ClientAgrees(a0, a1, b0, b1, x0, x1, RowStart(i, |numBits|), numBits, store.p);
      }
    }
  }

  /** What the client split is what the servers' shares open to. */
  lemma ClientValueConverted(y0: int, y1: int, a: nat, b: nat, v: nat, bits: nat, p: Modulus)
    requires ValueShared(y0, y1, XorBits(a, b, bits), p) && XorShares(a, b, v, bits) && v < Pow2(bits)
    ensures v < p ==> AddMod(y0, y1, p) == v
  {
    XorSharesRecombine(a, b, v, bits);
    LowBitsAll(v, bits);
    if v < p {
      SmallMod(v, p);
    }
  }

  // ---------- edaBits ----------

  lemma EdaStep(r0: int, r1: int, v: int, d0: DaBit, d1: DaBit, pow: int, w: int, p: Modulus)
    requires Cong(r0 + r1, v, p) && IsDaBit(d0, d1, p) && Cong(pow, w, p)
    ensures Cong((r0 + pow * d0.bp) % p + (r1 + pow * d1.bp) % p, v + w * AsBit(d0.b2 != d1.b2), p)
  {
    hide Cong;
    CongMod(r0 + pow * d0.bp, p);
    CongMod(r1 + pow * d1.bp, p);
    CongAdd((r0 + pow * d0.bp) % p, r0 + pow * d0.bp, (r1 + pow * d1.bp) % p, r1 + pow * d1.bp, p);
    Distribute(pow, d0.bp, d1.bp);
    CongMul(pow, w, d0.bp + d1.bp, AsBit(d0.b2 != d1.b2), p);
    CongAdd(r0 + r1, v, pow * (d0.bp + d1.bp), w * AsBit(d0.b2 != d1.b2), p);
    CongTrans((r0 + pow * d0.bp) % p + (r1 + pow * d1.bp) % p, r0 + r1 + pow * (d0.bp + d1.bp),
              v + w * AsBit(d0.b2 != d1.b2), p);
  }

  /** `makeLocalEdaBit`: n shared bits and additive shares of the number they spell. */
  method MakeLocalEdaBit(n: nat, p: Modulus) returns (r0: int, r1: int, b0: seq<bool>, b1: seq<bool>)
    requires p > 2
    ensures |b0| == |b1| == n
    ensures p % 2 == 1 ==> Cong(r0 + r1, XorVal(b0, b1, n), p)
  {
    hide Cong, IsDaBit;
    r0, r1, b0, b1 := 0, 0, [], [];
    var pow := 1;
    CongIntro(0, 0, 0, p);
    CongIntro(1, 1, 0, p);
    for i := 0 to n
      invariant |b0| == |b1| == i && Cong(pow, Pow2(i), p)
      invariant p % 2 == 1 ==> Cong(r0 + r1, XorVal(b0, b1, i), p)
    {
      var bit0, bit1 := MakeLocalDaBit(p);
      if p % 2 == 1 {
        EdaStep(r0, r1, XorVal(b0, b1, i), bit0, bit1, pow, Pow2(i), p);
      }
      DoubleCong(pow, Pow2(i), p);
      XorValPrefix(b0, b1, bit0.b2, bit1.b2, i);
      b0, b1 := b0 + [bit0.b2], b1 + [bit1.b2];
      r0, r1 := (r0 + pow * bit0.bp) % p, (r1 + pow * bit1.bp) % p;
      pow := (pow * 2) % p;
    }
  }

  lemma DoubleCong(pow: int, w: int, p: Modulus)
    requires Cong(pow, w, p)
    ensures Cong((pow * 2) % p, 2 * w, p)
  {
    hide Cong;
    CongMod(pow * 2, p);
    CongScale(2, pow, w, p);
    CongTrans((pow * 2) % p, 2 * pow, 2 * w, p);
  }
}
