/** The number-theoretic transform of poly/fft.c. */
module Fft {
  import opened Modular
  import opened Poly
  import opened RootsOfUnity

  /** Sum over j of ys[j] * w^(j k): entry k of the transform, written out as a sum. */
  function DftSum(ys: seq<int>, w: int, k: nat): int {
    if ys == [] then 0
    else DftSum(ys[..|ys|-1], w, k) + ys[|ys|-1] * Pow(w, (|ys| - 1) * k)
  }

  /** That sum is the polynomial with coefficients ys evaluated at w^k. */
  lemma {:induction false} DftIsEvaluation(ys: seq<int>, w: int, k: nat)
    ensures DftSum(ys, w, k) == Eval(ys, Pow(w, k))
  {
    if ys != [] {
      hide Eval, Pow;
      DftIsEvaluation(ys[..|ys|-1], w, k);
      LastTerm(ys, Pow(w, k));
      PowPow(w, k, |ys| - 1);
      assert k * (|ys| - 1) == (|ys| - 1) * k;
    }
  }

  // ---------- one butterfly level ----------

  /** Half-size input for the even outputs: y[i] + y[i+m]. */
  function Sums(ys: seq<int>, m: nat, p: Modulus): (zs: seq<int>)
    requires |ys| == 2 * m
    ensures |zs| == m && AllReduced(zs, p)
  {
    seq(m, i requires 0 <= i < m => AddMod(ys[i], ys[i+m], p))
  }

  /** Half-size input for the odd outputs: (y[i] - y[i+m]) w^i. */
  function Differences(ys: seq<int>, table: seq<int>, m: nat, p: Modulus): (zs: seq<int>)
    requires |ys| == |table| == 2 * m
    ensures |zs| == m && AllReduced(zs, p)
  {
    seq(m, i requires 0 <= i < m => MulMod(SubMod(ys[i], ys[i+m], p), table[i], p))
  }

  function EveryOther(table: seq<int>, m: nat): (half: seq<int>)
    requires |table| == 2 * m
    ensures |half| == m
  {
    seq(m, i requires 0 <= i < m => table[2*i])
  }

  /** out with its cells of parity b replaced by zs. */
  function Woven(out: seq<int>, zs: seq<int>, b: nat): (r: seq<int>)
    requires |out| == 2 * |zs|
    ensures |r| == |out|
  {
    seq(|out|, k requires 0 <= k < |out| => if k % 2 == b then zs[k/2] else out[k])
  }

  /** Where x^m is c, the two halves of ys fold into one. */
  lemma FoldAt(ys: seq<int>, m: nat, x: int, c: int, p: Modulus)
    requires m <= |ys| && Cong(Pow(x, m), c, p)
    ensures Cong(Eval(ys, x), Eval(ys[..m], x) + c * Eval(ys[m..], x), p)
  {
    var lo, hi := Eval(ys[..m], x), Eval(ys[m..], x);
    EvalSplit(ys, m, x);
    CongMul(Pow(x, m), c, hi, hi, p);
    CongAdd(lo, lo, Pow(x, m) * hi, c * hi, p);
  }

  lemma EvenPower(w: int, k: nat, m: nat, p: Modulus)
    requires m > 0 && PrincipalRoot(w, 2 * m, p)
    ensures Cong(Pow(Pow(w, 2 * k), m), 1, p)
  {
    PowExchange(w, 2 * k, m);
    PowCong(Pow(w, m), -1, 2 * k, p);
    PowNegOne(2 * k);
  }

  lemma OddPower(w: int, k: nat, m: nat, p: Modulus)
    requires m > 0 && PrincipalRoot(w, 2 * m, p)
    ensures Cong(Pow(Pow(w, 2 * k + 1), m), -1, p)
  {
    PowExchange(w, 2 * k + 1, m);
    PowCong(Pow(w, m), -1, 2 * k + 1, p);
    PowNegOne(2 * k + 1);
  }

  lemma EvenOutput(ys: seq<int>, m: nat, w: int, k: nat, p: Modulus)
    requires |ys| == 2 * m && PowerOfTwo(|ys|) && PrincipalRoot(w, |ys|, p)
    ensures Cong(Eval(Sums(ys, m, p), Pow(w * w, k)), Eval(ys, Pow(w, 2 * k)), p)
  {
    var zs, x := Sums(ys, m, p), Pow(w, 2 * k);
    var lo, hi := ys[..m], ys[m..];
    EvenPower(w, k, m, p);
    FoldAt(ys, m, x, 1, p);
    EvalPlus(lo, hi, x);
    PlusAt(lo, hi);
    SquarePower(w, k);
    forall i | 0 <= i < m ensures Cong(zs[i], Plus(lo, hi)[i], p) {
      AddModCong(ys[i], ys[i+m], p);
    }
    EvalCong(zs, Plus(lo, hi), x, x, p);
  }

  lemma TwistedDifferences(ys: seq<int>, table: seq<int>, m: nat, w: int, p: Modulus)
    requires |ys| == |table| == 2 * m && IsRootTable(table, w, p)
    ensures SameMod(Differences(ys, table, m, p), Twist(Minus(ys[..m], ys[m..]), w), p)
  {
    var zs, d := Differences(ys, table, m, p), Minus(ys[..m], ys[m..]);
    forall i | 0 <= i < m ensures Cong(zs[i], Twist(d, w)[i], p) {
      TwistAt(d, w, i);
      SubModCong(ys[i], ys[i+m], p);
      MulModCong(SubMod(ys[i], ys[i+m], p), table[i], p);
      CongMul(SubMod(ys[i], ys[i+m], p), d[i], table[i], Pow(w, i), p);
    }
  }

  lemma OddOutput(ys: seq<int>, table: seq<int>, m: nat, w: int, k: nat, p: Modulus)
    requires |ys| == |table| == 2 * m && IsRootTable(table, w, p)
    requires PowerOfTwo(|ys|) && PrincipalRoot(w, |ys|, p)
    ensures Cong(Eval(Differences(ys, table, m, p), Pow(w * w, k)), Eval(ys, Pow(w, 2 * k + 1)), p)
  {
    var x := Pow(w, 2 * k + 1);
    var lo, hi := ys[..m], ys[m..];
    OddPower(w, k, m, p);
    FoldAt(ys, m, x, -1, p);
    EvalMinus(lo, hi, x);
    EvalTwist(Minus(lo, hi), w, Pow(w, 2 * k));
    SquarePower(w, k);
    TwistedDifferences(ys, table, m, w, p);
    EvalCong(Differences(ys, table, m, p), Twist(Minus(lo, hi), w), Pow(w * w, k), Pow(w, 2 * k), p);
  }

  // ---------- the in-place recursion ----------

  /** out[o..o+n] holds the transform of ys with respect to w. */
  ghost predicate IsTransform(out: seq<int>, ys: seq<int>, w: int, p: Modulus) {
    |out| == |ys| && forall k :: 0 <= k < |ys| ==> Cong(out[k], Eval(ys, Pow(w, k)), p)
  }

  lemma SinglePoint(ys: seq<int>, w: int, p: Modulus)
    requires |ys| == 1
    ensures IsTransform(ys, ys, w, p)
  {
    assert ys[1..] == [];
  }

  function Weave(evens: seq<int>, odds: seq<int>): (r: seq<int>)
    requires |evens| == |odds|
    ensures |r| == 2 * |evens|
  {
    seq(2 * |evens|, k requires 0 <= k < 2 * |evens| => if k % 2 == 0 then evens[k/2] else odds[k/2])
  }

  lemma WovenTwice(out: seq<int>, evens: seq<int>, odds: seq<int>)
    requires |evens| == |odds| && |out| == 2 * |evens|
    ensures Woven(Woven(out, evens, 0), odds, 1) == Weave(evens, odds)
  {
  }

  /** The transform as a function of its input and of the root table. */
  function Fft(ys: seq<int>, table: seq<int>, p: Modulus): (out: seq<int>)
    requires PowerOfTwo(|ys|) && |table| == |ys|
    ensures |out| == |ys|
    decreases |ys|
  {
    if |ys| == 1 then ys
    else
      var m := |ys| / 2;
      Weave(Fft(Sums(ys, m, p), EveryOther(table, m), p),
            Fft(Differences(ys, table, m, p), EveryOther(table, m), p))
  }

  lemma FftUnfold(ys: seq<int>, table: seq<int>, m: nat, p: Modulus)
    requires PowerOfTwo(|ys|) && |table| == |ys| && m == |ys| / 2
    ensures if |ys| == 1 then Fft(ys, table, p) == ys
            else Fft(ys, table, p) == Weave(Fft(Sums(ys, m, p), EveryOther(table, m), p),
                                            Fft(Differences(ys, table, m, p), EveryOther(table, m), p))
  {
  }

  /** Interleaving the two half-size transforms gives the full one. */
  lemma Interleave(evens: seq<int>, odds: seq<int>, ys: seq<int>, table: seq<int>, m: nat, w: int, p: Modulus)
    requires |ys| == |table| == 2 * m && IsRootTable(table, w, p)
    requires PowerOfTwo(|ys|) && PrincipalRoot(w, |ys|, p)
    requires IsTransform(evens, Sums(ys, m, p), w * w, p)
    requires IsTransform(odds, Differences(ys, table, m, p), w * w, p)
    ensures IsTransform(Weave(evens, odds), ys, w, p)
  {
    hide Sums, Differences, Eval, Pow;
    var res := Weave(evens, odds);
    forall k | 0 <= k < |ys| ensures Cong(res[k], Eval(ys, Pow(w, k)), p) {
      if k % 2 == 0 {
        EvenOutput(ys, m, w, k / 2, p);
      } else {
        OddOutput(ys, table, m, w, k / 2, p);
      }
    }
  }

  lemma {:induction false} FftIsTransform(ys: seq<int>, table: seq<int>, w: int, p: Modulus)
    requires PowerOfTwo(|ys|) && PrincipalRoot(w, |ys|, p) && |table| == |ys| && IsRootTable(table, w, p)
    ensures IsTransform(Fft(ys, table, p), ys, w, p)
    ensures |ys| > 1 || AllReduced(ys, p) ==> AllReduced(Fft(ys, table, p), p)
    decreases |ys|
  {
    if |ys| == 1 {
      SinglePoint(ys, w, p);
    } else {
      hide Sums, Differences, EveryOther, IsTransform, IsRootTable, PrincipalRoot;
      var m := |ys| / 2;
      PrincipalRootSquare(w, |ys|, p);
      SquaredTable(table, m, w, p);
      FftIsTransform(Sums(ys, m, p), EveryOther(table, m), w * w, p);
      FftIsTransform(Differences(ys, table, m, p), EveryOther(table, m), w * w, p);
      Interleave(Fft(Sums(ys, m, p), EveryOther(table, m), p),
                 Fft(Differences(ys, table, m, p), EveryOther(table, m), p), ys, table, m, w, p);
    }
  }

  lemma SquaredTable(table: seq<int>, m: nat, w: int, p: Modulus)
    requires |table| == 2 * m && IsRootTable(table, w, p)
    ensures IsRootTable(EveryOther(table, m), w * w, p)
  {
    forall i | 0 <= i < m ensures Cong(EveryOther(table, m)[i], Pow(w * w, i), p) {
      SquarePower(w, i);
      assert Cong(table[2*i], Pow(w, 2*i), p);
    }
  }

  /** First folding loop: the sums of the two halves, and every other root. */
  method FoldSums(p: Modulus, m: nat, roots: array<int>, r: nat, ys: array<int>, y: nat,
                  ySub: array<int>, s: nat, rootsSub: array<int>, q: nat)
    requires r + 2 * m <= roots.Length && y + 2 * m <= ys.Length
    requires s + m <= ySub.Length && q + m <= rootsSub.Length
    requires ySub != rootsSub && ys != rootsSub && roots != ySub
    requires ys == ySub ==> y + 2 * m <= s
    requires roots == rootsSub ==> r + 2 * m <= q
    modifies ySub, rootsSub
    ensures ySub[s..s+m] == Sums(old(ys[y..y+2*m]), m, p)
    ensures rootsSub[q..q+m] == EveryOther(old(roots[r..r+2*m]), m)
    ensures forall j :: 0 <= j < s ==> ySub[j] == old(ySub[j])
    ensures forall j :: 0 <= j < q ==> rootsSub[j] == old(rootsSub[j])
  {
    hide AddMod, Reduced;
    ghost var Y, R := ys[y..y+2*m], roots[r..r+2*m];
    for i := 0 to m
      invariant forall c :: s <= c < s + i ==> ySub[c] == AddMod(Y[c-s], Y[c-s+m], p)
      invariant forall c :: q <= c < q + i ==> rootsSub[c] == R[2*(c-q)]
      invariant forall j :: 0 <= j < s ==> ySub[j] == old(ySub[j])
      invariant forall j :: 0 <= j < q ==> rootsSub[j] == old(rootsSub[j])
    {
      assert ys[y..y+2*m] == Y && roots[r..r+2*m] == R;
      assert ys[y+i] == Y[i] && ys[y+i+m] == Y[i+m] && roots[r+2*i] == R[2*i];
      ySub[s+i] := AddMod(ys[y+i], ys[y+i+m], p);
      rootsSub[q+i] := roots[r+2*i];
    }
  }

  /** Second folding loop: the differences of the two halves times the roots. */
  method FoldDifferences(p: Modulus, m: nat, roots: array<int>, r: nat, ys: array<int>, y: nat,
                         ySub: array<int>, s: nat)
    requires r + 2 * m <= roots.Length && y + 2 * m <= ys.Length && s + m <= ySub.Length
    requires roots != ySub && (ys == ySub ==> y + 2 * m <= s)
    modifies ySub
    ensures ySub[s..s+m] == Differences(old(ys[y..y+2*m]), roots[r..r+2*m], m, p)
    ensures forall j :: 0 <= j < s ==> ySub[j] == old(ySub[j])
  {
    hide MulMod, SubMod, Reduced;
    ghost var Y, R := ys[y..y+2*m], roots[r..r+2*m];
    for i := 0 to m
      invariant forall c :: s <= c < s + i ==> ySub[c] == MulMod(SubMod(Y[c-s], Y[c-s+m], p), R[c-s], p)
      invariant forall j :: 0 <= j < s ==> ySub[j] == old(ySub[j])
    {
      assert ys[y..y+2*m] == Y && roots[r..r+2*m] == R;
      assert ys[y+i] == Y[i] && ys[y+i+m] == Y[i+m] && roots[r+i] == R[i];
      ySub[s+i] := SubMod(ys[y+i], ys[y+i+m], p);
      ySub[s+i] := MulMod(ySub[s+i], roots[r+i], p);
    }
  }

  /** Copies tmp[t..t+m] into the cells of parity b of out[o..o+2m]. */
  method Scatter(out: array<int>, o: nat, b: nat, m: nat, tmp: array<int>, t: nat)
    requires b < 2 && o + 2 * m <= out.Length && t + m <= tmp.Length
    requires out == tmp ==> o + 2 * m <= t
    modifies out
    ensures out[o..o+2*m] == Woven(old(out[o..o+2*m]), old(tmp[t..t+m]), b)
    ensures forall j :: 0 <= j < out.Length && !(o <= j < o + 2 * m) ==> out[j] == old(out[j])
  {
    ghost var O, T := out[o..o+2*m], tmp[t..t+m];
    for i := 0 to m
      invariant forall c :: o <= c < o + 2 * m ==>
        out[c] == if (c - o) % 2 == b && (c - o) / 2 < i then T[(c-o)/2] else O[c-o]
      invariant forall j :: 0 <= j < out.Length && !(o <= j < o + 2 * m) ==> out[j] == old(out[j])
    {
      assert tmp[t..t+m] == T;
      assert tmp[t+i] == T[i];
      out[o+2*i+b] := tmp[t+i];
    }
    forall k | 0 <= k < 2 * m ensures out[o..o+2*m][k] == Woven(O, T, b)[k] {
      assert out[o+k] == if k % 2 == b then T[k/2] else O[k];
    }
  }

  /** Where the regions of one call may lie: n - 1 scratch cells are enough, and a
      caller's region may share an array with the scratch above it. */
  ghost predicate Regions(n: nat, out: array<int>, o: nat, roots: array<int>, r: nat, ys: array<int>, y: nat,
                          tmp: array<int>, t: nat, ySub: array<int>, s: nat, rootsSub: array<int>, q: nat)
  {
    && o + n <= out.Length && r + n <= roots.Length && y + n <= ys.Length
    && t + n - 1 <= tmp.Length && s + n - 1 <= ySub.Length && q + n - 1 <= rootsSub.Length
    && tmp != ySub && tmp != rootsSub && ySub != rootsSub
    && out != ySub && out != rootsSub && out != ys && out != roots
    && ys != tmp && ys != rootsSub && roots != tmp && roots != ySub
    && (out == tmp ==> o + n <= t)
    && (ys == ySub ==> y + n <= s)
    && (roots == rootsSub ==> r + n <= q)
  }

  /** A call leaves the cells below its scratch regions intact, except for `out`. */
  twostate predicate Kept(n: nat, out: array<int>, o: nat, tmp: array<int>, t: nat,
                          ySub: array<int>, s: nat, rootsSub: array<int>, q: nat)
    reads out, tmp, ySub, rootsSub
  {
    && (forall i :: 0 <= i < out.Length && !(o <= i < o + n) && (out == tmp ==> i < t) ==> out[i] == old(out[i]))
    && (forall i :: 0 <= i < t && i < tmp.Length && (out == tmp ==> !(o <= i < o + n)) ==> tmp[i] == old(tmp[i]))
    && (forall i :: 0 <= i < s && i < ySub.Length ==> ySub[i] == old(ySub[i]))
    && (forall i :: 0 <= i < q && i < rootsSub.Length ==> rootsSub[i] == old(rootsSub[i]))
  }

  method FftRecurse(out: array<int>, o: nat, p: Modulus, n: nat, roots: array<int>, r: nat,
                    ys: array<int>, y: nat, tmp: array<int>, t: nat, ySub: array<int>, s: nat,
                    rootsSub: array<int>, q: nat)
    requires PowerOfTwo(n) && Regions(n, out, o, roots, r, ys, y, tmp, t, ySub, s, rootsSub, q)
    modifies out, tmp, ySub, rootsSub
    ensures out[o..o+n] == Fft(old(ys[y..y+n]), old(roots[r..r+n]), p)
    ensures Kept(n, out, o, tmp, t, ySub, s, rootsSub, q)
    decreases n, 2
  {
    hide Sums, Differences, EveryOther, Woven, Weave, Fft;
    ghost var Y, R, out0, m := ys[y..y+n], roots[r..r+n], out[o..o+n], n / 2;
    FftUnfold(Y, R, m, p);
    if n == 1 {
      out[o] := ys[y];
      assert out[o..o+n] == Y;
      return;
    }
    FirstHalf(out, o, p, n, roots, r, ys, y, tmp, t, ySub, s, rootsSub, q);
    assert ys[y..y+n] == Y && roots[r..r+n] == R;
    SecondHalf(out, o, p, n, roots, r, ys, y, tmp, t, ySub, s, rootsSub, q);
    WovenTwice(out0, Fft(Sums(Y, m, p), EveryOther(R, m), p), Fft(Differences(Y, R, m, p), EveryOther(R, m), p));
  }

  /** "Recurse on the first half": the even outputs. */
  method FirstHalf(out: array<int>, o: nat, p: Modulus, n: nat, roots: array<int>, r: nat,
                    ys: array<int>, y: nat, tmp: array<int>, t: nat, ySub: array<int>, s: nat,
                    rootsSub: array<int>, q: nat)
    requires PowerOfTwo(n) && n > 1 && Regions(n, out, o, roots, r, ys, y, tmp, t, ySub, s, rootsSub, q)
    modifies out, tmp, ySub, rootsSub
    ensures var Y, R, m := old(ys[y..y+n]), old(roots[r..r+n]), n / 2;
            && out[o..o+n] == Woven(old(out[o..o+n]), Fft(Sums(Y, m, p), EveryOther(R, m), p), 0)
            && rootsSub[q..q+m] == EveryOther(R, m)
    ensures Kept(n, out, o, tmp, t, ySub, s, rootsSub, q)
    decreases n, 1
  {
    hide Sums, EveryOther, Woven, Fft;
    TransformSums(out, o, p, n, roots, r, ys, y, tmp, t, ySub, s, rootsSub, q);
    assert out[o..o+n] == old(out[o..o+n]);
    Scatter(out, o, 0, n / 2, tmp, t);
  }

  method TransformSums(ghost out: array<int>, ghost o: nat, p: Modulus, n: nat, roots: array<int>, r: nat,
                    ys: array<int>, y: nat, tmp: array<int>, t: nat, ySub: array<int>, s: nat,
                    rootsSub: array<int>, q: nat)
    requires PowerOfTwo(n) && n > 1 && Regions(n, out, o, roots, r, ys, y, tmp, t, ySub, s, rootsSub, q)
    modifies tmp, ySub, rootsSub
    ensures var Y, R, m := old(ys[y..y+n]), old(roots[r..r+n]), n / 2;
            && tmp[t..t+m] == Fft(Sums(Y, m, p), EveryOther(R, m), p)
            && rootsSub[q..q+m] == EveryOther(R, m)
    ensures Kept(0, tmp, t, tmp, t, ySub, s, rootsSub, q)
    decreases n, 0
  {
    hide Sums, EveryOther, Fft;
    var m := n / 2;
    FoldSums(p, m, roots, r, ys, y, ySub, s, rootsSub, q);
    ghost var halved := rootsSub[q..q+m];
    label Folded:
    FftRecurse(tmp, t, p, m, rootsSub, q, ySub, s, tmp, t + m, ySub, s + m, rootsSub, q + m);
    forall c | q <= c < q + m ensures rootsSub[c] == halved[c-q] {
      assert rootsSub[c] == old@Folded(rootsSub[c]);
    }
    assert rootsSub[q..q+m] == halved;
  }

  /** "Recurse on the second half": the odd outputs, reusing the halved roots. */
  method SecondHalf(out: array<int>, o: nat, p: Modulus, n: nat, roots: array<int>, r: nat,
                    ys: array<int>, y: nat, tmp: array<int>, t: nat, ySub: array<int>, s: nat,
                    rootsSub: array<int>, q: nat)
    requires PowerOfTwo(n) && n > 1 && Regions(n, out, o, roots, r, ys, y, tmp, t, ySub, s, rootsSub, q)
    requires rootsSub[q..q+n/2] == EveryOther(roots[r..r+n], n / 2)
    modifies out, tmp, ySub, rootsSub
    ensures var Y, R, m := old(ys[y..y+n]), old(roots[r..r+n]), n / 2;
            out[o..o+n] == Woven(old(out[o..o+n]), Fft(Differences(Y, R, m, p), EveryOther(R, m), p), 1)
    ensures Kept(n, out, o, tmp, t, ySub, s, rootsSub, q)
    decreases n, 1
  {
    hide Differences, EveryOther, Woven, Fft;
    TransformDifferences(out, o, p, n, roots, r, ys, y, tmp, t, ySub, s, rootsSub, q);
    assert out[o..o+n] == old(out[o..o+n]);
    Scatter(out, o, 1, n / 2, tmp, t);
  }

  method TransformDifferences(ghost out: array<int>, ghost o: nat, p: Modulus, n: nat, roots: array<int>, r: nat,
                    ys: array<int>, y: nat, tmp: array<int>, t: nat, ySub: array<int>, s: nat,
                    rootsSub: array<int>, q: nat)
    requires PowerOfTwo(n) && n > 1 && Regions(n, out, o, roots, r, ys, y, tmp, t, ySub, s, rootsSub, q)
    requires rootsSub[q..q+n/2] == EveryOther(roots[r..r+n], n / 2)
    modifies tmp, ySub, rootsSub
    ensures var Y, R, m := old(ys[y..y+n]), old(roots[r..r+n]), n / 2;
            tmp[t..t+m] == Fft(Differences(Y, R, m, p), EveryOther(R, m), p)
    ensures Kept(0, tmp, t, tmp, t, ySub, s, rootsSub, q)
    decreases n, 0
  {
    hide Differences, EveryOther, Fft;
    var m := n / 2;
    FoldDifferences(p, m, roots, r, ys, y, ySub, s);
    FftRecurse(tmp, t, p, m, rootsSub, q, ySub, s, tmp, t + m, ySub, s + m, rootsSub, q + m);
  }

  /** out is the transform of ys divided by its length. */
  ghost predicate IsScaledTransform(out: seq<int>, ys: seq<int>, w: int, p: Modulus) {
    |out| == |ys| && forall k :: 0 <= k < |ys| ==> Cong(out[k], Eval(ys, Pow(w, k)) * InvMod(|ys|, p), p)
  }

  method ScaleAll(out: array<int>, c: int, p: Modulus)
    modifies out
    ensures forall i :: 0 <= i < out.Length ==> out[i] == MulMod(old(out[i]), c, p)
  {
    for i := 0 to out.Length
      invariant forall j :: 0 <= j < i ==> out[j] == MulMod(old(out[j]), c, p)
      invariant forall j :: i <= j < out.Length ==> out[j] == old(out[j])
    {
      out[i] := MulMod(out[i], c, p);
    }
  }

  method FftInterpolate(p: Modulus, nPoints: nat, roots: array<int>, ys: array<int>, invert: bool, ghost w: int)
    returns (out: array<int>)
    requires PowerOfTwo(nPoints) && PrincipalRoot(w, nPoints, p)
    requires nPoints <= roots.Length && nPoints <= ys.Length
    requires IsRootTable(roots[..nPoints], w, p)
    ensures fresh(out) && out.Length == nPoints
    ensures !invert ==> IsTransform(out[..], ys[..nPoints], w, p)
    ensures invert ==> IsScaledTransform(out[..], ys[..nPoints], w, p)
    ensures nPoints > 1 || invert || AllReduced(ys[..nPoints], p) ==> AllReduced(out[..], p)
  {
    out := new int[nPoints];
    var tmp := new int[nPoints];
    var ySub := new int[nPoints];
    var rootsSub := new int[nPoints];
    assert roots[0..0+nPoints] == roots[..nPoints] && ys[0..0+nPoints] == ys[..nPoints];
    FftRecurse(out, 0, p, nPoints, roots, 0, ys, 0, tmp, 0, ySub, 0, rootsSub, 0);
    FftIsTransform(ys[..nPoints], roots[..nPoints], w, p);
    ghost var T := out[..];
    assert out[0..0+nPoints] == T;
    if invert {
      var nInverse := InvMod(nPoints, p);
      ScaleAll(out, nInverse, p);
      forall k | 0 <= k < nPoints
        ensures Cong(out[k], Eval(ys[..nPoints], Pow(w, k)) * InvMod(nPoints, p), p)
      {
        MulModCong(T[k], nInverse, p);
        CongMul(T[k], Eval(ys[..nPoints], Pow(w, k)), nInverse, nInverse, p);
      }
    }
  }

  // ---------- inversion ----------

  /** The values of ys at 1, v, ..., v^(n-1). */
  function Values(ys: seq<int>, v: int, n: nat): (f: seq<int>)
    ensures |f| == n
  {
    seq(n, j requires 0 <= j < n => Eval(ys, Pow(v, j)))
  }

  lemma ValuesStep(ys: seq<int>, v: int, n: nat, m: nat)
    requires m < |ys|
    ensures Values(ys[..m+1], v, n) == Plus(Values(ys[..m], v, n), Scale(ys[m], Twist(Ones(n), Pow(v, m))))
  {
    hide Pow, Eval, Twist, Ones, Scale;
    var a, b := Values(ys[..m], v, n), Scale(ys[m], Twist(Ones(n), Pow(v, m)));
    PlusAt(a, b);
    forall j | 0 <= j < n ensures Values(ys[..m+1], v, n)[j] == a[j] + b[j] {
      LastTerm(ys[..m+1], Pow(v, j));
      assert ys[..m+1][..m] == ys[..m];
      OnesTwisted(n, Pow(v, m), j);
      PowExchange(v, j, m);
    }
  }

  lemma OnesTwisted(n: nat, w: int, j: nat)
    requires j < n
    ensures Twist(Ones(n), w)[j] == Pow(w, j)
  {
    TwistAt(Ones(n), w, j);
  }

  lemma EvalValuesStep(ys: seq<int>, v: int, n: nat, m: nat, x: int)
    requires m < |ys|
    ensures Eval(Values(ys[..m+1], v, n), x) == Eval(Values(ys[..m], v, n), x) + ys[m] * Eval(Ones(n), Pow(v, m) * x)
  {
    hide Eval, Pow, Values;
    ValuesStep(ys, v, n, m);
    var b := Twist(Ones(n), Pow(v, m));
    EvalPlus(Values(ys[..m], v, n), Scale(ys[m], b), x);
    EvalScale(ys[m], b, x);
    EvalTwist(Ones(n), Pow(v, m), x);
  }

  lemma ValuesOfNothing(v: int, n: nat, x: int, p: Modulus)
    ensures Cong(Eval(Values([], v, n), x), 0, p)
  {
    EvalZero(Values([], v, n), x, p);
  }

  /** Exchanging the two sums: only the term m == k survives. */
  lemma {:induction false} DoubleSum(ys: seq<int>, w: int, v: int, m: nat, k: nat, p: Modulus)
    requires PowerOfTwo(|ys|) && PrincipalRoot(w, |ys|, p) && p > 2 && Prime(p) && Cong(v * w, 1, p)
    requires m <= |ys| && k < |ys|
    ensures Cong(Eval(Values(ys[..m], v, |ys|), Pow(w, k)), if k < m then ys[k] * |ys| else 0, p)
  {
    hide Eval, Pow, Values, PrincipalRoot, PowerOfTwo;
    var n, x := |ys|, Pow(w, k);
    if m == 0 {
      ValuesOfNothing(v, n, x, p);
    } else {
      var i := m - 1;
      DoubleSum(ys, w, v, i, k, p);
      EvalValuesStep(ys, v, n, i, x);
      Orthogonality(w, v, n, i, k, p);
      var e := Eval(Ones(n), Pow(v, i) * x);
      CongMul(ys[i], ys[i], e, if i == k then n else 0, p);
      CongAdd(Eval(Values(ys[..i], v, n), x), if k < i then ys[k] * n else 0,
              ys[i] * e, if i == k then ys[k] * n else 0, p);
    }
  }

  lemma ScaledValues(ys: seq<int>, c: seq<int>, v: int, p: Modulus)
    requires IsScaledTransform(c, ys, v, p)
    ensures SameMod(c, Scale(InvMod(|ys|, p), Values(ys, v, |ys|)), p)
  {
    hide Eval, Pow, InvMod;
    forall j | 0 <= j < |ys| ensures Eval(ys, Pow(v, j)) * InvMod(|ys|, p) == InvMod(|ys|, p) * Eval(ys, Pow(v, j)) {
    }
  }

  /** The scaled transform with the inverse roots is the coefficient list of the
      polynomial through the points (w^k, ys[k]). */
  lemma InverseIsInterpolation(ys: seq<int>, c: seq<int>, w: int, v: int, k: nat, p: Modulus)
    requires PowerOfTwo(|ys|) && PrincipalRoot(w, |ys|, p) && p > 2 && Prime(p) && Cong(v * w, 1, p)
    requires IsScaledTransform(c, ys, v, p) && k < |ys|
    ensures Cong(Eval(c, Pow(w, k)), ys[k], p)
  {
    hide Eval, Pow, Values, InvMod, IsScaledTransform, Scale, SameMod, PrincipalRoot, PowerOfTwo, Prime;
    var n, x, i := |ys|, Pow(w, k), InvMod(|ys|, p);
    var f := Values(ys, v, n);
    assert ys[..n] == ys;
    DoubleSum(ys, w, v, n, k, p);
    ScaledValues(ys, c, v, p);
    EvalScale(i, f, x);
    EvalCong(c, Scale(i, f), x, x, p);
    CongMul(i, i, Eval(f, x), ys[k] * n, p);
    PowerOfTwoNonZero(n, p);
    DivideOut(n, ys[k], p);
  }

  lemma DivideOut(n: int, y: int, p: Modulus)
    requires Prime(p) && !Cong(n, 0, p)
    ensures Cong(InvMod(n, p) * (y * n), y, p)
  {
    hide InvMod, Prime;
    var i := InvMod(n, p);
    InvModCorrect(n, p);
    CongMul(y, y, n * i, 1, p);
    SwapLeft(i, y, n);
    assert y * (i * n) == y * (n * i) by { assert i * n == n * i; }
  }

  lemma InverseIsInterpolant(ys: seq<int>, c: seq<int>, table: seq<int>, w: int, v: int, p: Modulus)
    requires PowerOfTwo(|ys|) && PrincipalRoot(w, |ys|, p) && p > 2 && Prime(p) && Cong(v * w, 1, p)
    requires IsScaledTransform(c, ys, v, p) && |table| == |ys| && IsRootTable(table, w, p)
    ensures SameMod(c, Interpolant(table, ys, p), p)
  {
    RootTableDistinct(table, w, p);
    forall k | 0 <= k < |ys| ensures Cong(Eval(c, table[k]), Eval(Interpolant(table, ys, p), table[k]), p) {
      InverseIsInterpolation(ys, c, w, v, k, p);
      EvalCong(c, c, table[k], Pow(w, k), p);
      InterpolantHits(table, ys, k, p);
    }
    InterpolationUnique(c, Interpolant(table, ys, p), table, p);
  }

  /** Inverse transform followed by forward transform is the identity on reduced vectors. */
  lemma RoundTrip(ys: seq<int>, c: seq<int>, out: seq<int>, w: int, v: int, p: Modulus)
    requires PowerOfTwo(|ys|) && PrincipalRoot(w, |ys|, p) && p > 2 && Prime(p) && Cong(v * w, 1, p)
    requires IsScaledTransform(c, ys, v, p) && IsTransform(out, c, w, p)
    requires AllReduced(ys, p) && AllReduced(out, p)
    ensures out == ys
  {
    forall k | 0 <= k < |ys| ensures out[k] == ys[k] {
      InverseIsInterpolation(ys, c, w, v, k, p);
      ReducedEqual(out[k], ys[k], p);
    }
  }
}
