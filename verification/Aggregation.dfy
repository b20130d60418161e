/** `accumulate` of server.cpp and the final sum of both servers' totals. */
module Aggregation {
  import opened Modular
  import opened Shares
  import opened Rows

  /** Column j of the accepted rows, added as integers. */
  ghost function ColumnSum(x: seq<int>, valid: seq<bool>, numValues: nat, j: nat, n: nat): int
    requires j < numValues && n <= |valid| && RowStart(n, numValues) <= |x|
  {
    if n == 0 then 0
    else ColumnSum(x, valid, numValues, j, n - 1) + if valid[n-1] then x[RowStart(n - 1, numValues) + j] else 0
  }

  ghost function CountValid(valid: seq<bool>, n: nat): nat
    requires n <= |valid|
  {
    if n == 0 then 0 else CountValid(valid, n - 1) + if valid[n-1] then 1 else 0
  }

  /** Every total is congruent to its column. */
  ghost predicate Totals(ans: seq<int>, x: seq<int>, valid: seq<bool>, n: nat, p: Modulus)
    requires n <= |valid| && RowStart(n, |ans|) <= |x|
  {
    forall j :: 0 <= j < |ans| ==> Reduced(ans[j], p) && Cong(ans[j], ColumnSum(x, valid, |ans|, j, n), p)
  }

  method AddRow(ans: array<int>, x: seq<int>, at: nat, p: Modulus)
    requires at + ans.Length <= |x|
    modifies ans
    ensures forall j :: 0 <= j < ans.Length ==> ans[j] == AddMod(old(ans[j]), x[at+j], p)
  {
    hide AddMod;
    for j := 0 to ans.Length
      invariant forall k :: 0 <= k < j ==> ans[k] == AddMod(old(ans[k]), x[at+k], p)
      invariant forall k :: j <= k < ans.Length ==> ans[k] == old(ans[k])
    {
      ans[j] := AddMod(ans[j], x[at+j], p);
    }
  }

  lemma RowAdded(was: seq<int>, ans: seq<int>, x: seq<int>, valid: seq<bool>, i: nat, p: Modulus)
    requires i < |valid| && RowStart(i + 1, |was|) <= |x| && |ans| == |was|
    requires Totals(was, x, valid, i, p)
    requires forall j :: 0 <= j < |ans| ==>
               ans[j] == if valid[i] then AddMod(was[j], x[RowStart(i, |was|) + j], p) else was[j]
    ensures Totals(ans, x, valid, i + 1, p)
  {
    hide Cong, AddMod;
    forall j | 0 <= j < |ans| ensures Cong(ans[j], ColumnSum(x, valid, |ans|, j, i + 1), p) && Reduced(ans[j], p) {
      if valid[i] {
        var y := x[RowStart(i, |was|) + j];
        AddModCong(was[j], y, p);
        CongIntro(y, y, 0, p);
        CongAdd(was[j], ColumnSum(x, valid, |was|, j, i), y, y, p);
        CongTrans(ans[j], was[j] + y, ColumnSum(x, valid, |was|, j, i) + y, p);
      }
    }
  }

  method Accumulate(numInputs: nat, numValues: nat, sharesP: seq<int>, valid: seq<bool>, p: Modulus)
    returns (ans: array<int>, numValid: nat)
    requires |valid| == numInputs && |sharesP| == RowStart(numInputs, numValues)
    ensures ans.Length == numValues && fresh(ans)
    ensures Totals(ans[..], sharesP, valid, numInputs, p)
    ensures numValid == CountValid(valid, numInputs)
  {
    hide AddMod, Totals, RowStart;
    numValid := 0;
    ans := new int[numValues](_ => 0);
    NoTotals(ans[..], sharesP, valid, p);
    for i := 0 to numInputs
      invariant RowStart(i, numValues) <= |sharesP|
      invariant Totals(ans[..], sharesP, valid, i, p)
      invariant numValid == CountValid(valid, i)
    {
      RowsFit(i, numInputs, numValues);
      ghost var was := ans[..];
      if !valid[i] {
        RowAdded(was, ans[..], sharesP, valid, i, p);
        continue;
      }
      AddRow(ans, sharesP, RowStart(i, numValues), p);
      RowAdded(was, ans[..], sharesP, valid, i, p);
      numValid := numValid + 1;
    }
  }

  lemma NoTotals(ans: seq<int>, x: seq<int>, valid: seq<bool>, p: Modulus)
    requires forall j :: 0 <= j < |ans| ==> ans[j] == 0
    ensures RowStart(0, |ans|) == 0 && Totals(ans, x, valid, 0, p)
  {
  }

  lemma {:induction false} ColumnShares(x0: seq<int>, x1: seq<int>, v: seq<int>, valid: seq<bool>, numValues: nat,
                                        j: nat, n: nat, p: Modulus)
    requires SharesOf(x0, x1, v, p) && j < numValues && n <= |valid| && RowStart(n, numValues) <= |v|
    ensures Cong(ColumnSum(x0, valid, numValues, j, n) + ColumnSum(x1, valid, numValues, j, n),
                 ColumnSum(v, valid, numValues, j, n), p)
  {
    hide Cong;
    if n == 0 {
      CongIntro(0, 0, 0, p);
    } else {
      ColumnShares(x0, x1, v, valid, numValues, j, n - 1, p);
      var c := RowStart(n - 1, numValues) + j;
      if valid[n-1] {
        assert Cong(x0[c] + x1[c], v[c], p);
        CongAdd(ColumnSum(x0, valid, numValues, j, n - 1) + ColumnSum(x1, valid, numValues, j, n - 1),
                ColumnSum(v, valid, numValues, j, n - 1), x0[c] + x1[c], v[c], p);
      }
    }
  }

  /** Both servers accumulate and server 0 adds the two totals: sums of the opened values. */
  method Aggregate(numInputs: nat, numValues: nat, shares0: seq<int>, shares1: seq<int>, valid: seq<bool>, p: Modulus,
                   ghost v: seq<int>)
    returns (a: array<int>)
    requires |valid| == numInputs && |shares0| == |shares1| == |v| == RowStart(numInputs, numValues)
    ensures a.Length == numValues && fresh(a) && AllReduced(a[..], p)
    ensures SharesOf(shares0, shares1, v, p) ==> Totals(a[..], v, valid, numInputs, p)
  {
    hide AddMod, RowStart, ColumnSum, Cong;
    var b, n0, n1;
    a, n0 := Accumulate(numInputs, numValues, shares0, valid, p);
    b, n1 := Accumulate(numInputs, numValues, shares1, valid, p);
    ghost var a0, b0 := a[..], b[..];
    AddRow(a, b[..], 0, p);
    if SharesOf(shares0, shares1, v, p) {
      forall j | 0 <= j < numValues
        ensures Reduced(a[j], p) && Cong(a[j], ColumnSum(v, valid, numValues, j, numInputs), p)
      {
        ColumnShares(shares0, shares1, v, valid, numValues, j, numInputs, p);
        AddModCong(a0[j], b0[j], p);
        var s0 := ColumnSum(shares0, valid, numValues, j, numInputs);
        var s1 := ColumnSum(shares1, valid, numValues, j, numInputs);
        CongAdd(a0[j], s0, b0[j], s1, p);
        CongTrans(a[j], a0[j] + b0[j], s0 + s1, p);
        CongTrans(a[j], s0 + s1, ColumnSum(v, valid, numValues, j, numInputs), p);
      }
    }
  }

  /** A total below p is the exact sum. */
  lemma TotalExact(ans: seq<int>, x: seq<int>, valid: seq<bool>, n: nat, j: nat, p: Modulus)
    requires n <= |valid| && RowStart(n, |ans|) <= |x| && Totals(ans, x, valid, n, p) && j < |ans|
    requires 0 <= ColumnSum(x, valid, |ans|, j, n) < p
    ensures ans[j] == ColumnSum(x, valid, |ans|, j, n)
  {
    ReducedEqual(ans[j], ColumnSum(x, valid, |ans|, j, n), p);
  }
}
