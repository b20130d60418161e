/** Booleans as transferred by ot.cpp, and Boolean Beaver triples. */
module BoolOt {
  import opened RootsOfUnity
  import opened Ot

  function AsBit(b: bool): nat {
    if b then 1 else 0
  }

  function AsBits(s: seq<bool>): (r: seq<nat>)
    ensures |r| == |s|
  {
    seq(|s|, i requires 0 <= i < |s| => AsBit(s[i]))
  }

  /** The number whose low n bits are a XOR b. */
  ghost function XorVal(a: seq<bool>, b: seq<bool>, n: nat): nat
    requires n <= |a| && n <= |b|
  {
    if n == 0 then 0 else XorVal(a, b, n - 1) + AsBit(a[n-1] != b[n-1]) * Pow2(n - 1)
  }

  lemma {:induction false} XorValPrefix(a: seq<bool>, b: seq<bool>, c: bool, d: bool, n: nat)
    requires n <= |a| && n <= |b|
    ensures XorVal(a + [c], b + [d], n) == XorVal(a, b, n)
  {
    if n > 0 {
      XorValPrefix(a, b, c, d, n - 1);
    }
  }

  method ChoiceBits(t: seq<bool>) returns (choice: array<nat>)
    ensures choice[..] == AsBits(t)
  {
    choice := new nat[|t|];
    for i := 0 to |t|
      invariant forall m :: 0 <= m < i ==> choice[m] == AsBit(t[m])
    {
      choice[i] := AsBit(t[i]);
    }
  }

  // ---------- Boolean Beaver triples ----------

  datatype BoolTriple = BoolTriple(a: bool, b: bool, c: bool)

  /** The two shares reconstruct (a, b, a AND b). */
  predicate IsBoolTriple(t0: BoolTriple, t1: BoolTriple) {
    (t0.c != t1.c) == ((t0.a != t1.a) && (t0.b != t1.b))
  }

  ghost predicate AreBoolTriples(t0: seq<BoolTriple>, t1: seq<BoolTriple>) {
    |t0| == |t1| && forall i :: 0 <= i < |t0| ==> IsBoolTriple(t0[i], t1[i])
  }

  method RandomBools(m: nat) returns (s: seq<bool>)
    ensures |s| == m
  {
    RandomBoolsExist(m);
    s :| |s| == m;
  }

  lemma RandomBoolsExist(m: nat)
    ensures exists s: seq<bool> :: |s| == m
  {
    assert |seq(m, _ => false)| == m;
  }

  /** The messages r and r XOR x. */
  method TripleMessages(x: seq<bool>, r: seq<bool>) returns (b0: array<int>, b1: array<int>)
    requires |x| == |r|
    ensures b0.Length == b1.Length == |x|
    ensures forall i :: 0 <= i < |x| ==> b0[i] == AsBit(r[i]) && b1[i] == AsBit(x[i] != r[i])
  {
    b0 := new int[|x|];
    b1 := new int[|x|];
    for i := 0 to |x|
      invariant forall k :: 0 <= k < i ==> b0[k] == AsBit(r[k]) && b1[k] == AsBit(x[k] != r[k])
    {
      b0[i] := AsBit(r[i]);
      b1[i] := AsBit(x[i] != r[i]);
    }
  }

  method TripleOutputs(x: seq<bool>, y: seq<bool>, r: seq<bool>, b: array<int>) returns (ans: seq<BoolTriple>)
    requires |x| == |y| == |r| == b.Length
    ensures |ans| == |x|
    ensures forall i :: 0 <= i < |x| ==> ans[i] == BoolTriple(x[i], y[i], (b[i] == 1) != (r[i] != (x[i] && y[i])))
  {
    ans := [];
    for i := 0 to |x|
      invariant |ans| == i
      invariant forall k :: 0 <= k < i ==> ans[k] == BoolTriple(x[k], y[k], (b[k] == 1) != (r[k] != (x[k] && y[k])))
    {
      var z := (b[i] == 1) != (r[i] != (x[i] && y[i]));
      ans := ans + [BoolTriple(x[i], y[i], z)];
    }
  }

  /** `gen_boolean_beaver_triples` on both servers. */
  method GenBooleanBeaverTriples(m: nat) returns (t0: seq<BoolTriple>, t1: seq<BoolTriple>)
    ensures |t0| == m && AreBoolTriples(t0, t1)
  {
    var x0 := RandomBools(m);
    var y0 := RandomBools(m);
    var r0 := RandomBools(m);
    var x1 := RandomBools(m);
    var y1 := RandomBools(m);
    var r1 := RandomBools(m);
    var p0, p1 := TripleMessages(x0, r0);
    var q0, q1 := TripleMessages(x1, r1);
    var c0 := ChoiceBits(y0);
    var c1 := ChoiceBits(y1);
    assert c0.Length == |c0[..]| && c1.Length == |c1[..]|;
    var toServer1 := Transfer(p0, p1, c1);
    var toServer0 := Transfer(q0, q1, c0);
    t0 := TripleOutputs(x0, y0, r0, toServer0);
    t1 := TripleOutputs(x1, y1, r1, toServer1);
    forall i | 0 <= i < m ensures IsBoolTriple(t0[i], t1[i]) {
      assert toServer0[..][i] == Chosen(c0[..][i], q0[..][i], q1[..][i]);
      assert toServer1[..][i] == Chosen(c1[..][i], p0[..][i], p1[..][i]);
    }
  }
}
