/** Sequences with the same members in another order. */
module Permutations {
  ghost predicate Permuted<T>(a: seq<T>, b: seq<T>) {
    multiset(a) == multiset(b)
  }

  function Mapped<A, B>(s: seq<A>, f: A --> B): (r: seq<B>)
    requires forall i :: 0 <= i < |s| ==> f.requires(s[i])
    ensures |r| == |s| && forall i :: 0 <= i < |s| ==> r[i] == f(s[i])
  {
    seq(|s|, i requires 0 <= i < |s| && f.requires(s[i]) => f(s[i]))
  }

  ghost function Removed<T>(s: seq<T>, j: nat): (r: seq<T>)
    requires j < |s|
    ensures |r| == |s| - 1 && multiset(r) == multiset(s) - multiset{s[j]}
  {
    assert s == s[..j] + [s[j]] + s[j+1..];
    s[..j] + s[j+1..]
  }

  /** The last member of a, removed from both sides. */
  lemma RemoveLast<T>(a: seq<T>, b: seq<T>) returns (j: nat)
    requires Permuted(a, b) && a != []
    ensures j < |b| && b[j] == a[|a|-1] && Permuted(a[..|a|-1], Removed(b, j))
  {
    var x := a[|a|-1];
    assert a == a[..|a|-1] + [x];
    assert x in multiset(b);
    j :| 0 <= j < |b| && b[j] == x;
  }

  lemma SameLength<T>(a: seq<T>, b: seq<T>)
    requires Permuted(a, b)
    ensures |a| == |b|
  {
    assert |multiset(a)| == |a| && |multiset(b)| == |b|;
  }

  lemma {:induction false} MappedPermuted<A, B>(a: seq<A>, b: seq<A>, f: A --> B)
    requires Permuted(a, b) && forall i :: 0 <= i < |a| ==> f.requires(a[i])
    ensures forall i :: 0 <= i < |b| ==> f.requires(b[i])
    ensures Permuted(Mapped(a, f), Mapped(b, f))
    decreases |a|
  {
    SameLength(a, b);
    forall i | 0 <= i < |b| ensures f.requires(b[i]) {
      assert b[i] in multiset(a);
    }
    if a != [] {
      var j := RemoveLast(a, b);
      MappedPermuted(a[..|a|-1], Removed(b, j), f);
      assert Mapped(a, f) == Mapped(a[..|a|-1], f) + [f(a[|a|-1])];
      assert Mapped(b, f) == Mapped(b[..j], f) + [f(b[j])] + Mapped(b[j+1..], f);
      assert Mapped(Removed(b, j), f) == Mapped(b[..j], f) + Mapped(b[j+1..], f);
    }
  }

  ghost predicate Distinct<T>(s: seq<T>) {
    forall i, j :: 0 <= i < j < |s| ==> s[i] != s[j]
  }

  lemma {:induction false} DistinctOnce<T>(s: seq<T>, x: T)
    requires Distinct(s)
    ensures multiset(s)[x] == if x in s then 1 else 0
  {
    if s != [] {
      var n := |s| - 1;
      DistinctOnce(s[..n], x);
      assert s == s[..n] + [s[n]];
    }
  }

  /** Distinct sequences with the same members are permutations. */
  lemma SameMembers<T(!new)>(a: seq<T>, b: seq<T>)
    requires Distinct(a) && Distinct(b) && forall x :: x in a <==> x in b
    ensures Permuted(a, b)
  {
    forall x: T ensures multiset(a)[x] == multiset(b)[x] {
      DistinctOnce(a, x);
      DistinctOnce(b, x);
    }
  }

  // ---------- sums ----------

  ghost function Sum<T>(s: seq<T>, f: T -> int): int {
    if s == [] then 0 else Sum(s[..|s|-1], f) + f(s[|s|-1])
  }

  lemma {:induction false} SumConcat<T>(a: seq<T>, b: seq<T>, f: T -> int)
    ensures Sum(a + b, f) == Sum(a, f) + Sum(b, f)
  {
    if b == [] {
      assert a + b == a;
    } else {
      var n := |b| - 1;
      SumConcat(a, b[..n], f);
      assert (a + b)[..|a|+n] == a + b[..n];
    }
  }

  /** A sum does not depend on the order. */
  lemma {:induction false} SumPermuted<T>(a: seq<T>, b: seq<T>, f: T -> int)
    requires Permuted(a, b)
    ensures Sum(a, f) == Sum(b, f)
    decreases |a|
  {
    SameLength(a, b);
    if a != [] {
      var j := RemoveLast(a, b);
      SumPermuted(a[..|a|-1], Removed(b, j), f);
      SumConcat(b[..j], b[j+1..], f);
      SumConcat(b[..j] + [b[j]], b[j+1..], f);
      SumConcat(b[..j], [b[j]], f);
      assert b == b[..j] + [b[j]] + b[j+1..];
      assert Sum([b[j]], f) == f(b[j]) by { assert [b[j]][..0] == []; }
    }
  }
}
