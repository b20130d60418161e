/** Members and sizes of finite sets. */
module Sets {
  lemma EmptyIfNone<T(!new)>(S: set<T>)
    requires forall x :: x !in S
    ensures S == {}
  {
    var empty: set<T> := {};
    assert forall x :: x in S <==> x in empty;
  }

  lemma HasMember<T(!new)>(S: set<T>)
    requires S != {}
    ensures exists x :: x in S
  {
    if forall x :: x !in S {
      EmptyIfNone(S);
    }
  }

  /** Some member of a set. */
  ghost function Member<T(!new)>(S: set<T>): (x: T)
    requires S != {}
    ensures x in S
  {
    HasMember(S);
    var x :| x in S;
    x
  }

  // ---------- sizes ----------

  lemma {:induction false} RangeSize(S: set<int>, k: nat)
    requires forall x :: x in S ==> 0 <= x < k
    ensures |S| <= k
  {
    if k == 0 {
      assert forall x: int :: x in S <==> x in {};
    } else {
      RangeSize(S - {k - 1}, k - 1);
    }
  }

  ghost function Image<A(!new), B(!new)>(S: set<A>, f: A --> B): set<B>
    requires forall a :: a in S ==> f.requires(a)
  {
    set a | a in S :: f(a)
  }

  /** A set is as large as its image under a function that keeps its members apart. */
  lemma {:induction false} ImageSize<A(!new), B(!new)>(S: set<A>, f: A --> B)
    requires forall a :: a in S ==> f.requires(a)
    requires forall a, b :: a in S && b in S && f(a) == f(b) ==> a == b
    ensures |Image(S, f)| == |S|
  {
    if S != {} {
      var x := Member(S);
      var rest := S - {x};
      ImageSize(rest, f);
      assert Image(S, f) == Image(rest, f) + {f(x)};
    }
  }
}
