/** Matching the two servers' submissions by the clients' public keys. */
module KeyMatch {
  import Sets
  import opened Permutations

  /** A client's public key. */
  type Key = string

  datatype Submission<T> = Submission(pk: Key, val: T)

  /** The share map after n submissions: of several under one key the first one counts. */
  function ShareMap<T>(inputs: seq<Submission<T>>, n: nat): map<Key, T>
    requires n <= |inputs|
  {
    if n == 0 then map[] else
      var m := ShareMap(inputs, n - 1);
      var i := inputs[n-1];
      if i.pk in m then m else m[i.pk := i.val]
  }

  method ReceiveShares<T>(inputs: seq<Submission<T>>) returns (m: map<Key, T>)
    ensures m == ShareMap(inputs, |inputs|)
  {
    m := map[];
    for i := 0 to |inputs|
      invariant m == ShareMap(inputs, i)
    {
      if inputs[i].pk in m {
        continue;
      }
      m := m[inputs[i].pk := inputs[i].val];
    }
  }

  /** A key is in the map exactly when somebody sent it, with the first value sent under it. */
  lemma {:induction false} FirstCounts<T(!new)>(inputs: seq<Submission<T>>, n: nat, k: Key)
    requires n <= |inputs|
    ensures k in ShareMap(inputs, n) <==> exists i :: 0 <= i < n && inputs[i].pk == k
    ensures forall i :: 0 <= i < n && inputs[i].pk == k && (forall j :: 0 <= j < i ==> inputs[j].pk != k) ==>
              k in ShareMap(inputs, n) && ShareMap(inputs, n)[k] == inputs[i].val
  {
    if n > 0 {
      FirstCounts(inputs, n - 1, k);
      if k in ShareMap(inputs, n - 1) {
        var i :| 0 <= i < n - 1 && inputs[i].pk == k;
      } else if inputs[n-1].pk == k {
        assert inputs[n-1].pk == k;
      }
    }
  }

  // ---------- the order in which server 1 sends its keys ----------

  /** Every key of m once, in some order. */
  ghost predicate Lists<T>(order: seq<Key>, m: map<Key, T>) {
    && (forall i :: 0 <= i < |order| ==> order[i] in m)
    && (forall k :: k in m ==> k in order)
    && Distinct(order)
  }

  method KeyOrder<T>(m: map<Key, T>) returns (order: seq<Key>)
    ensures Lists(order, m)
  {
    order := [];
    var rest := m.Keys;
    while rest != {}
      invariant rest <= m.Keys
      invariant forall k :: k in order <==> k in m && k !in rest
      invariant Distinct(order)
      decreases |rest|
    {
      assert Sets.Member(rest) in rest;
      var k :| k in rest;
      order := order + [k];
      rest := rest - {k};
    }
  }

  method SharesInOrder<T>(order: seq<Key>, m: map<Key, T>) returns (shares: seq<T>)
    requires forall i :: 0 <= i < |order| ==> order[i] in m
    ensures |shares| == |order| && forall i :: 0 <= i < |order| ==> shares[i] == m[order[i]]
  {
    shares := [];
    for i := 0 to |order|
      invariant |shares| == i && forall k :: 0 <= k < i ==> shares[k] == m[order[k]]
    {
      shares := shares + [m[order[i]]];
    }
  }

  /** The keys of the first n places that server 0 knows. */
  ghost function Known<T>(order: seq<Key>, m0: map<Key, T>, n: nat): set<Key>
    requires n <= |order|
  {
    set k | k in order[..n] && k in m0
  }

  /** Server 0 looks the keys up; what an unknown key gets is given by `fill`. */
  method LookUp<T>(order: seq<Key>, m0: map<Key, T>, fill: seq<T>)
    returns (shares: seq<T>, valid: seq<bool>, numValid: nat)
    requires |fill| == |order| && Distinct(order)
    ensures |shares| == |valid| == |order|
    ensures forall i :: 0 <= i < |order| ==> valid[i] == (order[i] in m0)
    ensures forall i :: 0 <= i < |order| ==> shares[i] == if order[i] in m0 then m0[order[i]] else fill[i]
    ensures numValid == |Known(order, m0, |order|)|
  {
    hide Known;
    shares, valid, numValid := [], [], 0;
    NoneKnown(order, m0);
    for i := 0 to |order|
      invariant |shares| == |valid| == i
      invariant forall k :: 0 <= k < i ==> valid[k] == (order[k] in m0)
      invariant forall k :: 0 <= k < i ==> shares[k] == if order[k] in m0 then m0[order[k]] else fill[k]
      invariant numValid == |Known(order, m0, i)|
    {
      KnownNext(order, m0, i);
      var isValid := order[i] in m0;
      valid := valid + [isValid];
      if isValid {
        numValid := numValid + 1;
        shares := shares + [m0[order[i]]];
      } else {
        shares := shares + [fill[i]];
      }
    }
  }

  lemma NoneKnown<T>(order: seq<Key>, m0: map<Key, T>)
    ensures Known(order, m0, 0) == {}
  {
  }

  lemma KnownNext<T>(order: seq<Key>, m0: map<Key, T>, n: nat)
    requires n < |order| && Distinct(order)
    ensures Known(order, m0, n + 1) == Known(order, m0, n) + if order[n] in m0 then {order[n]} else {}
    ensures order[n] !in Known(order, m0, n)
  {
    assert order[..n+1] == order[..n] + [order[n]];
  }

  // ---------- sizes ----------

  lemma OneMoreKey<T>(m: map<Key, T>, k: Key, v: T)
    ensures |m[k := v].Keys| <= |m.Keys| + 1
  {
    assert m[k := v].Keys == m.Keys + {k};
  }

  lemma {:induction false} MapBound<T>(inputs: seq<Submission<T>>, n: nat)
    requires n <= |inputs|
    ensures |ShareMap(inputs, n).Keys| <= n
  {
    if n > 0 {
      MapBound(inputs, n - 1);
      OneMoreKey(ShareMap(inputs, n - 1), inputs[n-1].pk, inputs[n-1].val);
    }
  }

  lemma {:induction false} ListSize(order: seq<Key>, S: set<Key>)
    requires forall i :: 0 <= i < |order| ==> order[i] in S
    requires Distinct(order)
    ensures |order| <= |S|
  {
    if order != [] {
      var k := order[|order|-1];
      ListSize(order[..|order|-1], S - {k});
    }
  }

  lemma OrderBound<T>(order: seq<Key>, inputs: seq<Submission<T>>)
    requires Lists(order, ShareMap(inputs, |inputs|))
    ensures |order| <= |inputs|
  {
    MapBound(inputs, |inputs|);
    ListSize(order, ShareMap(inputs, |inputs|).Keys);
  }

  // ---------- clients with keys of their own ----------

  /** What clients with these keys send. */
  function Submissions<T>(keys: seq<Key>, vals: seq<T>): (s: seq<Submission<T>>)
    requires |keys| == |vals|
    ensures |s| == |keys|
  {
    seq(|keys|, i requires 0 <= i < |keys| => Submission(keys[i], vals[i]))
  }

  /** A server that received them knows exactly these keys and what was sent under them. */
  ghost predicate Received<T>(m: map<Key, T>, keys: seq<Key>, vals: seq<T>) {
    && |keys| == |vals| && (forall k :: k in m <==> k in keys)
    && forall i :: 0 <= i < |keys| ==> keys[i] in m && m[keys[i]] == vals[i]
  }

  lemma {:induction false} ReceivedFirst<T>(keys: seq<Key>, vals: seq<T>, n: nat)
    requires Distinct(keys) && n <= |keys| == |vals|
    ensures Received(ShareMap(Submissions(keys, vals), n), keys[..n], vals[..n])
  {
    if n > 0 {
      ReceivedFirst(keys, vals, n - 1);
      assert keys[..n] == keys[..n-1] + [keys[n-1]];
      assert keys[n-1] !in keys[..n-1];
    }
  }

  lemma ReceivedAll<T>(keys: seq<Key>, vals: seq<T>)
    requires Distinct(keys) && |keys| == |vals|
    ensures Received(ShareMap(Submissions(keys, vals), |keys|), keys, vals)
  {
    ReceivedFirst(keys, vals, |keys|);
    assert keys[..|keys|] == keys && vals[..|keys|] == vals;
  }

  /** The client with this key. */
  ghost function Owner(keys: seq<Key>, k: Key): (i: nat)
    requires k in keys
    ensures i < |keys| && keys[i] == k
  {
    var i :| 0 <= i < |keys| && keys[i] == k;
    i
  }

  /** What the clients hold, in the order of their keys in `order`. */
  ghost function InOrder<T>(order: seq<Key>, keys: seq<Key>, vals: seq<T>): (s: seq<T>)
    requires |keys| == |vals| && forall i :: 0 <= i < |order| ==> order[i] in keys
    ensures |s| == |order| && forall i :: 0 <= i < |order| ==> s[i] == vals[Owner(keys, order[i])]
  {
    seq(|order|, i requires 0 <= i < |order| => vals[Owner(keys, order[i])])
  }

  /** Any order in which a server lists its keys is an order of the clients. */
  lemma OrderOfClients<T, U>(order: seq<Key>, m: map<Key, T>, keys: seq<Key>, rows: seq<T>, vals: seq<U>)
    requires Lists(order, m) && Received(m, keys, rows) && Distinct(keys) && |vals| == |keys|
    ensures |order| == |keys| && forall i :: 0 <= i < |order| ==> order[i] in keys
    ensures Permuted(InOrder(order, keys, vals), vals)
  {
    SameMembers(order, keys);
    SameLength(order, keys);
    var f := (k: Key) requires k in keys => vals[Owner(keys, k)];
    MappedPermuted(order, keys, f);
    assert Mapped(order, f) == InOrder(order, keys, vals);
    forall i | 0 <= i < |keys| ensures Owner(keys, keys[i]) == i {
    }
    assert Mapped(keys, f) == vals;
  }
}
