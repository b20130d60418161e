/** What `heavy_op` and `countMin_op` share: matching, conversion, the batch check and the totals. */
module SketchBatch {
  import opened Modular
  import opened Rows
  import opened Shares
  import opened KeyMatch
  import opened Permutations
  import opened BoolOt
  import opened Correlated
  import opened Aggregation
  import opened OneHotCheck

  /** A client's key and its cells for one server. */
  type Row = Submission<seq<bool>>

  /** The bits the shares open to. */
  ghost function Opened(s0: seq<bool>, s1: seq<bool>): (v: seq<int>)
    requires |s0| == |s1|
    ensures |v| == |s0|
  {
    seq(|s0|, c requires 0 <= c < |s0| => AsBit(s0[c] != s1[c]))
  }

  lemma OpenedAt(s0: seq<bool>, s1: seq<bool>, c: nat)
    requires c < |s0| == |s1|
    ensures Opened(s0, s1)[c] == AsBit(s0[c] != s1[c])
  {
  }

  // ---------- matching ----------

  function Cleared(size: nat): (row: seq<bool>)
    ensures |row| == size && forall c :: 0 <= c < size ==> !row[c]
  {
    seq(size, _ => false)
  }

  ghost predicate AllSized(inputs: seq<Row>, size: nat) {
    forall i :: 0 <= i < |inputs| ==> |inputs[i].val| == size
  }

  lemma {:induction false} MapSized(inputs: seq<Row>, n: nat, size: nat)
    requires AllSized(inputs, size) && n <= |inputs|
    ensures forall k :: k in ShareMap(inputs, n) ==> |ShareMap(inputs, n)[k]| == size
  {
    if n > 0 {
      MapSized(inputs, n - 1, size);
    }
  }

  /** The n cells from `at` on are 0. */
  ghost predicate AllZero(s: seq<bool>, at: nat, n: nat) {
    at + n <= |s| && forall c :: at <= c < at + n ==> !s[c]
  }

  lemma ClearedIsZero(s: seq<bool>, at: nat, n: nat)
    requires IsRow(Cleared(n), s, at, n)
    ensures AllZero(s, at, n)
  {
    forall c | at <= c < at + n ensures !s[c] {
      assert s[c] == s[at..at+n][c-at];
    }
  }

  /** Place i holds the two shares sent under server 1's i-th key, zeros where server 0 does not know it. */
  ghost predicate PlacedAt(order: seq<Key>, m0: map<Key, seq<bool>>, m1: map<Key, seq<bool>>, s0: seq<bool>,
                           s1: seq<bool>, size: nat, i: nat)
  {
    && i < |order| && order[i] in m1 && IsRow(m1[order[i]], s1, RowStart(i, size), size)
    && (order[i] in m0 ==> IsRow(m0[order[i]], s0, RowStart(i, size), size))
    && (order[i] !in m0 ==> AllZero(s0, RowStart(i, size), size))
  }

  ghost predicate Matched(order: seq<Key>, m0: map<Key, seq<bool>>, m1: map<Key, seq<bool>>, s0: seq<bool>,
                          s1: seq<bool>, size: nat)
  {
    && Lists(order, m1) && |s0| == |s1| == RowStart(|order|, size)
    && forall i :: 0 <= i < |order| ==> PlacedAt(order, m0, m1, s0, s1, size, i)
  }

  method MatchRows(inputs0: seq<Row>, inputs1: seq<Row>, size: nat)
    returns (order: seq<Key>, s0: seq<bool>, s1: seq<bool>)
    requires AllSized(inputs0, size) && AllSized(inputs1, size)
    ensures Matched(order, ShareMap(inputs0, |inputs0|), ShareMap(inputs1, |inputs1|), s0, s1, size)
    ensures |order| <= |inputs1|
  {
    hide ShareMap, RowStart, IsRow, Known, AllZero;
    var m0 := ReceiveShares(inputs0);
    var m1 := ReceiveShares(inputs1);
    MapSized(inputs0, |inputs0|, size);
    MapSized(inputs1, |inputs1|, size);
    order := KeyOrder(m1);
    OrderBound(order, inputs1);
    var rows1 := SharesInOrder(order, m1);
    var rows0, _, _ := LookUp(order, m0, seq(|order|, _ => Cleared(size)));
    s0 := Flatten(rows0, size);
    s1 := Flatten(rows1, size);
    forall i | 0 <= i < |order| && order[i] !in m0 ensures AllZero(s0, RowStart(i, size), size) {
      ClearedIsZero(s0, RowStart(i, size), size);
    }
  }

  // ---------- the batch check ----------

  /** The last checked row has as many marks as there are submissions, by parity and modulo p. */
  ghost predicate BatchPasses(v: seq<int>, lay: Layout, n: nat, total: nat, p: Modulus)
    requires RowStart(n, lay.Size()) <= |v|
  {
    && lay.Checked() > 0
    && var marks := RowTotal(v, lay, lay.Checked() - 1, n);
       (marks % 2 == 1) == (total % 2 == 1) && marks % p == total
  }

  method CheckBatch(s0: seq<bool>, s1: seq<bool>, xp0: seq<int>, xp1: seq<int>, n: nat, total: nat, lay: Layout,
                    p: Modulus)
    returns (accepted: bool)
    requires |s0| == |s1| == |xp0| == |xp1| == RowStart(n, lay.Size())
    ensures SharesOf(xp0, xp1, Opened(s0, s1), p) ==> (accepted <==> BatchPasses(Opened(s0, s1), lay, n, total, p))
  {
    hide RowStart, Cong, RowChecked, RowTotal, Opened;
    var parity, sums := RowChecks(s0, xp0, lay, n, p);
    var parityOther, sumsOther := RowChecks(s1, xp1, lay, n, p);
    accepted := Verdict(parity, parityOther, sums, sumsOther, total, p);
    ghost var v := Opened(s0, s1);
    if lay.Checked() > 0 && SharesOf(xp0, xp1, v, p) {
      var j := parity.Length - 1;
      forall c | 0 <= c < |v| ensures v[c] == AsBit(s0[c] != s1[c]) {
        OpenedAt(s0, s1, c);
      }
      RowOpened(parity[j], parityOther[j], sums[j], sumsOther[j], s0, s1, xp0, xp1, v, lay, j, n, p);
    }
  }

  /** Every client's rows open to numbers that add to 1. */
  ghost predicate AllRowsMarked(v: seq<int>, lay: Layout, n: nat) {
    forall i :: 0 <= i < n ==> ClientRowsMarked(v, lay, i)
  }

  /** Then the check passes, if all submissions are there. */
  lemma MarkedPasses(v: seq<int>, lay: Layout, n: nat, p: Modulus)
    requires RowStart(n, lay.Size()) <= |v| && AllRowsMarked(v, lay, n) && n < p && lay.Checked() > 0
    ensures BatchPasses(v, lay, n, n, p)
  {
    hide RowStart, RowTotal, ClientRowsMarked;
    HonestTotals(v, lay, lay.Checked() - 1, n, n);
  }

  // ---------- the servers ----------

  /** What the servers arrive at before the search. */
  datatype Batch = Batch(order: seq<Key>, s0: seq<bool>, s1: seq<bool>, accepted: bool, counts: seq<nat>)
  {
    /** Clients that are counted: all or none. */
    function NumValid(): nat {
      if accepted then |order| else 0
    }

    function Valid(): (valid: seq<bool>)
      ensures |valid| == |order| && forall i :: 0 <= i < |valid| ==> (valid[i] <==> accepted)
    {
      seq(|order|, _ => accepted)
    }
  }

  /** The batch is what these submissions make it. */
  ghost predicate Served(b: Batch, inputs0: seq<Row>, inputs1: seq<Row>, lay: Layout) {
    && Matched(b.order, ShareMap(inputs0, |inputs0|), ShareMap(inputs1, |inputs1|), b.s0, b.s1, lay.Size())
    && |b.order| <= |inputs1| && |b.counts| == lay.Size()
  }

  /** The verdict is that on the opened bits, and the totals are the sums of those of accepted clients. */
  ghost predicate OpenedRight(b: Batch, total: nat, lay: Layout, p: Modulus)
    requires |b.s0| == |b.s1| == RowStart(|b.order|, lay.Size()) && |b.counts| == lay.Size()
  {
    var v, n := Opened(b.s0, b.s1), |b.order|;
    (b.accepted <==> BatchPasses(v, lay, n, total, p)) && Totals(b.counts, v, b.Valid(), n, p)
  }

  lemma SharedBitsCong(xp0: seq<int>, xp1: seq<int>, s0: seq<bool>, s1: seq<bool>, p: Modulus)
    requires |xp0| == |xp1| == |s0| == |s1|
    requires forall c :: 0 <= c < |s0| ==> BitShared(xp0[c], xp1[c], s0[c] != s1[c], p)
    ensures SharesOf(xp0, xp1, Opened(s0, s1), p)
  {
    hide Cong;
  }

  /** From the submissions to the totals, on both servers and for any submissions. */
  method Serve(store: CorrelatedStores, inputs0: seq<Row>, inputs1: seq<Row>, lay: Layout) returns (b: Batch)
    requires store.Valid() && |inputs0| == |inputs1|
    requires AllSized(inputs0, lay.Size()) && AllSized(inputs1, lay.Size())
    modifies store
    ensures store.Valid() && Served(b, inputs0, inputs1, lay)
    ensures store.Sound() ==> OpenedRight(b, |inputs0|, lay, store.p)
    // daBits for all submissions are made ahead, so the conversion is not interrupted
    ensures store.usedBits == old(store.usedBits) + RowStart(|b.order|, lay.Size())
    ensures store.bitRounds == old(store.bitRounds)
                               + if RowStart(|inputs0|, lay.Size()) <= old(|store.dabits0|) then 0 else 1
    ensures |store.dabits0| >= RowStart(|inputs0|, lay.Size()) - RowStart(|b.order|, lay.Size())
  {
    hide RowStart, PlacedAt, Opened, BatchPasses, Totals, SharesOf, Lists, ShareMap, BitShared, Layout.Size;
    var size := lay.Size();
    var order, s0, s1 := MatchRows(inputs0, inputs1, size);
    if |order| < |inputs0| {
      RowsFit(|order|, |inputs0|, size);
    }
    store.CheckDaBits(RowStart(|inputs0|, size));
    var xp0, xp1 := store.B2aDaBitSingle(s0, s1);
    if store.Sound() {
      SharedBitsCong(xp0, xp1, s0, s1, store.p);
    }
    var accepted := CheckBatch(s0, s1, xp0, xp1, |order|, |inputs0|, lay, store.p);
    var valid := seq(|order|, _ => accepted);
    var a := Aggregate(|order|, size, xp0, xp1, valid, store.p, Opened(s0, s1));
    b := Batch(order, s0, s1, accepted, a[..]);
  }

  // ---------- clients with keys of their own ----------

  /** Both shares of the client whose key comes i-th start at row i. */
  lemma ClientPlaced(b: Batch, keys: seq<Key>, rows0: seq<seq<bool>>, rows1: seq<seq<bool>>, lay: Layout, i: nat)
    requires Distinct(keys) && |keys| == |rows0| == |rows1| && i < |b.order|
    requires Served(b, Submissions(keys, rows0), Submissions(keys, rows1), lay)
    ensures b.order[i] in keys
    ensures var c, at := Owner(keys, b.order[i]), RowStart(i, lay.Size());
            IsRow(rows0[c], b.s0, at, lay.Size()) && IsRow(rows1[c], b.s1, at, lay.Size())
  {
    hide ShareMap, RowStart, IsRow, Layout.Size;
    var m0, m1 := ShareMap(Submissions(keys, rows0), |keys|), ShareMap(Submissions(keys, rows1), |keys|);
    ReceivedAll(keys, rows0);
    ReceivedAll(keys, rows1);
    assert PlacedAt(b.order, m0, m1, b.s0, b.s1, lay.Size(), i);
    assert b.order[i] in m1;
    var c := Owner(keys, b.order[i]);
    assert m0[keys[c]] == rows0[c] && m1[keys[c]] == rows1[c];
  }

  /** All clients are there, in some order. */
  lemma ClientsPermuted<U>(b: Batch, keys: seq<Key>, rows0: seq<seq<bool>>, rows1: seq<seq<bool>>, vals: seq<U>,
                           lay: Layout)
    requires Distinct(keys) && |keys| == |rows0| == |rows1| == |vals|
    requires Served(b, Submissions(keys, rows0), Submissions(keys, rows1), lay)
    ensures |b.order| == |keys| && forall i :: 0 <= i < |b.order| ==> b.order[i] in keys
    ensures Permuted(InOrder(b.order, keys, vals), vals)
  {
    hide ShareMap, PlacedAt;
    ReceivedAll(keys, rows1);
    OrderOfClients(b.order, ShareMap(Submissions(keys, rows1), |keys|), keys, rows1, vals);
  }
}
