/** `bit_sum` of server.cpp. */
module BitSum {
  import opened Modular
  import opened KeyMatch
  import opened Words
  import opened Ot
  import opened BoolOt
  import opened BitsumOt

  // ---------- the answer ----------

  /** Clients known to both servers whose two shares differ, that is, whose bit is 1. */
  ghost function OnesOf(m0: map<Key, bool>, m1: map<Key, bool>): set<Key> {
    set k | k in m0 && k in m1 && m0[k] != m1[k]
  }

  ghost function OnesAmong(order: seq<Key>, m0: map<Key, bool>, m1: map<Key, bool>, n: nat): set<Key>
    requires n <= |order|
  {
    set k | k in order[..n] && k in m0 && k in m1 && m0[k] != m1[k]
  }

  /** The shares and flags for the keys in this order. */
  ghost predicate Placed(order: seq<Key>, m0: map<Key, bool>, m1: map<Key, bool>,
                         s: seq<bool>, t: seq<bool>, valid: seq<bool>)
  {
    && |order| == |s| == |t| == |valid| && Lists(order, m1)
    && (forall i :: 0 <= i < |order| ==> t[i] == m1[order[i]])
    && (forall i :: 0 <= i < |order| ==> valid[i] == (order[i] in m0) && (valid[i] ==> s[i] == m0[order[i]]))
  }

  lemma {:induction false} CountIsSize(order: seq<Key>, m0: map<Key, bool>, m1: map<Key, bool>,
                                       s: seq<bool>, t: seq<bool>, valid: seq<bool>, n: nat)
    requires Placed(order, m0, m1, s, t, valid) && n <= |order|
    ensures |s| == |t| == |valid| == |order| && CountOnes(s, t, valid, n) == |OnesAmong(order, m0, m1, n)|
  {
    if n > 0 {
      CountIsSize(order, m0, m1, s, t, valid, n - 1);
      SizeStep(order, m0, m1, s, t, valid, n - 1);
    }
  }

  lemma SizeStep(order: seq<Key>, m0: map<Key, bool>, m1: map<Key, bool>,
                 s: seq<bool>, t: seq<bool>, valid: seq<bool>, n: nat)
    requires Placed(order, m0, m1, s, t, valid) && n < |order|
    ensures |OnesAmong(order, m0, m1, n + 1)|
         == |OnesAmong(order, m0, m1, n)| + if valid[n] && s[n] != t[n] then 1 else 0
  {
    hide OnesAmong, Lists;
    OnesNext(order, m0, m1, n);
  }

  lemma OnesNext(order: seq<Key>, m0: map<Key, bool>, m1: map<Key, bool>, n: nat)
    requires n < |order| && Lists(order, m1)
    ensures var k := order[n];
            && k in m1 && k !in OnesAmong(order, m0, m1, n)
            && OnesAmong(order, m0, m1, n + 1)
            == OnesAmong(order, m0, m1, n) + if k in m0 && m0[k] != m1[k] then {k} else {}
  {
    assert order[..n+1] == order[..n] + [order[n]];
  }

  lemma AllOnes(order: seq<Key>, m0: map<Key, bool>, m1: map<Key, bool>)
    requires Lists(order, m1)
    ensures OnesAmong(order, m0, m1, |order|) == OnesOf(m0, m1)
    ensures Known(order, m0, |order|) == m0.Keys * m1.Keys
  {
    assert order[..|order|] == order;
  }

  /** The transfers for keys in server 1's order. */
  method CountByTransfer(shares0: seq<bool>, shares1: seq<bool>, valid: seq<bool>) returns (ans: int)
    requires |shares0| == |shares1| == |valid| < TWO64
    ensures ans == CountOnes(shares0, shares1, valid, |valid|)
  {
    hide Cong, Word, BitOffered, Transferred, ReceiverSum, Kept, BitMessage, Gotten;
    var a, b0, b1 := BitsumSender(shares0, valid, 0);
    var choice := ChoiceBits(shares1);
    assert choice.Length == |choice[..]|;
    var r := Transfer(b0, b1, choice);
    TransferredSize(b0[..], b1[..], choice[..], r[..]);
    var b := BitsumReceiver(r, 0);
    ans := Word(a + b);
    ghost var n := |valid|;
    TransferGotten(shares0, shares1, valid, b0[..], b1[..], r[..]);
    NativeCounts(shares0, shares1, valid, b0[..], r[..]);
    CountBound(shares0, shares1, valid, n);
    WordCong(a + b);
    CongTrans(ans, a + b, CountOnes(shares0, shares1, valid, n), TWO64);
    ReducedEqual(ans, CountOnes(shares0, shares1, valid, n), TWO64);
  }

  lemma TransferGotten(s: seq<bool>, t: seq<bool>, valid: seq<bool>, b0: seq<int>, b1: seq<int>, r: seq<int>)
    requires |s| == |t| == |valid| && Transferred(b0, b1, AsBits(t), r)
    requires forall i :: 0 <= i < |s| ==> BitOffered(s[i], valid[i], b0[i], b1[i], 0)
    ensures Gotten(s, t, valid, b0, r)
  {
    hide BitMessage;
    forall i | 0 <= i < |r| ensures r[i] == GotBit(s[i], t[i], valid[i], b0[i]) {
      assert BitOffered(s[i], valid[i], b0[i], b1[i], 0);
      assert r[i] == Chosen(AsBits(t)[i], b0[i], b1[i]);
    }
  }

  /** What an array of bits holds before anything is stored. */
  method Unset(n: nat) returns (bits: seq<bool>)
    ensures |bits| == n
  {
    bits := [];
    for i := 0 to n
      invariant |bits| == i
    {
      var bit: bool := *;
      bits := bits + [bit];
    }
  }

  lemma ArePlaced(order: seq<Key>, m0: map<Key, bool>, m1: map<Key, bool>, s: seq<bool>, t: seq<bool>,
                  valid: seq<bool>, unset: seq<bool>)
    requires |order| == |s| == |t| == |valid| == |unset| && Lists(order, m1)
    requires forall i :: 0 <= i < |order| ==> t[i] == m1[order[i]] && valid[i] == (order[i] in m0)
    requires forall i :: 0 <= i < |order| ==> s[i] == if order[i] in m0 then m0[order[i]] else unset[i]
    ensures Placed(order, m0, m1, s, t, valid)
  {
  }

  datatype Result = Invalid | Answer(ans: int)

  /**
   `bit_sum` on both servers: the number of clients known to both whose bit is 1, unless fewer
   than half of the expected submissions are known to both.
   */
  method CountBits(inputs0: seq<Submission<bool>>, inputs1: seq<Submission<bool>>, totalInputs: nat)
    returns (res: Result)
    requires |inputs1| < TWO64
    ensures var m0, m1 := ShareMap(inputs0, |inputs0|), ShareMap(inputs1, |inputs1|);
            res == if 2 * |m0.Keys * m1.Keys| < totalInputs then Invalid else Answer(|OnesOf(m0, m1)|)
  {
    hide OnesOf, OnesAmong, Known, CountOnes, Placed, ShareMap;
    var m0 := ReceiveShares(inputs0);
    var m1 := ReceiveShares(inputs1);
    var order := KeyOrder(m1);
    var shares1 := SharesInOrder(order, m1);
    // the share of an unknown key is never used
    var unset := Unset(|order|);
    var shares0, valid, numValid := LookUp(order, m0, unset);
    OrderBound(order, inputs1);
    var ans := CountByTransfer(shares0, shares1, valid);
    AllOnes(order, m0, m1);
    ArePlaced(order, m0, m1, shares0, shares1, valid, unset);
    CountIsSize(order, m0, m1, shares0, shares1, valid, |order|);
    // the invalid threshold is one half
    if 2 * numValid < totalInputs {
      return Invalid;
    }
    res := Answer(ans);
  }
}
