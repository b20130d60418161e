/** The batch check of `heavy_op`: every row of every client should mark one cell. */
module OneHotCheck {
  import opened Modular
  import opened Shares
  import opened Rows
  import opened BoolOt
  import opened Sketches

  /** A client's cells: `rows` rows of w cells and, if `tail` is not 0, one last row of that size. */
  datatype Layout = Layout(rows: nat, w: nat, tail: nat) {
    function Size(): nat {
      RowStart(rows, w) + tail
    }

    /** Rows that are checked. */
    function Checked(): nat {
      rows + if tail > 0 then 1 else 0
    }
  }

  /** The first cell of row j of a client. */
  function SegStart(lay: Layout, j: nat): nat {
    if j < lay.rows then RowStart(j, lay.w) else RowStart(lay.rows, lay.w)
  }

  function SegLen(lay: Layout, j: nat): nat {
    if j < lay.rows then lay.w else lay.tail
  }

  lemma SegFits(lay: Layout, j: nat)
    ensures SegStart(lay, j) + SegLen(lay, j) <= lay.Size()
  {
    if j < lay.rows {
      RowsFit(j, lay.rows, lay.w);
    }
  }

  ghost function SegSum(x: seq<int>, at: nat, len: nat): int
    requires at + len <= |x|
  {
    if len == 0 then 0 else SegSum(x, at, len - 1) + x[at + len - 1]
  }

  /** Row j of the first n clients. */
  ghost function RowTotal(x: seq<int>, lay: Layout, j: nat, n: nat): int
    requires RowStart(n, lay.Size()) <= |x|
  {
    if n == 0 then 0 else
      SegFits(lay, j);
      RowTotal(x, lay, j, n - 1) + SegSum(x, RowStart(n - 1, lay.Size()) + SegStart(lay, j), SegLen(lay, j))
  }

  /** One server's parity and sum for a row. */
  ghost predicate RowChecked(parity: bool, sum: int, shares: seq<bool>, sharesP: seq<int>, lay: Layout, j: nat,
                             n: nat, p: Modulus)
    requires RowStart(n, lay.Size()) <= |shares| == |sharesP|
  {
    && Cong(AsBit(parity), RowTotal(AsBits(shares), lay, j, n), 2)
    && Cong(sum, RowTotal(sharesP, lay, j, n), p)
  }

  lemma FlipParity(parity: bool, b: bool, v: int)
    requires Cong(AsBit(parity), v, 2)
    ensures Cong(AsBit(parity != b), v + AsBit(b), 2)
  {
  }

  method CheckSegment(shares: seq<bool>, sharesP: seq<int>, at: nat, len: nat, parity0: bool, sum0: int,
                      ghost v: int, ghost u: int, p: Modulus)
    returns (parity: bool, sum: int)
    requires at + len <= |shares| == |sharesP| && Cong(AsBit(parity0), v, 2) && Cong(sum0, u, p)
    ensures Cong(AsBit(parity), v + SegSum(AsBits(shares), at, len), 2) && Cong(sum, u + SegSum(sharesP, at, len), p)
  {
    hide Cong;
    parity, sum := parity0, sum0;
    for k := 0 to len
      invariant Cong(AsBit(parity), v + SegSum(AsBits(shares), at, k), 2)
      invariant Cong(sum, u + SegSum(sharesP, at, k), p)
    {
      FlipParity(parity, shares[at+k], v + SegSum(AsBits(shares), at, k));
      parity := parity != shares[at+k];
      var y := sharesP[at+k];
      CongIntro(y, y, 0, p);
      CongAdd(sum, u + SegSum(sharesP, at, k), y, y, p);
      AddModCong(sum, y, p);
      CongTrans(AddMod(sum, y, p), sum + y, u + SegSum(sharesP, at, k) + y, p);
      sum := AddMod(sum, y, p);
    }
  }

  /** All rows of client i are added. */
  method CheckClient(shares: seq<bool>, sharesP: seq<int>, lay: Layout, i: nat,
                     parity: array<bool>, sums: array<int>, p: Modulus)
    requires RowStart(i + 1, lay.Size()) <= |shares| == |sharesP|
    requires parity.Length == sums.Length == lay.Checked()
    requires forall j :: 0 <= j < parity.Length ==> RowChecked(parity[j], sums[j], shares, sharesP, lay, j, i, p)
    modifies parity, sums
    ensures forall j :: 0 <= j < parity.Length ==> RowChecked(parity[j], sums[j], shares, sharesP, lay, j, i + 1, p)
  {
    hide SegSum, SegStart, SegLen, Cong;
    for j := 0 to parity.Length
      invariant forall k :: 0 <= k < j ==> RowChecked(parity[k], sums[k], shares, sharesP, lay, k, i + 1, p)
      invariant forall k :: j <= k < parity.Length ==> RowChecked(parity[k], sums[k], shares, sharesP, lay, k, i, p)
    {
      SegFits(lay, j);
      var at := RowStart(i, lay.Size()) + SegStart(lay, j);
      var bit, sum := CheckSegment(shares, sharesP, at, SegLen(lay, j), parity[j], sums[j],
                                   RowTotal(AsBits(shares), lay, j, i), RowTotal(sharesP, lay, j, i), p);
      parity[j] := bit;
      sums[j] := sum;
    }
  }

  lemma NothingChecked(shares: seq<bool>, sharesP: seq<int>, lay: Layout, j: nat, p: Modulus)
    requires |shares| == |sharesP|
    ensures RowStart(0, lay.Size()) == 0 && RowChecked(false, 0, shares, sharesP, lay, j, 0, p)
  {
  }

  method RowChecks(shares: seq<bool>, sharesP: seq<int>, lay: Layout, n: nat, p: Modulus)
    returns (parity: array<bool>, sums: array<int>)
    requires RowStart(n, lay.Size()) == |shares| == |sharesP|
    ensures parity.Length == sums.Length == lay.Checked()
    ensures forall j :: 0 <= j < parity.Length ==> RowChecked(parity[j], sums[j], shares, sharesP, lay, j, n, p)
  {
    hide RowStart, RowChecked;
    var rows := lay.Checked();
    parity := new bool[rows](_ => false);
    sums := new int[rows](_ => 0);
    forall j | 0 <= j < rows
      ensures RowStart(0, lay.Size()) == 0 && RowChecked(false, 0, shares, sharesP, lay, j, 0, p)
    {
      NothingChecked(shares, sharesP, lay, j, p);
    }
    assert RowStart(0, lay.Size()) == 0 by { NothingChecked(shares, sharesP, lay, 0, p); }
    for i := 0 to n
      invariant RowStart(i, lay.Size()) <= |shares|
      invariant forall j :: 0 <= j < parity.Length ==> RowChecked(parity[j], sums[j], shares, sharesP, lay, j, i, p)
    {
      RowsFit(i, n, lay.Size());
      CheckClient(shares, sharesP, lay, i, parity, sums, p);
    }
  }

  /** What both servers computed for the rows. */
  datatype RowResults = RowResults(parity: seq<bool>, parityOther: seq<bool>, sums: seq<int>, sumsOther: seq<int>) {
    predicate Sized(k: nat) {
      |parity| == |parityOther| == |sums| == |sumsOther| == k
    }

    /** Row j opens to one mark for each of n clients. */
    predicate RowPasses(j: nat, n: nat, p: Modulus)
      requires Sized(|parity|) && j < |parity|
    {
      (parity[j] != parityOther[j]) == (n % 2 == 1) && AddMod(sums[j], sumsOther[j], p) == n
    }

    predicate LastRowPasses(n: nat, p: Modulus)
      requires Sized(|parity|)
    {
      |parity| > 0 && RowPasses(|parity| - 1, n, p)
    }

    ghost predicate AllRowsPass(n: nat, p: Modulus)
      requires Sized(|parity|)
    {
      forall j :: 0 <= j < |parity| ==> RowPasses(j, n, p)
    }
  }

  /** Two rows for three clients: the first one marks nothing, and the batch is accepted. */
  const EARLIER_ROW_FAILS: RowResults := RowResults([false, true], [false, false], [0, 1], [0, 2])

  lemma EarlierRowIgnored(p: Modulus)
    requires p > 3
    ensures EARLIER_ROW_FAILS.Sized(2)
    ensures EARLIER_ROW_FAILS.LastRowPasses(3, p) && !EARLIER_ROW_FAILS.AllRowsPass(3, p)
  {
    assert !EARLIER_ROW_FAILS.RowPasses(0, 3, p);
  }

  /** Acceptance implies that every row passes. */
  ghost predicate VerdictIsComplete(k: nat, n: nat, p: Modulus) {
    forall r: RowResults :: r.Sized(k) && r.LastRowPasses(n, p) ==> r.AllRowsPass(n, p)
  }

  /** It does exactly when there is at most one row, or when the sums cannot reach n. */
  lemma VerdictMeansAllRows(k: nat, n: nat, p: Modulus)
    ensures VerdictIsComplete(k, n, p) <==> k <= 1 || n >= p
  {
    hide RowResults.RowPasses, RowResults.LastRowPasses, RowResults.AllRowsPass;
    if k > 1 && n < p {
      var r := FirstRowFails(k, n, p);
    } else {
      forall r: RowResults | r.Sized(k) && r.LastRowPasses(n, p) ensures r.AllRowsPass(n, p) {
        OnlyRowPasses(r, k, n, p);
      }
    }
  }

  lemma OnlyRowPasses(r: RowResults, k: nat, n: nat, p: Modulus)
    requires r.Sized(k) && r.LastRowPasses(n, p) && (k <= 1 || n >= p)
    ensures r.AllRowsPass(n, p)
  {
    assert AddMod(r.sums[k-1], r.sumsOther[k-1], p) < p;
  }

  lemma SumOfOne(n: nat, p: Modulus)
    requires n < p
    ensures AddMod(n, 0, p) == n
  {
  }

  lemma FirstRowFails(k: nat, n: nat, p: Modulus) returns (r: RowResults)
    requires k > 1 && n < p
    ensures r.Sized(k) && r.LastRowPasses(n, p) && !r.AllRowsPass(n, p)
  {
    hide AddMod;
    var odd := n % 2 == 1;
    SumOfOne(n, p);
    r := RowResults(seq(k, j => odd && j == k - 1), seq(k, j => !odd && j == 0), seq(k, j => n), seq(k, j => 0));
    assert !r.RowPasses(0, n, p);
  }

  /** What server 0 concludes; each loop keeps the verdict of its last row only. */
  method Verdict(parity: array<bool>, parityOther: array<bool>, sums: array<int>, sumsOther: array<int>,
                 totalInputs: nat, p: Modulus)
    returns (allValid: bool)
    requires parity.Length == parityOther.Length == sums.Length == sumsOther.Length
    ensures allValid
        <==> RowResults(parity[..], parityOther[..], sums[..], sumsOther[..]).LastRowPasses(totalInputs, p)
  {
    allValid := false;
    for j := 0 to parity.Length
      invariant allValid == (j > 0 && (parity[j-1] != parityOther[j-1]) == (totalInputs % 2 == 1))
    {
      allValid := (parity[j] != parityOther[j]) == (totalInputs % 2 == 1);
    }
    if allValid {
      for j := 0 to parity.Length
        invariant allValid == (j == 0 || AddMod(sums[j-1], sumsOther[j-1], p) == totalInputs)
      {
        allValid := AddMod(sums[j], sumsOther[j], p) == totalInputs;
      }
    }
  }

  // ---------- honest clients pass ----------

  lemma {:induction false} SegShares(x0: seq<int>, x1: seq<int>, v: seq<int>, at: nat, len: nat, p: Modulus)
    requires SharesOf(x0, x1, v, p) && at + len <= |v|
    ensures Cong(SegSum(x0, at, len) + SegSum(x1, at, len), SegSum(v, at, len), p)
  {
    hide Cong;
    if len == 0 {
      CongIntro(0, 0, 0, p);
    } else {
      var c := at + len - 1;
      SegShares(x0, x1, v, at, len - 1, p);
      assert Cong(x0[c] + x1[c], v[c], p);
      CongAdd(SegSum(x0, at, len - 1) + SegSum(x1, at, len - 1), SegSum(v, at, len - 1), x0[c] + x1[c], v[c], p);
    }
  }

  lemma {:induction false} RowShares(x0: seq<int>, x1: seq<int>, v: seq<int>, lay: Layout, j: nat, n: nat, p: Modulus)
    requires SharesOf(x0, x1, v, p) && RowStart(n, lay.Size()) <= |v|
    ensures Cong(RowTotal(x0, lay, j, n) + RowTotal(x1, lay, j, n), RowTotal(v, lay, j, n), p)
  {
    hide Cong, SegSum, SegStart, SegLen;
    if n == 0 {
      CongIntro(0, 0, 0, p);
    } else {
      SegFits(lay, j);
      var at, len := RowStart(n - 1, lay.Size()) + SegStart(lay, j), SegLen(lay, j);
      RowShares(x0, x1, v, lay, j, n - 1, p);
      SegShares(x0, x1, v, at, len, p);
      CongAdd(RowTotal(x0, lay, j, n - 1) + RowTotal(x1, lay, j, n - 1), RowTotal(v, lay, j, n - 1),
              SegSum(x0, at, len) + SegSum(x1, at, len), SegSum(v, at, len), p);
    }
  }

  /** Exactly one cell of the segment is 1. */
  lemma {:induction false} OneMark(x: seq<int>, at: nat, len: nat, h: nat)
    requires at + len <= |x| && at <= h
    requires forall c :: at <= c < at + len ==> x[c] == if c == h then 1 else 0
    ensures SegSum(x, at, len) == if h < at + len then 1 else 0
  {
    if len > 0 {
      OneMark(x, at, len - 1, h);
    }
  }

  /** One client's row adds to 1. */
  ghost predicate RowsMarked(v: seq<int>, lay: Layout, i: nat)
    requires RowStart(i + 1, lay.Size()) <= |v|
  {
    forall j :: 0 <= j < lay.Checked() ==> RowSumsToOne(v, lay, i, j)
  }

  ghost predicate RowSumsToOne(v: seq<int>, lay: Layout, i: nat, j: nat)
    requires RowStart(i + 1, lay.Size()) <= |v|
  {
    SegFits(lay, j);
    SegSum(v, RowStart(i, lay.Size()) + SegStart(lay, j), SegLen(lay, j)) == 1
  }

  lemma {:induction false} HonestTotals(v: seq<int>, lay: Layout, j: nat, n: nat, clients: nat)
    requires n <= clients && RowStart(clients, lay.Size()) <= |v| && j < lay.Checked()
    requires forall i :: 0 <= i < clients ==> ClientRowsMarked(v, lay, i)
    ensures RowStart(n, lay.Size()) <= |v| && RowTotal(v, lay, j, n) == n
  {
    hide SegSum, SegStart, SegLen;
    FirstRow(n, clients, lay.Size());
    if n > 0 {
      HonestTotals(v, lay, j, n - 1, clients);
      assert ClientRowsMarked(v, lay, n - 1);
      assert RowSumsToOne(v, lay, n - 1, j);
    }
  }

  ghost predicate ClientRowsMarked(v: seq<int>, lay: Layout, i: nat)
  {
    RowStart(i + 1, lay.Size()) <= |v| && RowsMarked(v, lay, i)
  }

  lemma XorIsSum(a: bool, b: bool)
    ensures Cong(AsBit(a) + AsBit(b), AsBit(a != b), 2)
  {
  }

  lemma ParityOfTotal(a: bool, b: bool, total: int)
    requires Cong(AsBit(a) + AsBit(b), total, 2)
    ensures (a != b) == (total % 2 == 1)
  {
  }

  /** The two servers' results for a row open to the total of the row. */
  lemma RowOpened(parity0: bool, parity1: bool, sum0: int, sum1: int, s0: seq<bool>, s1: seq<bool>,
                  xp0: seq<int>, xp1: seq<int>, v: seq<int>, lay: Layout, j: nat, n: nat, p: Modulus)
    requires RowStart(n, lay.Size()) <= |s0| == |s1| == |xp0| == |xp1| == |v|
    requires RowChecked(parity0, sum0, s0, xp0, lay, j, n, p) && RowChecked(parity1, sum1, s1, xp1, lay, j, n, p)
    requires SharesOf(xp0, xp1, v, p) && forall c :: 0 <= c < |v| ==> v[c] == AsBit(s0[c] != s1[c])
    ensures (parity0 != parity1) == (RowTotal(v, lay, j, n) % 2 == 1)
    ensures AddMod(sum0, sum1, p) == RowTotal(v, lay, j, n) % p
  {
    hide Cong, RowTotal;
    forall c | 0 <= c < |v| ensures Cong(AsBits(s0)[c] + AsBits(s1)[c], v[c], 2) {
      XorIsSum(s0[c], s1[c]);
    }
    var t0, t1 := RowTotal(AsBits(s0), lay, j, n), RowTotal(AsBits(s1), lay, j, n);
    RowShares(AsBits(s0), AsBits(s1), v, lay, j, n, 2);
    CongAdd(AsBit(parity0), t0, AsBit(parity1), t1, 2);
    var total := RowTotal(v, lay, j, n);
    CongTrans(AsBit(parity0) + AsBit(parity1), t0 + t1, total, 2);
    ParityOfTotal(parity0, parity1, total);
    var u0, u1 := RowTotal(xp0, lay, j, n), RowTotal(xp1, lay, j, n);
    RowShares(xp0, xp1, v, lay, j, n, p);
    CongAdd(sum0, u0, sum1, u1, p);
    CongTrans(sum0 + sum1, u0 + u1, total, p);
    AddModCong(sum0, sum1, p);
    CongTrans(AddMod(sum0, sum1, p), sum0 + sum1, total, p);
    CongMod(total, p);
    CongSymmetric(total % p, total, p);
    CongTrans(AddMod(sum0, sum1, p), total, total % p, p);
    ReducedEqual(AddMod(sum0, sum1, p), total % p, p);
  }
}
