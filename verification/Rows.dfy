/** Tables stored row by row in one sequence. */
module Rows {
  /** The first cell of row i, that is i * total. */
  function RowStart(i: nat, total: nat): nat {
    if i == 0 then 0 else RowStart(i - 1, total) + total
  }

  lemma RowZero(n: nat)
    ensures RowStart(0, n) == 0
  {
  }

  /** The row and the column of a cell. */
  lemma {:induction false} RowOfCell(c: nat, n: nat, total: nat) returns (i: nat, j: nat)
    requires c < RowStart(n, total)
    ensures i < n && j < total && c == RowStart(i, total) + j
  {
    if c < RowStart(n - 1, total) {
      i, j := RowOfCell(c, n - 1, total);
    } else {
      i, j := n - 1, c - RowStart(n - 1, total);
    }
  }

  lemma {:induction false} RowsFit(i: nat, n: nat, total: nat)
    requires i < n
    ensures RowStart(i, total) + total == RowStart(i + 1, total) <= RowStart(n, total)
    decreases n
  {
    if i + 1 < n {
      RowsFit(i, n - 1, total);
    }
  }

  /** The n cells from `at` on hold this row. */
  ghost predicate IsRow<T>(row: seq<T>, flat: seq<T>, at: nat, n: nat) {
    at + n <= |flat| && row == flat[at..at+n]
  }

  lemma SliceIsRow<T>(flat: seq<T>, at: nat, n: nat)
    requires at + n <= |flat|
    ensures IsRow(flat[at..at+n], flat, at, n)
  {
  }

  lemma RowAppended<T>(row: seq<T>, flat: seq<T>)
    ensures IsRow(row, flat + row, |flat|, |row|)
  {
  }

  lemma RowKept<T>(row: seq<T>, flat: seq<T>, more: seq<T>, at: nat, n: nat)
    requires IsRow(row, flat, at, n)
    ensures IsRow(row, flat + more, at, n)
  {
    assert (flat + more)[at..at+n] == flat[at..at+n];
  }

  /** The rows, one after the other. */
  ghost predicate AllRows<T>(rows: seq<seq<T>>, flat: seq<T>, n: nat) {
    |flat| == RowStart(|rows|, n) && forall i :: 0 <= i < |rows| ==> IsRow(rows[i], flat, RowStart(i, n), n)
  }

  method Flatten<T>(rows: seq<seq<T>>, numValues: nat) returns (ans: seq<T>)
    requires forall i :: 0 <= i < |rows| ==> |rows[i]| == numValues
    ensures AllRows(rows, ans, numValues)
  {
    hide IsRow, RowStart;
    ans := [];
    RowZero(numValues);
    for i := 0 to |rows|
      invariant |ans| == RowStart(i, numValues)
      invariant forall k :: 0 <= k < i ==> IsRow(rows[k], ans, RowStart(k, numValues), numValues)
    {
      forall k | 0 <= k < i ensures IsRow(rows[k], ans + rows[i], RowStart(k, numValues), numValues) {
        RowKept(rows[k], ans, rows[i], RowStart(k, numValues), numValues);
      }
      RowsFit(i, i + 1, numValues);
      RowAppended(rows[i], ans);
      ans := ans + rows[i];
    }
  }

  /** What `Flatten` returns. */
  lemma {:induction false} JoinRows(rows: seq<seq<int>>, n: nat) returns (v: seq<int>)
    requires forall i :: 0 <= i < |rows| ==> |rows[i]| == n
    ensures AllRows(rows, v, n)
  {
    v := [];
    if rows != [] {
      var m := |rows| - 1;
      var w := JoinRows(rows[..m], n);
      v := w + rows[m];
      forall i | 0 <= i < |rows| ensures IsRow(rows[i], v, RowStart(i, n), n) {
        if i < m {
          assert rows[..m][i] == rows[i];
          RowKept(rows[i], w, rows[m], RowStart(i, n), n);
        }
      }
    }
  }
}
