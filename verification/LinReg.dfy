/** Linear regression: the aggregated moments and the matrices handed to the solver. */
module LinReg {
  import opened Modular
  import opened Shares
  import opened Words
  import opened Rows
  import opened Aggregation
  import VC = ValidCircuits

  function NumQuad(degree: nat): nat
    requires degree >= 1
  {
    VC.PairsBefore(degree - 1, degree - 1)
  }

  // ---------- the client ----------

  /** The inputs of one client: features, target, products of features, products with the target. */
  ghost predicate IsEncoding(inp: seq<int>, x: seq<nat>, y: nat, degree: nat)
    requires degree >= 1
  {
    && |x| == degree - 1 && |inp| == VC.NumFields(degree)
    && (forall i :: 0 <= i < degree - 1 ==> inp[i] == x[i]) && inp[degree-1] == y
    && (forall i, j :: 0 <= i <= j < degree - 1 ==> HoldsProduct(inp, VC.QuadField(degree, i, j), x[i], x[j]))
    && (forall i :: 0 <= i < degree - 1 ==> HoldsProduct(inp, VC.CrossField(degree, i), x[i], y))
  }

  ghost predicate HoldsProduct(inp: seq<int>, k: nat, a: nat, b: nat) {
    k < |inp| && inp[k] == a * b
  }

  lemma SmallProduct(a: nat, b: nat)
    requires a < 0x8000_0000 && b < 0x8000_0000
    ensures Word(a * b) == a * b
  {
    StrictProduct(a, b, 0x8000_0000);
  }

  lemma StrictProduct(a: nat, b: nat, m: nat)
    requires a < m && b < m
    ensures 0 <= a * b < m * m
  {
    Distribute(a, b, m - b);
    Distribute(m, a, m - a);
  }

  method ProductRow(x: seq<nat>, i: nat, degree: nat, quad: seq<int>) returns (more: seq<int>)
    requires i < degree - 1 == |x| && |quad| == VC.PairsBefore(degree - 1, i)
    requires forall k :: 0 <= k < |x| ==> x[k] < 0x8000_0000
    ensures |more| == VC.PairsBefore(degree - 1, i + 1) && quad <= more
    ensures forall j :: i <= j < degree - 1 ==> HoldsProduct(more, VC.QuadField(degree, i, j) - degree, x[i], x[j])
  {
    more := quad;
    for j := i to degree - 1
      invariant |more| == |quad| + (j - i) && quad <= more
      invariant forall k :: i <= k < j ==> HoldsProduct(more, VC.QuadField(degree, i, k) - degree, x[i], x[k])
    {
      SmallProduct(x[i], x[j]);
      more := more + [Word(x[i] * x[j])];
    }
  }

  /** The field values of `lin_reg_helper`; values of at most 31 bits keep products inside a word. */
  method EncodeLinReg(x: seq<nat>, y: nat, degree: nat) returns (inp: seq<int>)
    requires degree >= 1 && |x| == degree - 1
    requires y < 0x8000_0000 && forall k :: 0 <= k < |x| ==> x[k] < 0x8000_0000
    ensures IsEncoding(inp, x, y, degree)
  {
    var quad: seq<int> := [];
    var cross: seq<int> := [];
    for j := 0 to degree - 1
      invariant |quad| == VC.PairsBefore(degree - 1, j) && |cross| == j
      invariant forall i, k :: 0 <= i < j && i <= k < degree - 1 ==>
                  HoldsProduct(quad, VC.QuadField(degree, i, k) - degree, x[i], x[k])
      invariant forall i :: 0 <= i < j ==> cross[i] == x[i] * y
    {
      ghost var was := quad;
      quad := ProductRow(x, j, degree, quad);
      forall i, k | 0 <= i < j && i <= k < degree - 1
        ensures HoldsProduct(quad, VC.QuadField(degree, i, k) - degree, x[i], x[k])
      {
        assert HoldsProduct(was, VC.QuadField(degree, i, k) - degree, x[i], x[k]);
      }
      SmallProduct(x[j], y);
      cross := cross + [Word(x[j] * y)];
    }
    inp := x + [y] + quad + cross;
    Assembled(x, y, degree, quad, cross, inp);
  }

  lemma Assembled(x: seq<nat>, y: nat, degree: nat, quad: seq<int>, cross: seq<int>, inp: seq<int>)
    requires degree >= 1 && |x| == degree - 1 && |quad| == NumQuad(degree) && |cross| == degree - 1
    requires inp == x + [y] + quad + cross
    requires forall i, k :: 0 <= i <= k < degree - 1 ==>
               HoldsProduct(quad, VC.QuadField(degree, i, k) - degree, x[i], x[k])
    requires forall i :: 0 <= i < degree - 1 ==> cross[i] == x[i] * y
    ensures IsEncoding(inp, x, y, degree)
  {
    forall i, k | 0 <= i <= k < degree - 1 ensures HoldsProduct(inp, VC.QuadField(degree, i, k), x[i], x[k]) {
      assert HoldsProduct(quad, VC.QuadField(degree, i, k) - degree, x[i], x[k]);
      assert inp[VC.QuadField(degree, i, k)] == quad[VC.QuadField(degree, i, k) - degree];
    }
    forall i | 0 <= i < degree - 1 ensures HoldsProduct(inp, VC.CrossField(degree, i), x[i], y) {
      assert inp[VC.CrossField(degree, i)] == cross[i];
    }
  }

  lemma QuadCorrect(inp: seq<int>, x: seq<nat>, y: nat, degree: nat, i: nat, j: nat, p: Modulus)
    requires degree >= 1 && IsEncoding(inp, x, y, degree) && i <= j < degree - 1
    ensures VC.QuadField(degree, i, j) < |inp| && Cong(inp[i] * inp[j], inp[VC.QuadField(degree, i, j)], p)
  {
    assert HoldsProduct(inp, VC.QuadField(degree, i, j), x[i], x[j]);
  }

  lemma CrossCorrect(inp: seq<int>, x: seq<nat>, y: nat, degree: nat, i: nat, p: Modulus)
    requires degree >= 1 && IsEncoding(inp, x, y, degree) && i < degree - 1
    ensures Cong(inp[degree-1] * inp[i], inp[VC.CrossField(degree, i)], p)
  {
    hide Cong;
    assert HoldsProduct(inp, VC.CrossField(degree, i), x[i], y);
    CongIntro(inp[degree-1] * inp[i], inp[i] * inp[degree-1], 0, p);
  }

  /** An honest client's inputs are accepted by the regression circuit. */
  lemma EncodingAccepted(inp: seq<int>, x: seq<nat>, y: nat, degree: nat, p: Modulus)
    requires degree >= 1 && IsEncoding(inp, x, y, degree)
    ensures VC.ProductsCorrect(degree, inp, p)
  {
    hide Cong, VC.QuadField;
    forall i, j | 0 <= i <= j < degree - 1
      ensures VC.QuadField(degree, i, j) < |inp| && Cong(inp[i] * inp[j], inp[VC.QuadField(degree, i, j)], p)
    {
      QuadCorrect(inp, x, y, degree, i, j, p);
    }
    forall i | 0 <= i < degree - 1 ensures Cong(inp[degree-1] * inp[i], inp[VC.CrossField(degree, i)], p) {
      CrossCorrect(inp, x, y, degree, i, p);
    }
  }

  // ---------- the matrices ----------

  /** Where the accumulated vector holds entry (i, j) of the symmetric matrix. */
  function Entry(degree: nat, i: nat, j: nat): nat
    requires i < degree && j < degree
  {
    if i == 0 then j else if j == 0 then i
    else if i <= j then VC.QuadField(degree, i - 1, j - 1) else VC.QuadField(degree, j - 1, i - 1)
  }

  lemma EntryInRange(degree: nat, i: nat, j: nat)
    requires i < degree && j < degree
    ensures Entry(degree, i, j) < degree + NumQuad(degree)
  {
    if i > 0 && j > 0 {
      VC.FieldsInRange(degree, if i <= j then i - 1 else j - 1, if i <= j then j - 1 else i - 1);
    }
  }

  method FillRow(X: array2<int>, x: seq<int>, degree: nat, i: nat, start: nat) returns (idx: nat)
    requires X.Length0 == X.Length1 == degree && 1 <= i < degree && |x| == degree + NumQuad(degree)
    requires start == degree + VC.PairsBefore(degree - 1, i - 1)
    modifies X
    ensures idx == degree + VC.PairsBefore(degree - 1, i)
    ensures forall r, c :: 0 <= r < degree && 0 <= c < degree ==>
              X[r, c] == if (r == i && c >= i) || (c == i && r >= i) then x[EntryAt(degree, r, c)] else old(X[r, c])
  {
    idx := start;
    for j := i to degree
      invariant idx == start + (j - i)
      invariant forall r, c :: 0 <= r < degree && 0 <= c < degree ==>
                  X[r, c] == if (r == i && i <= c < j) || (c == i && i <= r < j) then x[EntryAt(degree, r, c)]
                             else old(X[r, c])
    {
      EntryInRange(degree, i, j);
      X[i, j] := x[idx];
      if j != i {
        X[j, i] := x[idx];
      }
      idx := idx + 1;
    }
  }

  /** `Entry`, with its range. */
  function EntryAt(degree: nat, i: nat, j: nat): (k: nat)
    requires i < degree && j < degree
    ensures k < degree + NumQuad(degree)
  {
    EntryInRange(degree, i, j);
    Entry(degree, i, j)
  }

  /** The matrix-building part of `SolveLinReg`. */
  method BuildMatrices(degree: nat, x: seq<int>, y: seq<int>) returns (X: array2<int>, Y: array<int>)
    requires degree >= 1 && |x| == degree + NumQuad(degree) && |y| == degree
    ensures fresh(X) && fresh(Y)
    ensures X.Length0 == X.Length1 == Y.Length == degree
    ensures forall i, j :: 0 <= i < degree && 0 <= j < degree ==> X[i, j] == x[EntryAt(degree, i, j)]
    ensures Y[..] == y
  {
    X := new int[degree, degree];
    Y := new int[degree];
    for i := 0 to degree
      invariant forall r :: 0 <= r < i ==> X[r, 0] == x[r] && X[0, r] == x[r] && Y[r] == y[r]
    {
      X[i, 0] := x[i];
      if i > 0 {
        X[0, i] := x[i];
      }
      Y[i] := y[i];
    }
    var idx := degree;
    for i := 1 to degree
      invariant Y[..] == y
      invariant idx == degree + VC.PairsBefore(degree - 1, i - 1)
      invariant forall r, c :: 0 <= r < degree && 0 <= c < degree && (r < i || c < i) ==>
                  X[r, c] == x[EntryAt(degree, r, c)]
    {
      idx := FillRow(X, x, degree, i, idx);
    }
  }

  // ---------- the moments ----------

  /** Component i of (1, x_0, x_1, ...) for client c. */
  ghost function Feature(v: seq<int>, degree: nat, c: nat, i: nat): int
    requires 1 <= degree && i < degree && RowStart(c + 1, VC.NumFields(degree)) <= |v|
  {
    if i == 0 then 1 else v[RowStart(c, VC.NumFields(degree)) + i - 1]
  }

  ghost function Target(v: seq<int>, degree: nat, c: nat): int
    requires 1 <= degree && RowStart(c + 1, VC.NumFields(degree)) <= |v|
  {
    v[RowStart(c, VC.NumFields(degree)) + degree - 1]
  }

  /** The sum of v_i v_j over the accepted clients. */
  ghost function Moment(v: seq<int>, valid: seq<bool>, degree: nat, i: nat, j: nat, n: nat): int
    requires 1 <= degree && i < degree && j < degree && n <= |valid| && RowStart(n, VC.NumFields(degree)) <= |v|
  {
    if n == 0 then 0 else
      Moment(v, valid, degree, i, j, n - 1)
      + if valid[n-1] then Feature(v, degree, n - 1, i) * Feature(v, degree, n - 1, j) else 0
  }

  /** The sum of v_i y over the accepted clients. */
  ghost function TargetMoment(v: seq<int>, valid: seq<bool>, degree: nat, i: nat, n: nat): int
    requires 1 <= degree && i < degree && n <= |valid| && RowStart(n, VC.NumFields(degree)) <= |v|
  {
    if n == 0 then 0 else
      TargetMoment(v, valid, degree, i, n - 1)
      + if valid[n-1] then Feature(v, degree, n - 1, i) * Target(v, degree, n - 1) else 0
  }

  /** Every accepted client's fields satisfy the regression circuit. */
  ghost predicate AcceptedCorrect(v: seq<int>, valid: seq<bool>, degree: nat, p: Modulus)
    requires degree >= 1
  {
    && |v| == RowStart(|valid|, VC.NumFields(degree))
    && forall c :: 0 <= c < |valid| && valid[c] ==> ClientCorrect(v, degree, c, p)
  }

  ghost predicate ClientCorrect(v: seq<int>, degree: nat, c: nat, p: Modulus)
    requires degree >= 1
  {
    var at := RowStart(c, VC.NumFields(degree));
    at + VC.NumFields(degree) <= |v| && VC.ProductsCorrect(degree, v[at..at+VC.NumFields(degree)], p)
  }

  /** The field that should hold v_i v_j. */
  function MomentField(degree: nat, i: nat, j: nat): nat
    requires i < degree && j < degree && i + j > 0
  {
    var e := Entry(degree, i, j);
    if i == 0 || j == 0 then e - 1 else e
  }

  /** Component i of (1, x_0, x_1, ...) in one client's fields. */
  ghost function FieldFeature(f: seq<int>, degree: nat, i: nat): int
    requires i < degree && |f| == VC.NumFields(degree)
  {
    if i == 0 then 1 else f[i-1]
  }

  lemma CorrectProduct(f: seq<int>, degree: nat, i: nat, j: nat, p: Modulus)
    requires 1 <= i <= j < degree && |f| == VC.NumFields(degree) && VC.ProductsCorrect(degree, f, p)
    ensures VC.QuadField(degree, i - 1, j - 1) < |f|
    ensures Cong(f[VC.QuadField(degree, i - 1, j - 1)], f[i-1] * f[j-1], p)
  {
    hide Cong;
    assert Cong(f[i-1] * f[j-1], f[VC.QuadField(degree, i - 1, j - 1)], p);
    CongSymmetric(f[i-1] * f[j-1], f[VC.QuadField(degree, i - 1, j - 1)], p);
  }

  lemma CorrectField(f: seq<int>, degree: nat, i: nat, j: nat, p: Modulus)
    requires i < degree && j < degree && i + j > 0 && |f| == VC.NumFields(degree) && VC.ProductsCorrect(degree, f, p)
    ensures MomentField(degree, i, j) < |f|
    ensures Cong(f[MomentField(degree, i, j)], FieldFeature(f, degree, i) * FieldFeature(f, degree, j), p)
  {
    hide Cong, VC.ProductsCorrect, VC.QuadField;
    if i == 0 {
      CongIntro(f[j-1], 1 * f[j-1], 0, p);
    } else if j == 0 {
      CongIntro(f[i-1], f[i-1] * 1, 0, p);
    } else if i <= j {
      CorrectProduct(f, degree, i, j, p);
    } else {
      CorrectProduct(f, degree, j, i, p);
      Commute(f[i-1], f[j-1]);
    }
  }

  lemma CorrectTarget(f: seq<int>, degree: nat, i: nat, p: Modulus)
    requires i < degree && |f| == VC.NumFields(degree) && VC.ProductsCorrect(degree, f, p)
    ensures TargetField(degree, i) < |f|
    ensures Cong(f[TargetField(degree, i)], FieldFeature(f, degree, i) * f[degree-1], p)
  {
    hide Cong;
    if i == 0 {
      CongIntro(f[degree-1], 1 * f[degree-1], 0, p);
    } else {
      assert Cong(f[degree-1] * f[i-1], f[VC.CrossField(degree, i - 1)], p);
      CongSymmetric(f[degree-1] * f[i-1], f[VC.CrossField(degree, i - 1)], p);
      Commute(f[degree-1], f[i-1]);
    }
  }

  lemma FieldHoldsProduct(v: seq<int>, degree: nat, c: nat, i: nat, j: nat, p: Modulus)
    requires degree >= 1 && i < degree && j < degree && i + j > 0 && ClientCorrect(v, degree, c, p)
    requires RowStart(c + 1, VC.NumFields(degree)) <= |v|
    ensures MomentField(degree, i, j) < VC.NumFields(degree)
    ensures Cong(v[RowStart(c, VC.NumFields(degree)) + MomentField(degree, i, j)],
                 Feature(v, degree, c, i) * Feature(v, degree, c, j), p)
  {
    hide Cong, RowStart, VC.ProductsCorrect, VC.NumFields, MomentField;
    var at := RowStart(c, VC.NumFields(degree));
    var f := v[at..at+VC.NumFields(degree)];
    CorrectField(f, degree, i, j, p);
    FeaturesAgree(v, degree, c, i);
    FeaturesAgree(v, degree, c, j);
  }

  lemma FeaturesAgree(v: seq<int>, degree: nat, c: nat, i: nat)
    requires degree >= 1 && i < degree && RowStart(c + 1, VC.NumFields(degree)) <= |v|
    ensures RowStart(c, VC.NumFields(degree)) + VC.NumFields(degree) <= |v|
    ensures var at := RowStart(c, VC.NumFields(degree)); var f := v[at..at+VC.NumFields(degree)];
            Feature(v, degree, c, i) == FieldFeature(f, degree, i) && Target(v, degree, c) == f[degree-1]
  {
  }

  /** The field that should hold v_i y. */
  function TargetField(degree: nat, i: nat): nat
    requires i < degree
  {
    if i == 0 then degree - 1 else VC.CrossField(degree, i - 1)
  }

  lemma FieldHoldsTarget(v: seq<int>, degree: nat, c: nat, i: nat, p: Modulus)
    requires degree >= 1 && i < degree && ClientCorrect(v, degree, c, p)
    requires RowStart(c + 1, VC.NumFields(degree)) <= |v|
    ensures TargetField(degree, i) < VC.NumFields(degree)
    ensures Cong(v[RowStart(c, VC.NumFields(degree)) + TargetField(degree, i)],
                 Feature(v, degree, c, i) * Target(v, degree, c), p)
  {
    hide Cong, RowStart, VC.ProductsCorrect, VC.NumFields, TargetField;
    var at := RowStart(c, VC.NumFields(degree));
    var f := v[at..at+VC.NumFields(degree)];
    CorrectTarget(f, degree, i, p);
    FeaturesAgree(v, degree, c, i);
  }

  /** A column of the accepted fields is the moment, modulo p. */
  lemma {:induction false} ColumnIsMoment(v: seq<int>, valid: seq<bool>, degree: nat, i: nat, j: nat, n: nat,
                                          p: Modulus)
    requires degree >= 1 && i < degree && j < degree && i + j > 0 && n <= |valid|
    requires AcceptedCorrect(v, valid, degree, p)
    ensures MomentField(degree, i, j) < VC.NumFields(degree) && RowStart(n, VC.NumFields(degree)) <= |v|
    ensures Cong(ColumnSum(v, valid, VC.NumFields(degree), MomentField(degree, i, j), n),
                 Moment(v, valid, degree, i, j, n), p)
  {
    hide Cong, RowStart, ClientCorrect, Feature, VC.NumFields, MomentField;
    ColumnFits(v, valid, degree, n, p);
    MomentFieldInRange(degree, i, j);
    if n == 0 {
      CongIntro(0, 0, 0, p);
    } else {
      var f := MomentField(degree, i, j);
      ColumnIsMoment(v, valid, degree, i, j, n - 1, p);
      ColumnFits(v, valid, degree, n - 1, p);
      RowsFit(n - 1, n, VC.NumFields(degree));
      if valid[n-1] {
        FieldHoldsProduct(v, degree, n - 1, i, j, p);
        CongAdd(ColumnSum(v, valid, VC.NumFields(degree), f, n - 1), Moment(v, valid, degree, i, j, n - 1),
                v[RowStart(n - 1, VC.NumFields(degree)) + f],
                Feature(v, degree, n - 1, i) * Feature(v, degree, n - 1, j), p);
      }
    }
  }

  lemma MomentFieldInRange(degree: nat, i: nat, j: nat)
    requires i < degree && j < degree && i + j > 0
    ensures MomentField(degree, i, j) < VC.NumFields(degree)
  {
    EntryInRange(degree, i, j);
  }

  lemma ColumnFits(v: seq<int>, valid: seq<bool>, degree: nat, n: nat, p: Modulus)
    requires degree >= 1 && n <= |valid| && AcceptedCorrect(v, valid, degree, p)
    ensures RowStart(n, VC.NumFields(degree)) <= |v|
  {
    if n < |valid| {
      RowsFit(n, |valid|, VC.NumFields(degree));
    }
  }

  lemma {:induction false} ColumnIsTarget(v: seq<int>, valid: seq<bool>, degree: nat, i: nat, n: nat, p: Modulus)
    requires degree >= 1 && i < degree && n <= |valid| && AcceptedCorrect(v, valid, degree, p)
    ensures TargetField(degree, i) < VC.NumFields(degree) && RowStart(n, VC.NumFields(degree)) <= |v|
    ensures Cong(ColumnSum(v, valid, VC.NumFields(degree), TargetField(degree, i), n),
                 TargetMoment(v, valid, degree, i, n), p)
  {
    hide Cong, RowStart, ClientCorrect, Feature, Target, VC.NumFields, TargetField;
    ColumnFits(v, valid, degree, n, p);
    TargetFieldInRange(degree, i);
    if n == 0 {
      CongIntro(0, 0, 0, p);
    } else {
      var f := TargetField(degree, i);
      ColumnIsTarget(v, valid, degree, i, n - 1, p);
      ColumnFits(v, valid, degree, n - 1, p);
      RowsFit(n - 1, n, VC.NumFields(degree));
      if valid[n-1] {
        FieldHoldsTarget(v, degree, n - 1, i, p);
        CongAdd(ColumnSum(v, valid, VC.NumFields(degree), f, n - 1), TargetMoment(v, valid, degree, i, n - 1),
                v[RowStart(n - 1, VC.NumFields(degree)) + f],
                Feature(v, degree, n - 1, i) * Target(v, degree, n - 1), p);
      }
    }
  }

  lemma TargetFieldInRange(degree: nat, i: nat)
    requires i < degree
    ensures TargetField(degree, i) < VC.NumFields(degree)
  {
  }

  lemma {:induction false} CountIsMoment(v: seq<int>, valid: seq<bool>, degree: nat, n: nat)
    requires degree >= 1 && n <= |valid| && RowStart(n, VC.NumFields(degree)) <= |v|
    ensures CountValid(valid, n) == Moment(v, valid, degree, 0, 0, n)
  {
    if n > 0 {
      CountIsMoment(v, valid, degree, n - 1);
    }
  }

  // ---------- the servers ----------

  /** `fmpz_get_si` stored in a word: exact below 2^63. */
  function GetSi(x: int): (r: int)
    ensures 0 <= x < 0x8000_0000_0000_0000 ==> r == x
  {
    Word(x)
  }

  /** n totals, from field `from` on, go to the cells from `at` on. */
  method AddTotals(accum: array<int>, at: nat, a: seq<int>, b: seq<int>, from: nat, n: nat, p: Modulus)
    requires at + n <= accum.Length && from + n <= |a| == |b|
    modifies accum
    ensures forall c :: 0 <= c < accum.Length ==>
              accum[c] == if at <= c < at + n then GetSi(AddMod(b[from+c-at], a[from+c-at], p)) else old(accum[c])
  {
    hide GetSi, AddMod;
    for j := 0 to n
      invariant forall c :: 0 <= c < accum.Length ==>
                  accum[c] == if at <= c < at + j then GetSi(AddMod(b[from+c-at], a[from+c-at], p)) else old(accum[c])
    {
      accum[at+j] := GetSi(AddMod(b[from+j], a[from+j], p));
    }
  }

  /** Server 0 adds the two totals in the order of the fields. */
  method AccumulateMoments(a: seq<int>, b: seq<int>, numValid: nat, degree: nat, p: Modulus)
    returns (xAccum: array<int>, yAccum: array<int>)
    requires degree >= 1 && |a| == |b| == VC.NumFields(degree)
    ensures xAccum.Length == degree + NumQuad(degree) && yAccum.Length == degree
    ensures xAccum[0] == numValid
    ensures forall k :: 1 <= k < degree ==> xAccum[k] == GetSi(AddMod(b[k-1], a[k-1], p))
    ensures forall k :: degree <= k < xAccum.Length ==> xAccum[k] == GetSi(AddMod(b[k], a[k], p))
    ensures forall i :: 0 <= i < degree ==>
              yAccum[i] == GetSi(AddMod(b[TargetField(degree, i)], a[TargetField(degree, i)], p))
  {
    hide GetSi, AddMod, VC.PairsBefore;
    var numX, numQuad := degree - 1, NumQuad(degree);
    xAccum := new int[degree + numQuad](_ => 0);
    yAccum := new int[degree](_ => 0);
    xAccum[0] := numValid;
    AddTotals(xAccum, 1, a, b, 0, numX, p);
    AddTotals(yAccum, 0, a, b, numX, 1, p);
    AddTotals(xAccum, 1 + numX, a, b, degree, numQuad, p);
    AddTotals(yAccum, 1, a, b, degree + numQuad, numX, p);
    forall i | 0 <= i < degree
      ensures yAccum[i] == GetSi(AddMod(b[TargetField(degree, i)], a[TargetField(degree, i)], p))
    {
      assert TargetField(degree, i) == if i == 0 then numX else degree + numQuad + (i - 1);
    }
  }

  /** Two totals add to the column of the opened fields. */
  lemma TotalsAdd(a: seq<int>, b: seq<int>, shares0: seq<int>, shares1: seq<int>, v: seq<int>, valid: seq<bool>,
                  f: nat, m: int, p: Modulus)
    requires |a| == |b| && f < |a| && SharesOf(shares0, shares1, v, p) && |v| == RowStart(|valid|, |a|)
    requires Totals(a, shares0, valid, |valid|, p) && Totals(b, shares1, valid, |valid|, p)
    requires Cong(ColumnSum(v, valid, |a|, f, |valid|), m, p) && 0 <= m < p
    ensures AddMod(b[f], a[f], p) == m
  {
    hide Cong, ColumnSum, RowStart, SharesOf, AddMod;
    SharesSizes(shares0, shares1, v, p);
    ColumnShares(shares0, shares1, v, valid, |a|, f, |valid|, p);
    var s0 := ColumnSum(shares0, valid, |a|, f, |valid|);
    var s1 := ColumnSum(shares1, valid, |a|, f, |valid|);
    AddModCong(b[f], a[f], p);
    CongAdd(b[f], s1, a[f], s0, p);
    CongTrans(AddMod(b[f], a[f], p), b[f] + a[f], s1 + s0, p);
    CongTrans(AddMod(b[f], a[f], p), s0 + s1, ColumnSum(v, valid, |a|, f, |valid|), p);
    CongTrans(AddMod(b[f], a[f], p), ColumnSum(v, valid, |a|, f, |valid|), m, p);
    ReducedEqual(AddMod(b[f], a[f], p), m, p);
  }

  /** Whatever the fields are, two totals add to their column modulo p. */
  lemma ColumnAdds(a: seq<int>, b: seq<int>, shares0: seq<int>, shares1: seq<int>, v: seq<int>, valid: seq<bool>,
                   f: nat, p: Modulus)
    requires |a| == |b| && f < |a| && SharesOf(shares0, shares1, v, p) && |v| == RowStart(|valid|, |a|)
    requires |shares0| == |shares1| == |v|
    requires Totals(a, shares0, valid, |valid|, p) && Totals(b, shares1, valid, |valid|, p)
    ensures AddMod(b[f], a[f], p) == ColumnSum(v, valid, |a|, f, |valid|) % p
  {
    hide Cong, ColumnSum, RowStart, SharesOf, AddMod;
    var m := ColumnSum(v, valid, |a|, f, |valid|);
    CongMod(m, p);
    CongSymmetric(m % p, m, p);
    TotalsAdd(a, b, shares0, shares1, v, valid, f, m % p, p);
  }

  /**
   The matrices hold the columns of the fields over the valid clients, modulo p: the number of clients,
   the features, the products of features, the target and its products.
   */
  ghost predicate HoldColumns(X: array2<int>, Y: array<int>, v: seq<int>, valid: seq<bool>, degree: nat, p: Modulus)
    requires degree >= 1 && RowStart(|valid|, VC.NumFields(degree)) <= |v|
    reads X, Y
  {
    && X.Length0 == X.Length1 == Y.Length == degree && X[0, 0] == CountValid(valid, |valid|)
    && (forall i, j :: 0 <= i < degree && 0 <= j < degree && i + j > 0 ==>
          IsColumn(X[i, j], v, valid, degree, MomentField(degree, i, j), p))
    && (forall i :: 0 <= i < degree ==> IsColumn(Y[i], v, valid, degree, TargetField(degree, i), p))
  }

  ghost predicate IsColumn(x: int, v: seq<int>, valid: seq<bool>, degree: nat, f: nat, p: Modulus)
    requires degree >= 1 && RowStart(|valid|, VC.NumFields(degree)) <= |v|
  {
    f < VC.NumFields(degree) && x == GetSi(ColumnSum(v, valid, VC.NumFields(degree), f, |valid|) % p)
  }

  lemma SharesSizes(x0: seq<int>, x1: seq<int>, v: seq<int>, p: Modulus)
    requires SharesOf(x0, x1, v, p)
    ensures |x0| == |x1| == |v|
  {
  }

  /** Small enough for the modulus and for a signed word. */
  predicate Exact(m: int, p: Modulus) {
    0 <= m < p && m < 0x8000_0000_0000_0000
  }

  /**
   Aggregation and matrix building of `linreg_op`: X is the sum of (1, x)(1, x)^T and
   Y the sum of (1, x) y over the accepted clients, as long as these sums are small enough.
   */
  method LinRegMatrices(numInputs: nat, degree: nat, shares0: seq<int>, shares1: seq<int>, valid: seq<bool>, p: Modulus,
                        ghost v: seq<int>)
    returns (X: array2<int>, Y: array<int>, numValid: nat)
    requires degree >= 1 && |valid| == numInputs
    requires |shares0| == |shares1| == |v| == RowStart(numInputs, VC.NumFields(degree))
    ensures X.Length0 == X.Length1 == Y.Length == degree && numValid == CountValid(valid, numInputs)
    ensures fresh(X) && fresh(Y)
    ensures SharesOf(shares0, shares1, v, p) ==> HoldColumns(X, Y, v, valid, degree, p)
    ensures SharesOf(shares0, shares1, v, p) && AcceptedCorrect(v, valid, degree, p) ==>
              forall i, j :: 0 <= i < degree && 0 <= j < degree &&
                             Exact(Moment(v, valid, degree, i, j, numInputs), p) ==>
                X[i, j] == Moment(v, valid, degree, i, j, numInputs)
    ensures SharesOf(shares0, shares1, v, p) && AcceptedCorrect(v, valid, degree, p) ==>
              forall i :: 0 <= i < degree && Exact(TargetMoment(v, valid, degree, i, numInputs), p) ==>
                Y[i] == TargetMoment(v, valid, degree, i, numInputs)
  {
    hide RowStart, Totals, SharesOf, ColumnSum, VC.NumFields, NumQuad, TargetField, GetSi, AddMod, AcceptedCorrect,
         MomentField, Moment, TargetMoment, CountValid, EntryAt, Exact;
    var a;
    a, numValid := Accumulate(numInputs, VC.NumFields(degree), shares0, valid, p);
    var b, _ := Accumulate(numInputs, VC.NumFields(degree), shares1, valid, p);
    var xAccum, yAccum := AccumulateMoments(a[..], b[..], numValid, degree, p);
    X, Y := BuildMatrices(degree, xAccum[..], yAccum[..]);
    if SharesOf(shares0, shares1, v, p) {
      forall i, j | 0 <= i < degree && 0 <= j < degree && i + j > 0
        ensures IsColumn(X[i, j], v, valid, degree, MomentField(degree, i, j), p)
      {
        EntryIsColumn(a[..], b[..], xAccum[..], shares0, shares1, v, valid, degree, i, j, p);
      }
      forall i | 0 <= i < degree ensures IsColumn(Y[i], v, valid, degree, TargetField(degree, i), p) {
        assert Y[i] == yAccum[..][i];
        TargetFieldInRange(degree, i);
        ColumnAdds(a[..], b[..], shares0, shares1, v, valid, TargetField(degree, i), p);
      }
      FirstEntry(degree);
    }
    if SharesOf(shares0, shares1, v, p) && AcceptedCorrect(v, valid, degree, p) {
      forall i, j | 0 <= i < degree && 0 <= j < degree && Exact(Moment(v, valid, degree, i, j, numInputs), p)
        ensures X[i, j] == Moment(v, valid, degree, i, j, numInputs)
      {
        EntryIsMoment(a[..], b[..], xAccum[..], shares0, shares1, v, valid, degree, i, j, p);
      }
      forall i | 0 <= i < degree && Exact(TargetMoment(v, valid, degree, i, numInputs), p)
        ensures Y[i] == TargetMoment(v, valid, degree, i, numInputs)
      {
        assert Y[i] == yAccum[..][i];
        EntryIsTarget(a[..], b[..], yAccum[..], shares0, shares1, v, valid, degree, i, p);
      }
    }
  }

  lemma FirstEntry(degree: nat)
    requires degree >= 1
    ensures EntryAt(degree, 0, 0) == 0
  {
  }

  lemma EntryIsColumn(a: seq<int>, b: seq<int>, xAccum: seq<int>, shares0: seq<int>, shares1: seq<int>, v: seq<int>,
                      valid: seq<bool>, degree: nat, i: nat, j: nat, p: Modulus)
    requires degree >= 1 && i < degree && j < degree && i + j > 0 && |a| == |b| == VC.NumFields(degree)
    requires SharesOf(shares0, shares1, v, p)
    requires |v| == RowStart(|valid|, |a|) && |shares0| == |shares1| == |v|
    requires Totals(a, shares0, valid, |valid|, p) && Totals(b, shares1, valid, |valid|, p)
    requires |xAccum| == degree + NumQuad(degree)
    requires forall k :: 1 <= k < degree ==> xAccum[k] == GetSi(AddMod(b[k-1], a[k-1], p))
    requires forall k :: degree <= k < |xAccum| ==> xAccum[k] == GetSi(AddMod(b[k], a[k], p))
    ensures IsColumn(xAccum[EntryAt(degree, i, j)], v, valid, degree, MomentField(degree, i, j), p)
  {
    hide RowStart, Totals, SharesOf, ColumnSum, VC.PairsBefore, GetSi, AddMod;
    EntryInRange(degree, i, j);
    MomentFieldInRange(degree, i, j);
    ColumnAdds(a, b, shares0, shares1, v, valid, MomentField(degree, i, j), p);
  }

  lemma EntryIsMoment(a: seq<int>, b: seq<int>, xAccum: seq<int>, shares0: seq<int>, shares1: seq<int>, v: seq<int>,
                      valid: seq<bool>, degree: nat, i: nat, j: nat, p: Modulus)
    requires degree >= 1 && i < degree && j < degree && |a| == |b| == VC.NumFields(degree)
    requires SharesOf(shares0, shares1, v, p) && AcceptedCorrect(v, valid, degree, p)
    requires |v| == RowStart(|valid|, |a|) && |shares0| == |shares1| == |v|
    requires Totals(a, shares0, valid, |valid|, p) && Totals(b, shares1, valid, |valid|, p)
    requires |xAccum| == degree + NumQuad(degree) && xAccum[0] == CountValid(valid, |valid|)
    requires forall k :: 1 <= k < degree ==> xAccum[k] == GetSi(AddMod(b[k-1], a[k-1], p))
    requires forall k :: degree <= k < |xAccum| ==> xAccum[k] == GetSi(AddMod(b[k], a[k], p))
    requires Exact(Moment(v, valid, degree, i, j, |valid|), p)
    ensures xAccum[EntryAt(degree, i, j)] == Moment(v, valid, degree, i, j, |valid|)
  {
    hide RowStart, Totals, SharesOf, ColumnSum, VC.NumFields, VC.PairsBefore, GetSi, AddMod, AcceptedCorrect, Moment,
         CountValid, Cong;
    if i == 0 && j == 0 {
      CountIsMoment(v, valid, degree, |valid|);
    } else {
      var f := MomentField(degree, i, j);
      ColumnIsMoment(v, valid, degree, i, j, |valid|, p);
      TotalsAdd(a, b, shares0, shares1, v, valid, f, Moment(v, valid, degree, i, j, |valid|), p);
    }
  }

  lemma EntryIsTarget(a: seq<int>, b: seq<int>, yAccum: seq<int>, shares0: seq<int>, shares1: seq<int>, v: seq<int>,
                      valid: seq<bool>, degree: nat, i: nat, p: Modulus)
    requires degree >= 1 && i < degree && |a| == |b| == VC.NumFields(degree) && |yAccum| == degree
    requires SharesOf(shares0, shares1, v, p) && AcceptedCorrect(v, valid, degree, p)
    requires |v| == RowStart(|valid|, |a|) && |shares0| == |shares1| == |v|
    requires Totals(a, shares0, valid, |valid|, p) && Totals(b, shares1, valid, |valid|, p)
    requires forall k :: 0 <= k < degree ==>
               yAccum[k] == GetSi(AddMod(b[TargetField(degree, k)], a[TargetField(degree, k)], p))
    requires Exact(TargetMoment(v, valid, degree, i, |valid|), p)
    ensures yAccum[i] == TargetMoment(v, valid, degree, i, |valid|)
  {
    hide RowStart, Totals, SharesOf, ColumnSum, VC.NumFields, VC.PairsBefore, GetSi, AddMod, AcceptedCorrect,
         TargetMoment, Cong, TargetField;
    ColumnIsTarget(v, valid, degree, i, |valid|, p);
    TotalsAdd(a, b, shares0, shares1, v, valid, TargetField(degree, i), TargetMoment(v, valid, degree, i, |valid|), p);
  }
}
