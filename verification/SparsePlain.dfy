/** `csrmm` on the CPU with the sparse left operand as it is. The code exchanges the roles of row and
    entry; this module says what it computes and for which matrices that is the product. */
module SparsePlain {
  import opened SparseMultiply

  // ----- what the loops compute -----

  /** Every cell of the destination and every value the loops touch exists. */
  predicate InBounds(a: Csr, width: nat)
    requires a.Valid(width)
  {
    && a.rowPtr[a.Rows()] <= a.Rows()
    && forall j | 0 <= j < a.Rows() && a.rowPtr[j] < a.rowPtr[j + 1] :: j < |a.val|
  }

  predicate InRow(a: Csr, j: int, i: int)
    requires 0 <= j < a.Rows()
  {
    a.rowPtr[j] <= i < a.rowPtr[j + 1]
  }

  /** What row `j` adds to column `i` of the destination, in row `k` and before scaling. */
  function Added(a: Csr, width: nat, b: Operand, n: int, j: int, i: int, k: int): real
    requires a.Valid(width) && InBounds(a, width) && b.Shape(width, n) && 0 <= j < a.Rows() && 0 <= k < n
  {
    if InRow(a, j, i) then a.val[j] * b.At(width, n, a.col[i], k) else 0.0
  }

  function AddedBy(a: Csr, width: nat, b: Operand, n: int, i: int, k: int, m: int): real
    requires a.Valid(width) && InBounds(a, width) && b.Shape(width, n) && 0 <= k < n && 0 <= m <= a.Rows()
    decreases m
  {
    if m == 0 then 0.0 else AddedBy(a, width, b, n, i, k, m - 1) + Added(a, width, b, n, m - 1, i, k)
  }

  method AddRow(a: Csr, width: nat, b: Operand, j: int, k: int, alpha: real, dst: array2<real>)
    requires a.Valid(width) && InBounds(a, width) && b.Shape(width, dst.Length0) && dst.Length1 == a.Rows()
    requires 0 <= j < a.Rows() && 0 <= k < dst.Length0
    modifies dst
    ensures forall i | 0 <= i < dst.Length1 ::
      dst[k, i] == old(dst[k, i]) + alpha * Added(a, width, b, dst.Length0, j, i, k)
    ensures forall r, i | 0 <= r < dst.Length0 && r != k && 0 <= i < dst.Length1 :: dst[r, i] == old(dst[r, i])
  {
    RowInside(a, width, j);
    var i := a.rowPtr[j];
    while i < a.rowPtr[j + 1]
      invariant a.rowPtr[j] <= i <= a.rowPtr[j + 1]
      invariant forall l | 0 <= l < dst.Length1 ::
        dst[k, l] == old(dst[k, l]) + if l < i then alpha * Added(a, width, b, dst.Length0, j, l, k) else 0.0
      invariant forall r, l | 0 <= r < dst.Length0 && r != k && 0 <= l < dst.Length1 :: dst[r, l] == old(dst[r, l])
    {
      dst[k, i] := dst[k, i] + alpha * a.val[j] * b.At(width, dst.Length0, a.col[i], k);
      i := i + 1;
    }
  }

  lemma {:induction false} RowPtrSorted(a: Csr, width: nat, j: int, j': int)
    requires a.Valid(width) && 0 <= j <= j' <= a.Rows()
    ensures a.rowPtr[j] <= a.rowPtr[j']
    decreases j' - j
  {
    if j < j' { RowPtrSorted(a, width, j, j' - 1); }
  }

  lemma RowInside(a: Csr, width: nat, j: int)
    requires a.Valid(width) && InBounds(a, width) && 0 <= j < a.Rows()
    ensures a.rowPtr[j + 1] <= a.Rows()
  {
    RowPtrSorted(a, width, j + 1, a.Rows());
  }

  /** The middle loop. */
  method AddOuterProduct(a: Csr, width: nat, b: Operand, j: int, alpha: real, dst: array2<real>)
    requires a.Valid(width) && InBounds(a, width) && b.Shape(width, dst.Length0) && dst.Length1 == a.Rows()
    requires 0 <= j < a.Rows()
    modifies dst
    ensures forall r, i | 0 <= r < dst.Length0 && 0 <= i < dst.Length1 ::
      dst[r, i] == old(dst[r, i]) + alpha * Added(a, width, b, dst.Length0, j, i, r)
  {
    hide Csr.Valid, InBounds, Added, Operand.Shape;
    var k := 0;
    while k < dst.Length0
      invariant 0 <= k <= dst.Length0
      invariant forall r, i | 0 <= r < k && 0 <= i < dst.Length1 ::
        dst[r, i] == old(dst[r, i]) + alpha * Added(a, width, b, dst.Length0, j, i, r)
      invariant forall r, i | k <= r < dst.Length0 && 0 <= i < dst.Length1 :: dst[r, i] == old(dst[r, i])
    {
      AddRow(a, width, b, j, k, alpha, dst);
      k := k + 1;
    }
  }

  /** What the first `m` rows leave in a cell that held `x`. */
  function CellAfter(a: Csr, width: nat, b: Operand, n: int, alpha: real, beta: real, x: real, i: int, k: int, m: int): real
    requires a.Valid(width) && InBounds(a, width) && b.Shape(width, n) && 0 <= k < n && 0 <= m <= a.Rows()
  {
    beta * x + alpha * AddedBy(a, width, b, n, i, k, m)
  }

  lemma CellAfterStep(a: Csr, width: nat, b: Operand, n: int, alpha: real, beta: real, x: real, i: int, k: int, j: int)
    requires a.Valid(width) && InBounds(a, width) && b.Shape(width, n) && 0 <= k < n && 0 <= j < a.Rows()
    ensures CellAfter(a, width, b, n, alpha, beta, x, i, k, j) + alpha * Added(a, width, b, n, j, i, k)
         == CellAfter(a, width, b, n, alpha, beta, x, i, k, j + 1)
  {
    hide Added;
    var p, q := AddedBy(a, width, b, n, i, k, j), Added(a, width, b, n, j, i, k);
    assert alpha * (p + q) == alpha * p + alpha * q;
  }

  /** `csrmm<false, trans_B>`. */
  method Csrmm(a: Csr, width: nat, b: Operand, alpha: real, beta: real, dst: array2<real>)
    requires a.Valid(width) && InBounds(a, width) && b.Shape(width, dst.Length0) && dst.Length1 == a.Rows()
    modifies dst
    ensures forall k, i | 0 <= k < dst.Length0 && 0 <= i < dst.Length1 ::
      dst[k, i] == beta * old(dst[k, i]) + alpha * AddedBy(a, width, b, dst.Length0, i, k, a.Rows())
  {
    hide Csr.Valid, InBounds, Added, Operand.Shape;
    var n, m := dst.Length0, a.Rows();
    Scale(dst, beta);
    var j := 0;
    while j < m
      invariant 0 <= j <= m
      invariant forall k, i | 0 <= k < n && 0 <= i < m ::
        dst[k, i] == CellAfter(a, width, b, n, alpha, beta, old(dst[k, i]), i, k, j)
    {
      forall k, i | 0 <= k < n && 0 <= i < m
        ensures CellAfter(a, width, b, n, alpha, beta, old(dst[k, i]), i, k, j) + alpha * Added(a, width, b, n, j, i, k)
             == CellAfter(a, width, b, n, alpha, beta, old(dst[k, i]), i, k, j + 1)
      {
        CellAfterStep(a, width, b, n, alpha, beta, old(dst[k, i]), i, k, j);
      }
      AddOuterProduct(a, width, b, j, alpha, dst);
      j := j + 1;
    }
  }

  // ----- the product it is meant to compute -----

  /** Row `r` of the matrix times column `k` of `op(B)`, over the first `w` columns. */
  function RowProduct(a: Csr, width: nat, b: Operand, n: int, r: int, k: int, w: int): real
    requires a.Valid(width) && b.Shape(width, n) && 0 <= r < a.Rows() && 0 <= k < n && 0 <= w <= width
    decreases w
  {
    if w == 0 then 0.0
    else RowProduct(a, width, b, n, r, k, w - 1) + Dense(a, width, r, w - 1) * b.At(width, n, w - 1, k)
  }

  /** The loops add exactly the product, whatever the dense operand. */
  ghost predicate RightForAll(a: Csr, width: nat)
    requires a.Valid(width) && InBounds(a, width)
  {
    forall b: Operand, n, r, k | b.Shape(width, n) && 0 <= k < n && 0 <= r < a.Rows() ::
      AddedBy(a, width, b, n, r, k, a.Rows()) == RowProduct(a, width, b, n, r, k, width)
  }

  /** No entry is zero, no row repeats a column, and the rows cover all entries. */
  predicate Canonical(a: Csr) {
    && |a.rowPtr| > 0 && |a.col| == |a.val| && a.rowPtr[0] == 0 && a.rowPtr[a.Rows()] == |a.val|
    && (forall i | 0 <= i < |a.val| :: a.val[i] != 0.0)
    && forall j, i, i' | 0 <= j < a.Rows() && InRow(a, j, i) && InRow(a, j, i') && 0 <= i < i' < |a.col| ::
         a.col[i] != a.col[i']
  }

  /** The first rows hold one entry each and the others none. */
  predicate Staircase(a: Csr) {
    forall j | 0 <= j < |a.rowPtr| :: a.rowPtr[j] == if j < |a.val| then j else |a.val|
  }

  // ----- from the shape of the matrix to the product -----

  lemma {:induction false} NothingAdded(a: Csr, width: nat, b: Operand, n: int, i: int, k: int, m: int)
    requires a.Valid(width) && InBounds(a, width) && b.Shape(width, n) && 0 <= k < n && 0 <= m <= a.Rows()
    requires forall j | 0 <= j < m :: !InRow(a, j, i)
    ensures AddedBy(a, width, b, n, i, k, m) == 0.0
    decreases m
  {
    if m > 0 { NothingAdded(a, width, b, n, i, k, m - 1); }
  }

  /** An entry belongs to one row only. */
  lemma {:induction false} AddedOnce(a: Csr, width: nat, b: Operand, n: int, j: int, i: int, k: int, m: int)
    requires a.Valid(width) && InBounds(a, width) && b.Shape(width, n) && 0 <= k < n && 0 <= j < m <= a.Rows()
    requires InRow(a, j, i)
    ensures AddedBy(a, width, b, n, i, k, m) == a.val[j] * b.At(width, n, a.col[i], k)
    decreases m
  {
    if m - 1 == j {
      forall l | 0 <= l < j ensures !InRow(a, l, i) { RowPtrSorted(a, width, l + 1, j); }
      NothingAdded(a, width, b, n, i, k, j);
    } else {
      RowPtrSorted(a, width, j + 1, m - 1);
      AddedOnce(a, width, b, n, j, i, k, m - 1);
    }
  }

  lemma {:induction false} EmptyRowProduct(a: Csr, width: nat, b: Operand, n: int, r: int, k: int, w: int)
    requires a.Valid(width) && b.Shape(width, n) && 0 <= r < a.Rows() && 0 <= k < n && 0 <= w <= width
    requires forall c | 0 <= c < w :: Dense(a, width, r, c) == 0.0
    ensures RowProduct(a, width, b, n, r, k, w) == 0.0
    decreases w
  {
    if w > 0 { EmptyRowProduct(a, width, b, n, r, k, w - 1); }
  }

  lemma {:induction false} SingleRowProduct(a: Csr, width: nat, b: Operand, n: int, r: int, k: int, w: int, c: int)
    requires a.Valid(width) && b.Shape(width, n) && 0 <= r < a.Rows() && 0 <= k < n && 0 <= c < w <= width
    requires forall c' | 0 <= c' < w && c' != c :: Dense(a, width, r, c') == 0.0
    ensures RowProduct(a, width, b, n, r, k, w) == Dense(a, width, r, c) * b.At(width, n, c, k)
    decreases w
  {
    if w - 1 == c { EmptyRowProduct(a, width, b, n, r, k, c); }
    else { SingleRowProduct(a, width, b, n, r, k, w - 1, c); }
  }

  lemma StaircaseInBounds(a: Csr, width: nat)
    requires a.Valid(width) && Canonical(a) && Staircase(a)
    ensures InBounds(a, width)
  {
  }

  lemma StaircaseRight(a: Csr, width: nat, b: Operand, n: int, r: int, k: int)
    requires a.Valid(width) && Canonical(a) && Staircase(a) && InBounds(a, width)
    requires b.Shape(width, n) && 0 <= k < n && 0 <= r < a.Rows()
    ensures AddedBy(a, width, b, n, r, k, a.Rows()) == RowProduct(a, width, b, n, r, k, width)
  {
    hide Operand.At, Operand.Shape;
    if r < |a.val| {
      var c := a.col[r];
      assert InRow(a, r, r);
      AddedOnce(a, width, b, n, r, r, k, a.Rows());
      forall c' ensures Dense(a, width, r, c') == if c' == c then a.val[r] else 0.0 {
        ColumnEntries(a, r, r, r + 1, c');
      }
      SingleRowProduct(a, width, b, n, r, k, width, c);
    } else {
      NothingAdded(a, width, b, n, r, k, a.Rows());
      EmptyRowProduct(a, width, b, n, r, k, width);
    }
  }

  // ----- from the product to the shape of the matrix -----

  /** A dense operand with one column, the unit column `c`. */
  function Unit(width: nat, c: int): Operand {
    Operand(seq(width, i => [if i == c then 1.0 else 0.0]), false)
  }

  lemma {:induction false} UnitRowProduct(a: Csr, width: nat, r: int, c: int, w: int)
    requires a.Valid(width) && 0 <= r < a.Rows() && 0 <= c < width && 0 <= w <= width
    ensures RowProduct(a, width, Unit(width, c), 1, r, 0, w) == if c < w then Dense(a, width, r, c) else 0.0
    decreases w
  {
    hide Dense;
    if w > 0 { UnitRowProduct(a, width, r, c, w - 1); }
  }

  /** An entry shows in the dense row when its column is not repeated. */
  lemma EntryShows(a: Csr, width: nat, r: int, i: int)
    requires a.Valid(width) && Canonical(a) && 0 <= r < a.Rows() && InRow(a, r, i)
    ensures Dense(a, width, r, a.col[i]) == a.val[i]
  {
    var lo, hi, c := a.rowPtr[r], a.rowPtr[r + 1], a.col[i];
    forall l | lo <= l < hi && l != i ensures a.col[l] != c { assert InRow(a, r, l); }
    ColumnEntries(a, lo, i, hi, c);
    ColumnEntries(a, lo, i, i, c);
    ColumnEntries(a, i, i, hi, c);
  }

  /** If the dense row `r` holds a value in column `c` only, the row has exactly one entry. */
  lemma OneEntry(a: Csr, width: nat, r: int, c: int)
    requires a.Valid(width) && Canonical(a) && 0 <= r < a.Rows()
    requires forall c' | 0 <= c' < width :: Dense(a, width, r, c') != 0.0 <==> c' == c
    requires 0 <= c < width
    ensures a.rowPtr[r + 1] == a.rowPtr[r] + 1
  {
    var lo, hi := a.rowPtr[r], a.rowPtr[r + 1];
    assert Dense(a, width, r, c) != 0.0;
    forall i | InRow(a, r, i) ensures a.col[i] == c { EntryShows(a, width, r, i); }
    assert InRow(a, r, lo) && (lo + 1 < hi ==> InRow(a, r, lo + 1));
  }

  /** The row that holds entry `i`. */
  lemma {:induction false} RowOf(a: Csr, width: nat, i: int, lo: int, hi: int) returns (j: int)
    requires a.Valid(width) && 0 <= lo < hi < |a.rowPtr| && a.rowPtr[lo] <= i < a.rowPtr[hi]
    ensures lo <= j < hi && InRow(a, j, i)
    decreases hi - lo
  {
    if i < a.rowPtr[lo + 1] { j := lo; } else { j := RowOf(a, width, i, lo + 1, hi); }
  }

  /** What the loops add for unit columns is the dense row. */
  lemma UnitAdded(a: Csr, width: nat, r: int, c: int)
    requires a.Valid(width) && InBounds(a, width) && RightForAll(a, width)
    requires 0 <= r < a.Rows() && 0 <= c < width
    ensures Unit(width, c).Shape(width, 1)
    ensures AddedBy(a, width, Unit(width, c), 1, r, 0, a.Rows()) == Dense(a, width, r, c)
  {
    hide Dense, AddedBy, RowProduct;
    assert Unit(width, c).Shape(width, 1);
    UnitRowProduct(a, width, r, c, width);
  }

  lemma NextStair(a: Csr, width: nat, r: int)
    requires a.Valid(width) && Canonical(a) && InBounds(a, width) && RightForAll(a, width)
    requires 0 <= r < a.Rows() && r < |a.val| && a.rowPtr[r] == r
    ensures a.rowPtr[r + 1] == r + 1
  {
    hide Dense, AddedBy, RightForAll;
    var j := RowOf(a, width, r, 0, a.Rows());
    forall c | 0 <= c < width ensures Dense(a, width, r, c) != 0.0 <==> c == a.col[r] {
      UnitAdded(a, width, r, c);
      AddedOnce(a, width, Unit(width, c), 1, j, r, 0, a.Rows());
    }
    OneEntry(a, width, r, a.col[r]);
  }

  lemma {:induction false} RightMeansStaircase(a: Csr, width: nat, j: int)
    requires a.Valid(width) && Canonical(a) && InBounds(a, width) && RightForAll(a, width)
    requires 0 <= j < |a.rowPtr|
    ensures a.rowPtr[j] == if j < |a.val| then j else |a.val|
    decreases j
  {
    hide RightForAll;
    if j > 0 {
      RightMeansStaircase(a, width, j - 1);
      if j - 1 < |a.val| { NextStair(a, width, j - 1); }
    }
  }

  /** The branch stays in bounds and computes the product for every dense operand exactly when the
      first rows of the matrix hold one entry each and the others none. */
  lemma RightExactlyOnStaircases(a: Csr, width: nat)
    requires a.Valid(width) && Canonical(a)
    ensures InBounds(a, width) && RightForAll(a, width) <==> Staircase(a)
  {
    if Staircase(a) {
      StaircaseInBounds(a, width);
      forall b: Operand, n, r, k | b.Shape(width, n) && 0 <= k < n && 0 <= r < a.Rows()
        ensures AddedBy(a, width, b, n, r, k, a.Rows()) == RowProduct(a, width, b, n, r, k, width)
      {
        StaircaseRight(a, width, b, n, r, k);
      }
    }
    if InBounds(a, width) && RightForAll(a, width) {
      forall j | 0 <= j < |a.rowPtr| ensures a.rowPtr[j] == if j < |a.val| then j else |a.val| {
        RightMeansStaircase(a, width, j);
      }
    }
  }

  /** Two entries in the first row: the product with a column of ones is (5, 0), the loops add (2, 2). */
  lemma TwoEntriesInOneRow()
    ensures var a, b := Csr([2.0, 3.0], [0, 2, 2], [0, 1]), Operand([[1.0], [1.0]], false);
      && a.Valid(2) && b.Shape(2, 1) && InBounds(a, 2)
      && RowProduct(a, 2, b, 1, 0, 0, 2) == 5.0 && AddedBy(a, 2, b, 1, 0, 0, 2) == 2.0
      && RowProduct(a, 2, b, 1, 1, 0, 2) == 0.0 && AddedBy(a, 2, b, 1, 1, 0, 2) == 2.0
  {
    var a, b := Csr([2.0, 3.0], [0, 2, 2], [0, 1]), Operand([[1.0], [1.0]], false);
    assert ColumnSum(a, 0, 1, 0) == 2.0 && ColumnSum(a, 0, 1, 1) == 0.0;
    assert Dense(a, 2, 0, 0) == 2.0 && Dense(a, 2, 0, 1) == 3.0;
    assert RowProduct(a, 2, b, 1, 0, 0, 1) == 2.0;
    assert AddedBy(a, 2, b, 1, 0, 0, 1) == 2.0 && AddedBy(a, 2, b, 1, 1, 0, 1) == 2.0;
    assert RowProduct(a, 2, b, 1, 1, 0, 1) == 0.0;
  }
}
