/** `csrmm` on the CPU with a transposed sparse left operand, over exact numbers. */
module SparseMultiply {

  /** A sparse matrix in compressed row form: row `j` holds entries `rowPtr[j]` up to `rowPtr[j + 1]`. */
  datatype Csr = Csr(val: seq<real>, rowPtr: seq<int>, col: seq<int>)
  {
    function Rows(): int { |rowPtr| - 1 }

    /** Columns are below `width`; a column may occur more than once in a row. */
    predicate Valid(width: int) {
      && |rowPtr| > 0 && |col| == |val|
      && (forall j | 0 <= j < |rowPtr| :: 0 <= rowPtr[j] <= |val|)
      && (forall j | 0 <= j < |rowPtr| - 1 :: rowPtr[j] <= rowPtr[j + 1])
      && (forall i | 0 <= i < |col| :: 0 <= col[i] < width)
    }
  }

  // ----- the dense meaning -----

  /** The sum of the entries `lo` up to `hi` that stand in column `c`. */
  function ColumnSum(a: Csr, lo: int, hi: int, c: int): real
    requires 0 <= lo <= hi <= |a.val| == |a.col|
    decreases hi - lo
  {
    if lo == hi then 0.0 else ColumnSum(a, lo, hi - 1, c) + if a.col[hi - 1] == c then a.val[hi - 1] else 0.0
  }

  /** The element at row `j` and column `c` of the matrix `a` stands for. */
  function Dense(a: Csr, width: int, j: int, c: int): real
    requires a.Valid(width) && 0 <= j < a.Rows()
  {
    ColumnSum(a, a.rowPtr[j], a.rowPtr[j + 1], c)
  }

  /** A dense operand, possibly transposed: `op(B)`. */
  datatype Operand = Operand(rows: seq<seq<real>>, transposed: bool)
  {
    /** `op(B)` has `m` rows and `n` columns. */
    predicate Shape(m: int, n: int) {
      if transposed then |rows| == n && forall i | 0 <= i < n :: |rows[i]| == m
      else |rows| == m && forall i | 0 <= i < m :: |rows[i]| == n
    }

    function At(m: int, n: int, j: int, k: int): real
      requires Shape(m, n) && 0 <= j < m && 0 <= k < n
    {
      if transposed then rows[k][j] else rows[j][k]
    }
  }

  /** Row `c` of the transpose of `a` times column `k` of `op(B)`, over the first `m` rows of `a`. */
  function Product(a: Csr, width: int, b: Operand, n: int, c: int, k: int, m: int): real
    requires a.Valid(width) && b.Shape(a.Rows(), n) && 0 <= k < n && 0 <= m <= a.Rows()
    decreases m
  {
    if m == 0 then 0.0
    else Product(a, width, b, n, c, k, m - 1) + Dense(a, width, m - 1, c) * b.At(a.Rows(), n, m - 1, k)
  }

  // ----- what fixes the dense meaning -----

  /** Entries in other columns do not count, a single entry in the column is the element, and
      repeated entries add up. */
  lemma {:induction false} ColumnEntries(a: Csr, lo: int, mid: int, hi: int, c: int)
    requires 0 <= lo <= mid <= hi <= |a.val| == |a.col|
    ensures ColumnSum(a, lo, hi, c) == ColumnSum(a, lo, mid, c) + ColumnSum(a, mid, hi, c)
    ensures (forall i | lo <= i < hi :: a.col[i] != c) ==> ColumnSum(a, lo, hi, c) == 0.0
    ensures lo == mid < hi && a.col[mid] == c && (forall i | mid < i < hi :: a.col[i] != c) ==>
      ColumnSum(a, lo, hi, c) == a.val[mid]
    decreases hi - lo
  {
    if mid < hi { ColumnEntries(a, lo, mid, hi - 1, c); }
    else if lo < hi { ColumnEntries(a, lo, hi - 1, hi - 1, c); }
  }

  /** The element at row `i` and column `k` of `op(B)` is that of the unit column `j`. */
  predicate UnitAt(b: Operand, m: int, n: int, j: int, i: int, k: int)
    requires b.Shape(m, n) && 0 <= i < m && 0 <= k < n
  {
    (if b.transposed then b.rows[k][i] else b.rows[i][k]) == if i == j then 1.0 else 0.0
  }

  /** A unit column of `op(B)` picks one row of the sparse matrix. */
  lemma {:induction false} UnitColumn(a: Csr, width: int, b: Operand, n: int, c: int, k: int, j: int, m: int)
    requires a.Valid(width) && b.Shape(a.Rows(), n) && 0 <= k < n && 0 <= m <= a.Rows() && 0 <= j < a.Rows()
    requires forall i | 0 <= i < a.Rows() :: UnitAt(b, a.Rows(), n, j, i, k)
    ensures Product(a, width, b, n, c, k, m) == if j < m then ColumnSum(a, a.rowPtr[j], a.rowPtr[j + 1], c) else 0.0
    decreases m
  {
    hide ColumnSum;
    if m > 0 {
      UnitColumn(a, width, b, n, c, k, j, m - 1);
      assert UnitAt(b, a.Rows(), n, j, m - 1, k);
    }
  }

  /** Column `k` of `op(B)` is `x` times that of `op(B1)` plus `y` times that of `op(B2)`. */
  predicate Combines(b: Operand, b1: Operand, b2: Operand, m: int, n: int, k: int, x: real, y: real)
    requires b.Shape(m, n) && b1.Shape(m, n) && b2.Shape(m, n) && 0 <= k < n
  {
    forall j | 0 <= j < m :: b.At(m, n, j, k) == x * b1.At(m, n, j, k) + y * b2.At(m, n, j, k)
  }

  /** The product is linear in `op(B)`; with `UnitColumn` this leaves no other product. */
  lemma {:induction false} ProductLinear(a: Csr, width: int, b: Operand, b1: Operand, b2: Operand, n: int,
                                         x: real, y: real, c: int, k: int, m: int)
    requires a.Valid(width) && 0 <= k < n && 0 <= m <= a.Rows()
    requires b.Shape(a.Rows(), n) && b1.Shape(a.Rows(), n) && b2.Shape(a.Rows(), n)
    requires Combines(b, b1, b2, a.Rows(), n, k, x, y)
    ensures Product(a, width, b, n, c, k, m)
         == x * Product(a, width, b1, n, c, k, m) + y * Product(a, width, b2, n, c, k, m)
    decreases m
  {
    hide Dense, Operand.At, Operand.Shape, Csr.Valid;
    if m > 0 {
      ProductLinear(a, width, b, b1, b2, n, x, y, c, k, m - 1);
      LinearStep(Dense(a, width, m - 1, c), x, y, b1.At(a.Rows(), n, m - 1, k), b2.At(a.Rows(), n, m - 1, k),
                 Product(a, width, b1, n, c, k, m - 1), Product(a, width, b2, n, c, k, m - 1));
    }
  }

  lemma LinearStep(d: real, x: real, y: real, u: real, v: real, p: real, q: real)
    ensures (x * p + y * q) + d * (x * u + y * v) == x * (p + d * u) + y * (q + d * v)
  {
    assert d * (x * u + y * v) == x * (d * u) + y * (d * v);
  }

  // ----- the loops -----

  function Scaled(alpha: real, sum: real, factor: real): real { alpha * sum * factor }

  lemma ScaledSum(alpha: real, a: real, b: real, factor: real)
    ensures Scaled(alpha, a + b, factor) == Scaled(alpha, a, factor) + Scaled(alpha, b, factor)
    ensures Scaled(alpha, 0.0, factor) == 0.0
  {
  }

  /** The innermost loop: scatters row `j` of the sparse matrix into row `k` of `dst`. */
  method ScatterRow(a: Csr, j: int, k: int, factor: real, alpha: real, dst: array2<real>)
    requires a.Valid(dst.Length1) && 0 <= j < a.Rows() && 0 <= k < dst.Length0
    modifies dst
    ensures forall c | 0 <= c < dst.Length1 ::
      dst[k, c] == old(dst[k, c]) + Scaled(alpha, Dense(a, dst.Length1, j, c), factor)
    ensures forall r, c | 0 <= r < dst.Length0 && r != k && 0 <= c < dst.Length1 :: dst[r, c] == old(dst[r, c])
  {
    hide Scaled;
    ScaledSum(alpha, 0.0, 0.0, factor);
    var i := a.rowPtr[j];
    while i < a.rowPtr[j + 1]
      invariant a.rowPtr[j] <= i <= a.rowPtr[j + 1]
      invariant forall c | 0 <= c < dst.Length1 ::
        dst[k, c] == old(dst[k, c]) + Scaled(alpha, ColumnSum(a, a.rowPtr[j], i, c), factor)
      invariant forall r, c | 0 <= r < dst.Length0 && r != k && 0 <= c < dst.Length1 :: dst[r, c] == old(dst[r, c])
    {
      var w := a.col[i];
      ScaledSum(alpha, ColumnSum(a, a.rowPtr[j], i, w), a.val[i], factor);
      dst[k, w] := dst[k, w] + Scaled(alpha, a.val[i], factor);
      i := i + 1;
    }
  }

  /** `dst *= beta`. */
  method Scale(dst: array2<real>, beta: real)
    modifies dst
    ensures forall r, c | 0 <= r < dst.Length0 && 0 <= c < dst.Length1 :: dst[r, c] == beta * old(dst[r, c])
  {
    forall r, c | 0 <= r < dst.Length0 && 0 <= c < dst.Length1 {
      dst[r, c] := dst[r, c] * beta;
    }
  }

  /** The middle loop: adds row `j` of the sparse matrix times row `j` of `op(B)`. */
  method ScatterOuterProduct(a: Csr, b: Operand, j: int, alpha: real, dst: array2<real>)
    requires a.Valid(dst.Length1) && b.Shape(a.Rows(), dst.Length0) && 0 <= j < a.Rows()
    modifies dst
    ensures forall r, c | 0 <= r < dst.Length0 && 0 <= c < dst.Length1 ::
      dst[r, c] == old(dst[r, c]) + Term(a, dst.Length1, b, dst.Length0, alpha, j, c, r)
  {
    hide Csr.Valid, Operand.Shape, Operand.At, Dense;
    var k := 0;
    while k < dst.Length0
      invariant 0 <= k <= dst.Length0
      invariant forall r, c | 0 <= r < k && 0 <= c < dst.Length1 ::
        dst[r, c] == old(dst[r, c]) + Term(a, dst.Length1, b, dst.Length0, alpha, j, c, r)
      invariant forall r, c | k <= r < dst.Length0 && 0 <= c < dst.Length1 :: dst[r, c] == old(dst[r, c])
    {
      ScatterRow(a, j, k, b.At(a.Rows(), dst.Length0, j, k), alpha, dst);
      k := k + 1;
    }
  }

  /** What row `j` contributes to `dst[k][c]`. */
  function Term(a: Csr, width: int, b: Operand, n: int, alpha: real, j: int, c: int, k: int): real
    requires a.Valid(width) && b.Shape(a.Rows(), n) && 0 <= j < a.Rows() && 0 <= k < n
  {
    Scaled(alpha, Dense(a, width, j, c), b.At(a.Rows(), n, j, k))
  }

  /** What the first `m` rows leave in a cell that held `x`. */
  function Cell(a: Csr, width: int, b: Operand, n: int, alpha: real, beta: real, x: real, c: int, k: int, m: int): real
    requires a.Valid(width) && b.Shape(a.Rows(), n) && 0 <= k < n && 0 <= m <= a.Rows()
  {
    beta * x + alpha * Product(a, width, b, n, c, k, m)
  }

  lemma CellStep(a: Csr, width: int, b: Operand, n: int, alpha: real, beta: real, x: real, c: int, k: int, j: int)
    requires a.Valid(width) && b.Shape(a.Rows(), n) && 0 <= k < n && 0 <= j < a.Rows()
    ensures Cell(a, width, b, n, alpha, beta, x, c, k, j) + Term(a, width, b, n, alpha, j, c, k)
         == Cell(a, width, b, n, alpha, beta, x, c, k, j + 1)
  {
    var p, d, y := Product(a, width, b, n, c, k, j), Dense(a, width, j, c), b.At(a.Rows(), n, j, k);
    assert alpha * (p + d * y) == alpha * p + alpha * d * y;
  }

  /** `csrmm<true, trans_B>`: afterwards `dst^T == alpha * A^T * op(B) + beta * dst^T`. The shape
      requirement is what the code checks before it starts. */
  method Csrmm(a: Csr, b: Operand, alpha: real, beta: real, dst: array2<real>)
    requires a.Valid(dst.Length1) && b.Shape(a.Rows(), dst.Length0)
    modifies dst
    ensures forall k, c | 0 <= k < dst.Length0 && 0 <= c < dst.Length1 ::
      dst[k, c] == beta * old(dst[k, c]) + alpha * Product(a, dst.Length1, b, dst.Length0, c, k, a.Rows())
  {
    hide Operand.Shape, Operand.At, Dense, Term;
    var m, n, width := a.Rows(), dst.Length0, dst.Length1;
    Scale(dst, beta);
    var j := 0;
    while j < m
      invariant 0 <= j <= m
      invariant forall k, c | 0 <= k < n && 0 <= c < width ::
        dst[k, c] == Cell(a, width, b, n, alpha, beta, old(dst[k, c]), c, k, j)
    {
      forall k, c | 0 <= k < n && 0 <= c < width
        ensures Cell(a, width, b, n, alpha, beta, old(dst[k, c]), c, k, j) + Term(a, width, b, n, alpha, j, c, k)
             == Cell(a, width, b, n, alpha, beta, old(dst[k, c]), c, k, j + 1)
      {
        CellStep(a, width, b, n, alpha, beta, old(dst[k, c]), c, k, j);
      }
      ScatterOuterProduct(a, b, j, alpha, dst);
      j := j + 1;
    }
  }

  // ----- the embedding gradient -----

  /** The rows of `grad` that belong to occurrences of word `w`, summed at position `k`. */
  function WordGradient(words: seq<int>, grad: seq<seq<real>>, w: int, k: int, m: int): real
    requires 0 <= m <= |words| == |grad| && 0 <= k && forall i | 0 <= i < |grad| :: k < |grad[i]|
    decreases m
  {
    if m == 0 then 0.0
    else WordGradient(words, grad, w, k, m - 1) + if words[m - 1] == w then grad[m - 1][k] else 0.0
  }

  /** One unit entry per row, in the column of the row's word. */
  function OneHot(words: seq<int>): Csr {
    Csr(seq(|words|, _ => 1.0), seq(|words| + 1, i => i), words)
  }

  lemma {:induction false} OneHotProduct(words: seq<int>, width: int, grad: seq<seq<real>>, n: int, w: int, k: int, m: int)
    requires (forall i | 0 <= i < |words| :: 0 <= words[i] < width) && Operand(grad, false).Shape(|words|, n)
    requires 0 <= k < n && 0 <= m <= |words|
    ensures OneHot(words).Valid(width)
    ensures Product(OneHot(words), width, Operand(grad, false), n, w, k, m) == WordGradient(words, grad, w, k, m)
    decreases m
  {
    if m > 0 {
      OneHotProduct(words, width, grad, n, w, k, m - 1);
      var a := OneHot(words);
      assert a.rowPtr[m - 1] == m - 1 && a.rowPtr[m] == m;
      assert ColumnSum(a, m - 1, m - 1, w) == 0.0;
      assert Dense(a, width, m - 1, w) == if words[m - 1] == w then 1.0 else 0.0;
    }
  }

  /** The embedding's backward call: `data` holds word numbers; it serves as the unit values of the
      sparse matrix during the call and is restored afterwards. */
  method EmbeddingBackward(data: array<real>, gradOut: seq<seq<real>>, gradIn: array2<real>)
    requires |gradOut| == data.Length && forall i | 0 <= i < |gradOut| :: |gradOut[i]| == gradIn.Length0
    requires forall i | 0 <= i < data.Length :: 0.0 <= data[i] < gradIn.Length1 as real
    modifies data, gradIn
    ensures forall i | 0 <= i < data.Length :: data[i] == old(data[i]).Floor as real
    ensures forall k, w | 0 <= k < gradIn.Length0 && 0 <= w < gradIn.Length1 ::
      gradIn[k, w] == WordGradient(Words(old(data[..])), gradOut, w, k, data.Length)
  {
    var rowPtr := seq(data.Length + 1, i => i);
    var colInd := Words(data[..]);
    forall i | 0 <= i < data.Length { data[i] := 1.0; }
    var a := Csr(data[..], rowPtr, colInd);
    assert a == OneHot(colInd);
    forall k, w | 0 <= k < gradIn.Length0 && 0 <= w < gradIn.Length1
      ensures a.Valid(gradIn.Length1)
      ensures Product(a, gradIn.Length1, Operand(gradOut, false), gradIn.Length0, w, k, a.Rows())
           == WordGradient(colInd, gradOut, w, k, data.Length)
    {
      OneHotProduct(colInd, gradIn.Length1, gradOut, gradIn.Length0, w, k, data.Length);
    }
    OneHotValid(colInd, gradIn.Length1);
    Csrmm(a, Operand(gradOut, false), 1.0, 0.0, gradIn);
    forall i | 0 <= i < data.Length { data[i] := colInd[i] as real; }
  }

  /** `tcast<int>` of each element. */
  function Words(data: seq<real>): seq<int> { seq(|data|, i requires 0 <= i < |data| => data[i].Floor) }

  lemma OneHotValid(words: seq<int>, width: int)
    requires forall i | 0 <= i < |words| :: 0 <= words[i] < width
    ensures OneHot(words).Valid(width)
  {
  }
}
