/** Dense caller matrices: typed elements in row- or column-major order, and the rows they stand for. */
module DenseMatrix {
  import opened Blocks
  import opened Doubles
  import opened HalfFloats

  /** One matrix element as stored: an 8- or 16-bit integer, the bits of a half, or a float/double. */
  datatype Elem = SmallInt(n: int) | Half(bits: int) | Float(d: Double)

  const ZERO: Elem := SmallInt(0)

  predicate ValidElem(e: Elem) {
    match e
    case SmallInt(n) => -0x8000 <= n < 0x1_0000
    case Half(bits) => 0 <= bits < 0x1_0000
    case Float(_) => true
  }

  function Decode(e: Elem): Double {
    match e
    case SmallInt(n) => Finite(n as real)
    case Half(bits) => if 0 <= bits < 0x1_0000 then HalfValue(bits) else NaN
    case Float(d) => d
  }

  /** An integer decodes to itself. */
  lemma IntegersDecode(n: int)
    ensures Decode(SmallInt(0)) == Finite(0.0)
    ensures Decode(SmallInt(n)).Finite? && Decode(SmallInt(n + 1)) == Finite(Decode(SmallInt(n)).v + 1.0)
  {
  }

  /** The element filters of the samplers: nonzero for integers, not +-0 by bits for halves, the threshold and
      NaN test for floats. */
  predicate Kept(e: Elem) {
    match e
    case SmallInt(n) => n != 0
    case Half(bits) => bits % 0x8000 != 0
    case Float(d) => Passes(d)
  }

  /** The integer and half filters agree with the row loop's test on the decoded value. */
  lemma KeptIffPasses(e: Elem)
    requires ValidElem(e)
    ensures Kept(e) <==> Passes(Decode(e))
  {
    match e {
      case SmallInt(n) =>
      case Half(bits) => HalfKeptIffPasses(bits);
      case Float(_) =>
    }
  }

  /** `nrow` rows of some fixed width, stored row- or column-major. */
  datatype Matrix = Matrix(data: seq<Elem>, nrow: nat, rowMajor: bool)

  predicate ValidMatrix(m: Matrix, ncol: nat) {
    |m.data| == m.nrow * ncol
  }

  ghost predicate ValidMatrices(ms: seq<Matrix>, ncol: nat) {
    forall i {:trigger ms[i]} | 0 <= i < |ms| :: ValidMatrix(ms[i], ncol)
  }

  function Nth(data: seq<Elem>, p: int): Elem {
    if 0 <= p < |data| then data[p] else ZERO
  }

  /** The element of row `r`, column `c`. */
  function At(m: Matrix, ncol: nat, r: int, c: int): Elem {
    if m.rowMajor then Nth(m.data, r * ncol + c) else Nth(m.data, m.nrow * c + r)
  }

  function FirstCells(m: Matrix, ncol: nat, r: int, k: nat): (s: seq<Elem>)
    ensures |s| == k && forall c {:trigger s[c]} | 0 <= c < k :: s[c] == At(m, ncol, r, c)
  {
    if k == 0 then [] else FirstCells(m, ncol, r, k - 1) + [At(m, ncol, r, k - 1)]
  }

  /** Row `r`, whatever the layout. */
  function RowOf(m: Matrix, ncol: nat, r: int): (s: seq<Elem>)
    ensures |s| == ncol
  {
    FirstCells(m, ncol, r, ncol)
  }

  function FirstRows(m: Matrix, ncol: nat, n: nat): (s: seq<seq<Elem>>)
    ensures |s| == n && forall r {:trigger s[r]} | 0 <= r < n :: s[r] == RowOf(m, ncol, r)
  {
    if n == 0 then [] else FirstRows(m, ncol, n - 1) + [RowOf(m, ncol, n - 1)]
  }

  function Rows(m: Matrix, ncol: nat): (s: seq<seq<Elem>>)
    ensures |s| == m.nrow
  {
    FirstRows(m, ncol, m.nrow)
  }

  /** The rows of the matrices stacked in order: the one matrix a chunked input stands for. */
  function Concat(ms: seq<Matrix>, ncol: nat): seq<seq<Elem>> {
    if ms == [] then [] else Concat(ms[..|ms| - 1], ncol) + Rows(ms[|ms| - 1], ncol)
  }

  /** Number of rows before matrix `j`. */
  function Offset(ms: seq<Matrix>, j: nat): nat
    requires j <= |ms|
  {
    if j == 0 then 0 else Offset(ms, j - 1) + ms[j - 1].nrow
  }

  lemma {:induction false} OffsetPrefix(ms: seq<Matrix>, n: nat, j: nat)
    requires j <= n <= |ms|
    ensures Offset(ms[..n], j) == Offset(ms, j)
  {
    if j > 0 {
      OffsetPrefix(ms, n, j - 1);
    }
  }

  lemma {:induction false} ConcatLength(ms: seq<Matrix>, ncol: nat)
    ensures |Concat(ms, ncol)| == Offset(ms, |ms|)
  {
    if ms != [] {
      ConcatLength(ms[..|ms| - 1], ncol);
      OffsetPrefix(ms, |ms| - 1, |ms| - 1);
    }
  }

  /** Row `r` of matrix `j` is row Offset(j) + r of the stack. */
  lemma {:induction false} ConcatAt(ms: seq<Matrix>, ncol: nat, j: nat, r: nat)
    requires j < |ms| && r < ms[j].nrow
    ensures Offset(ms, j) + r < |Concat(ms, ncol)|
    ensures Concat(ms, ncol)[Offset(ms, j) + r] == RowOf(ms[j], ncol, r)
  {
    var n := |ms| - 1;
    assert ms == ms[..n] + [ms[n]];
    ConcatAppend(ms[..n], ms[n], ncol);
    ConcatLength(ms[..n], ncol);
    OffsetPrefix(ms, n, n);
    if j < n {
      ConcatAt(ms[..n], ncol, j, r);
      OffsetPrefix(ms, n, j);
    }
  }

  lemma ConcatAppend(ms: seq<Matrix>, m: Matrix, ncol: nat)
    ensures Concat(ms + [m], ncol) == Concat(ms, ncol) + Rows(m, ncol)
  {
  }

  /** A row-major matrix holds row `r` contiguously. */
  lemma RowSlice(m: Matrix, ncol: nat, r: nat)
    requires ValidMatrix(m, ncol) && m.rowMajor && r < m.nrow
    ensures 0 <= r * ncol <= r * ncol + ncol <= |m.data|
    ensures m.data[r * ncol..r * ncol + ncol] == RowOf(m, ncol, r)
  {
    MulStep(r, ncol);
    MulMonotone(0, r, ncol);
    MulMonotone(r + 1, m.nrow, ncol);
  }

  /** A column-major matrix holds (r, c) at nrow * c + r. */
  lemma ColumnMajorIndex(m: Matrix, ncol: nat, r: nat, c: nat)
    requires ValidMatrix(m, ncol) && !m.rowMajor && r < m.nrow && c < ncol
    ensures 0 <= m.nrow * c + r < |m.data| && m.data[m.nrow * c + r] == RowOf(m, ncol, r)[c]
  {
    BlockIndexInRange(c, r, ncol, m.nrow);
  }

  /** A row-major block built from rows has exactly those rows. */
  lemma BlockRows(rows: seq<seq<Elem>>, ncol: nat)
    requires Uniform(rows, ncol)
    ensures ValidMatrix(Matrix(Flatten(rows), |rows|, true), ncol)
    ensures Concat([Matrix(Flatten(rows), |rows|, true)], ncol) == rows
  {
    var block := Matrix(Flatten(rows), |rows|, true);
    FlattenLength(rows, ncol);
    forall r | 0 <= r < |rows|
      ensures RowOf(block, ncol, r) == rows[r]
    {
      forall c | 0 <= c < ncol
        ensures RowOf(block, ncol, r)[c] == rows[r][c]
      {
        FlattenAt(rows, ncol, r, c);
      }
    }
    assert Rows(block, ncol) == rows;
    assert [block][..0] == [];
    assert Concat([block], ncol) == [] + Rows(block, ncol);
  }

  lemma {:induction false} ConcatUniform(ms: seq<Matrix>, ncol: nat)
    ensures Uniform(Concat(ms, ncol), ncol)
  {
    if ms != [] {
      ConcatUniform(ms[..|ms| - 1], ncol);
      var last := Rows(ms[|ms| - 1], ncol);
      assert forall r {:trigger last[r]} | 0 <= r < |last| :: |last[r]| == ncol;
    }
  }
}
