/**
 * MMatrix<T>: a dense matrix stored row-major in one vector, with element
 * access, assignment from a list of values, a dimension-checked product
 * computed with the i, k, j loop order, the compound product *= and the
 * transpose. The element type T is modelled as int, so that every sum and
 * product is exact.
 */
module MMatrix {
  import opened DenseMath
  import opened Kernel
  import Decimal

  datatype Result<T> = Ok(value: T) | Err(message: string)

  // ---------------------------------------------------------------------
  // Dimension strings and the mismatch message

  /** "<rows>x<cols>", both in decimal: the text dim_string() returns, from which the shape reads back. */
  function DimText(rows: nat, cols: nat): (s: string)
    ensures ParseDim(s) == Decimal.Some((rows, cols, ""))
  {
    var s := Decimal.NatToString(rows) + "x" + Decimal.NatToString(cols);
    ParseDimText(rows, cols, "");
    assert s + "" == s;
    s
  }

  /** Reads "<rows>x<cols>" at the head of s; returns the shape and the text after it. */
  function ParseDim(s: string): Decimal.Option<(nat, nat, string)> {
    match Decimal.ParseNat(s)
    case None => Decimal.None
    case Some((r, rest)) =>
      if rest == [] || rest[0] != 'x' then Decimal.None
      else
        match Decimal.ParseNat(rest[1..])
        case None => Decimal.None
        case Some((c, tail)) => Decimal.Some((r, c, tail))
  }

  /** A dimension string followed by non-digit text reads back as its shape and that text. */
  lemma ParseDimText(r: nat, c: nat, t: string)
    requires t == [] || !Decimal.IsDigit(t[0])
    ensures ParseDim(Decimal.NatToString(r) + "x" + Decimal.NatToString(c) + t) == Decimal.Some((r, c, t))
  {
    var rs, cs := Decimal.NatToString(r), Decimal.NatToString(c);
    var rest := "x" + (cs + t);
    Decimal.ParseNatToString(r, rest);
    Decimal.ParseNatToString(c, t);
    assert rest[1..] == cs + t;
    ParseDimParts(rs + rest, r, rest, c, t);
    ConcatAssoc(rs, "x", cs, t);
  }

  lemma ConcatAssoc(a: string, b: string, c: string, d: string)
    ensures a + b + c + d == a + (b + (c + d))
  {
  }

  /** ParseDim reads a number, an 'x' and a second number. */
  lemma ParseDimParts(s: string, r: nat, rest: string, c: nat, t: string)
    requires Decimal.ParseNat(s) == Decimal.Some((r, rest))
    requires rest != [] && rest[0] == 'x' && Decimal.ParseNat(rest[1..]) == Decimal.Some((c, t))
    ensures ParseDim(s) == Decimal.Some((r, c, t))
  {
  }

  const MismatchPrefix := "Matrix dimensions incorrect for multiplication lhs: "
  const MismatchMiddle := "rhs dim: "

  /**
   * The message of the out_of_range that operator* raises on a dimension
   * mismatch. It names both operands' shapes, which read back from it.
   */
  function MismatchMessage(lrows: nat, lcols: nat, rrows: nat, rcols: nat): (m: string)
    ensures ParseMismatch(m) == Decimal.Some((lrows, lcols, rrows, rcols))
  {
    var second := DimText(rrows, rcols);
    var tail := MismatchMiddle + second;
    var dims := DimText(lrows, lcols) + tail;
    AfterPrefixConcat(MismatchPrefix, dims);
    assert tail[0] == 'r';
    ParseDimText(lrows, lcols, tail);
    AfterPrefixConcat(MismatchMiddle, second);
    MismatchPrefix + dims
  }

  /** The text after the prefix p of s, if s starts with p. */
  function AfterPrefix(p: string, s: string): Decimal.Option<string> {
    if |s| < |p| || s[..|p|] != p then Decimal.None else Decimal.Some(s[|p|..])
  }

  lemma AfterPrefixConcat(p: string, d: string)
    ensures AfterPrefix(p, p + d) == Decimal.Some(d)
  {
    assert (p + d)[..|p|] == p && (p + d)[|p|..] == d;
  }

  /** Recovers the two shapes from a mismatch message. */
  function ParseMismatch(msg: string): Decimal.Option<(nat, nat, nat, nat)> {
    match AfterPrefix(MismatchPrefix, msg)
    case None => Decimal.None
    case Some(dims) =>
      match ParseDim(dims)
      case None => Decimal.None
      case Some((lr, lc, rest)) =>
        match AfterPrefix(MismatchMiddle, rest)
        case None => Decimal.None
        case Some(second) =>
          match ParseDim(second)
          case None => Decimal.None
          case Some((rr, rc, tail)) => if tail == [] then Decimal.Some((lr, lc, rr, rc)) else Decimal.None
  }

  // ---------------------------------------------------------------------
  // Assignment from a list of values

  /**
   * The storage after assigning the list a: the first min(|a|, |dst|)
   * places take a's values in order, the other places keep theirs and
   * extra values of a are dropped.
   */
  function CopyPrefix(dst: seq<int>, a: seq<int>): (r: seq<int>)
    ensures |r| == |dst|
    ensures forall p :: 0 <= p < |dst| ==> r[p] == if p < |a| then a[p] else dst[p]
  {
    var n := if |a| < |dst| then |a| else |dst|;
    a[..n] + dst[n..]
  }

  /** A list at least as long as the storage replaces it by its leading values; the old values are gone. */
  lemma CopyPrefixLongList(dst: seq<int>, a: seq<int>)
    requires |a| >= |dst|
    ensures CopyPrefix(dst, a) == a[..|dst|]
  {
  }

  /** Assigning the same list twice is assigning it once. */
  lemma CopyPrefixIdempotent(dst: seq<int>, a: seq<int>)
    ensures CopyPrefix(CopyPrefix(dst, a), a) == CopyPrefix(dst, a)
  {
  }

  /** The list fills the matrix row by row: element (i, j) takes a[i*c + j] when the list reaches it. */
  lemma AssignedElement(v: seq<int>, r: nat, c: nat, a: seq<int>, i: nat, j: nat)
    requires |v| == r * c && i < r && j < c
    ensures |CopyPrefix(v, a)| == r * c && i * c + j < r * c
    ensures RowMajor(CopyPrefix(v, a), r, c)[i][j] == if i * c + j < |a| then a[i * c + j] else RowMajor(v, r, c)[i][j]
  {
    RowMajorAt(v, r, c, i, j);
    RowMajorAt(CopyPrefix(v, a), r, c, i, j);
  }

  // ---------------------------------------------------------------------
  // The matrix

  class Matrix {
    var rows: nat
    var cols: nat
    var vec: seq<int>

    /** The storage holds exactly rows * cols elements. */
    ghost predicate Valid()
      reads this
    {
      |vec| == rows * cols
    }

    /** The matrix as rows: element (i, j) is vec[i * cols + j]. */
    ghost function Elements(): Grid
      reads this
      requires Valid()
    {
      RowMajor(vec, rows, cols)
    }

    /** MMatrix(): the 0x0 matrix with empty storage. */
    constructor Empty()
      ensures Valid() && rows == 0 && cols == 0 && vec == []
    {
      rows, cols, vec := 0, 0, [];
    }

    /** MMatrix(r, c, t): an r x c matrix with every element t; t defaults to zero. */
    constructor (r: nat, c: nat, t: int := 0)
      ensures Valid() && rows == r && cols == c
      ensures forall p :: 0 <= p < |vec| ==> vec[p] == t
      ensures forall i, j :: 0 <= i < r && 0 <= j < c ==> Elements()[i][j] == t
    {
      rows, cols, vec := r, c, seq(r * c, _ => t);
      new;
      forall i, j | 0 <= i < r && 0 <= j < c
        ensures Elements()[i][j] == t
      {
        RowMajorAt(vec, r, c, i, j);
      }
    }

    /** rows(): the number of rows; times the number of columns it is the storage size. */
    function Rows(): (r: nat)
      reads this
      requires Valid()
      ensures r * cols == |vec|
    {
      rows
    }

    /** cols(): the number of columns; the number of rows times it is the storage size. */
    function Cols(): (c: nat)
      reads this
      requires Valid()
      ensures rows * c == |vec|
    {
      cols
    }

    /** dim_string(): "<rows>x<cols>", from which the shape reads back. */
    function DimString(): (s: string)
      reads this
      ensures ParseDim(s) == Decimal.Some((rows, cols, ""))
    {
      DimText(rows, cols)
    }

    /** operator=(initializer_list): overwrite a prefix of the storage; the shape never changes. */
    method Assign(a: seq<int>)
      requires Valid()
      modifies this
      ensures Valid() && rows == old(rows) && cols == old(cols)
      ensures vec == CopyPrefix(old(vec), a)
    {
      vec := CopyPrefix(vec, a);
    }

    /** Const operator()(row, col): the element at flat offset cols * row + col, unchecked in the source. */
    function At(row: nat, col: nat): (x: int)
      reads this
      requires Valid() && row < rows && col < cols
      ensures x == Elements()[row][col]
    {
      RowMajorAt(vec, rows, cols, row, col);
      vec[cols * row + col]
    }

    /** Writing through the reference that the non-const operator()(row, col) returns. */
    method Set(row: nat, col: nat, x: int)
      requires Valid() && row < rows && col < cols
      modifies this
      ensures Valid() && rows == old(rows) && cols == old(cols)
      ensures cols * row + col < |vec| && vec == old(vec)[cols * row + col := x]
      ensures Elements() == old(Elements())[row := old(Elements())[row][col := x]]
    {
      RowMajorUpdate(vec, rows, cols, row, col, x);
      vec := vec[cols * row + col := x];
    }

    /** transpose(): a new cols x rows matrix with element (j, i) equal to element (i, j) of this one. */
    method Transpose() returns (t: Matrix)
      requires Valid()
      ensures fresh(t) && t.Valid() && t.rows == cols && t.cols == rows
      ensures t.Elements() == Transposed(Elements(), rows, cols)
    {
      t := new Matrix(cols, rows, 0);
      ghost var g := Elements();
      for i := 0 to rows
        invariant t.Valid() && t.rows == cols && t.cols == rows
        invariant TransposedBefore(t.Elements(), g, rows, cols, i, 0)
      {
        for j := 0 to cols
          invariant t.Valid() && t.rows == cols && t.cols == rows
          invariant TransposedBefore(t.Elements(), g, rows, cols, i, j)
        {
          RowMajorAt(vec, rows, cols, i, j);
          t.Set(j, i, vec[i * cols + j]);
        }
        TransposedBeforeNextRow(t.Elements(), g, rows, cols, i);
      }
      TransposedByElements(g, rows, cols, t.Elements());
    }

    /** operator*=: the product with rhs goes to a temporary, which then replaces this matrix. */
    method MulAssign(rhs: Matrix) returns (r: Result<Matrix>)
      requires Valid() && rhs.Valid()
      requires cols == rhs.rows ==> WritesInBounds(rows, cols, rhs.cols, rows)
      modifies this
      ensures r.Err? <==> old(cols) != old(rhs.rows)
      ensures r.Err? ==> r.message == MismatchMessage(old(rows), old(cols), old(rhs.rows), old(rhs.cols))
      ensures r.Err? ==> unchanged(this)
      ensures r.Ok? ==> r.value == this && Valid() && rows == old(rows) && cols == old(rhs.cols)
      ensures r.Ok? ==> vec == KernelOutput(old(vec), old(rows), old(cols), old(rhs.vec), old(rhs.cols), old(rows))
      ensures r.Ok? && StridesAgree(old(rows), old(cols), old(rhs.cols)) ==>
        Elements() == MatMul(old(Elements()), old(rhs.Elements()), old(rows), old(cols), old(rhs.cols))
    {
      var product := Multiply(this, rhs);
      match product {
        case Err(message) =>
          r := Err(message);
        case Ok(result) =>
          rows, cols, vec := result.rows, result.cols, result.vec;
          r := Ok(this);
      }
    }
  }

  // ---------------------------------------------------------------------
  // Multiplication

  /**
   * The innermost j loop of operator*: adds a times the rhs row that starts
   * at kc to the output row that starts at ir.
   */
  method AddScaledRow(result: Matrix, ir: nat, a: int, rhs: Matrix, kc: nat)
    requires result != rhs
    requires kc + rhs.cols <= |rhs.vec|
    requires rhs.cols > 0 ==> ir + rhs.cols <= |result.vec|
    modifies result`vec
    ensures result.vec == InnerLoop(old(result.vec), ir, a, rhs.vec, kc, rhs.cols)
  {
    ghost var before := result.vec;
    for j := 0 to rhs.cols
      invariant result.vec == InnerLoop(before, ir, a, rhs.vec, kc, j)
    {
      InnerLoopStep(before, ir, a, rhs.vec, kc, j, result.vec);
      result.vec := result.vec[ir + j := result.vec[ir + j] + a * rhs.vec[kc + j]];
    }
  }

  /**
   * The k loop of operator* for one output row: for each k, adds element k
   * of the lhs row that starts at ic times row k of rhs to the output row
   * that starts at ir.
   */
  method AccumulateRow(result: Matrix, lhs: Matrix, rhs: Matrix, ic: nat, ir: nat)
    requires result != lhs && result != rhs
    requires rhs.Valid() && lhs.cols == rhs.rows && ic + lhs.cols <= |lhs.vec|
    requires lhs.cols > 0 && rhs.cols > 0 ==> ir + rhs.cols <= |result.vec|
    modifies result`vec
    ensures lhs.cols * rhs.cols <= |rhs.vec|
    ensures result.vec == MiddleLoop(old(result.vec), lhs.vec, ic, rhs.vec, rhs.cols, ir, lhs.cols)
  {
    ghost var rowStart := result.vec;
    for k := 0 to lhs.cols
      invariant k * rhs.cols <= lhs.cols * rhs.cols
      invariant result.vec == MiddleLoop(rowStart, lhs.vec, ic, rhs.vec, rhs.cols, ir, k)
    {
      var kc := k * rhs.cols;
      RowEndBound(k, lhs.cols, rhs.cols);
      AddScaledRow(result, ir, lhs.vec[ic + k], rhs, kc);
      MiddleLoopStep(rowStart, lhs.vec, ic, rhs.vec, rhs.cols, ir, k, kc);
    }
  }

  /**
   * The i, k, j triple loop of operator*: accumulates lhs * rhs into the
   * zero result, output row i starting at flat offset i * stride.
   */
  method Accumulate(result: Matrix, lhs: Matrix, rhs: Matrix, stride: nat)
    requires lhs.Valid() && rhs.Valid() && lhs.cols == rhs.rows
    requires result != lhs && result != rhs
    requires result.rows == lhs.rows && result.cols == rhs.cols && result.vec == Zeros(lhs.rows * rhs.cols)
    requires WritesInBounds(lhs.rows, lhs.cols, rhs.cols, stride)
    modifies result`vec
    ensures result.Valid()
    ensures result.vec == KernelOutput(lhs.vec, lhs.rows, lhs.cols, rhs.vec, rhs.cols, stride)
  {
    for i := 0 to lhs.rows
      invariant result.vec == OuterLoop(lhs.vec, lhs.rows, lhs.cols, rhs.vec, rhs.cols, stride, i)
    {
      KernelRowBounds(lhs.rows, lhs.cols, rhs.cols, stride, i);
      AccumulateRow(result, lhs, rhs, i * lhs.cols, i * stride);
    }
  }

  /**
   * operator*(lhs, rhs) as written: output row i starts at i * lhs.rows
   * rather than at the row-major offset i * rhs.cols. The output is still
   * the product when StridesAgree holds. Every write must stay inside the
   * result.
   */
  method Multiply(lhs: Matrix, rhs: Matrix) returns (r: Result<Matrix>)
    requires lhs.Valid() && rhs.Valid()
    requires lhs.cols == rhs.rows ==> WritesInBounds(lhs.rows, lhs.cols, rhs.cols, lhs.rows)
    ensures r.Err? <==> lhs.cols != rhs.rows
    ensures r.Err? ==> r.message == MismatchMessage(lhs.rows, lhs.cols, rhs.rows, rhs.cols)
    ensures r.Ok? ==> fresh(r.value) && r.value.Valid() && r.value.rows == lhs.rows && r.value.cols == rhs.cols
    ensures r.Ok? ==> r.value.vec == KernelOutput(lhs.vec, lhs.rows, lhs.cols, rhs.vec, rhs.cols, lhs.rows)
    ensures r.Ok? && StridesAgree(lhs.rows, lhs.cols, rhs.cols) ==>
      r.value.Elements() == MatMul(lhs.Elements(), rhs.Elements(), lhs.rows, lhs.cols, rhs.cols)
  {
    if lhs.cols != rhs.rows {
      return Err(MismatchPrefix + (lhs.DimString() + (MismatchMiddle + rhs.DimString())));
    }
    var result := new Matrix(lhs.rows, rhs.cols, 0);
    Accumulate(result, lhs, rhs, lhs.rows);
    if StridesAgree(lhs.rows, lhs.cols, rhs.cols) {
      AsWrittenComputesProduct(lhs.vec, lhs.rows, lhs.cols, rhs.vec, rhs.cols);
    }
    return Ok(result);
  }

  /** operator* with output row i at the row-major offset i * rhs.cols: the product for every compatible shape. */
  method MultiplyRowMajor(lhs: Matrix, rhs: Matrix) returns (r: Result<Matrix>)
    requires lhs.Valid() && rhs.Valid()
    ensures r.Err? <==> lhs.cols != rhs.rows
    ensures r.Err? ==> r.message == MismatchMessage(lhs.rows, lhs.cols, rhs.rows, rhs.cols)
    ensures r.Ok? ==> fresh(r.value) && r.value.Valid() && r.value.rows == lhs.rows && r.value.cols == rhs.cols
    ensures r.Ok? ==> r.value.Elements() == MatMul(lhs.Elements(), rhs.Elements(), lhs.rows, lhs.cols, rhs.cols)
  {
    if lhs.cols != rhs.rows {
      return Err(MismatchPrefix + (lhs.DimString() + (MismatchMiddle + rhs.DimString())));
    }
    var result := new Matrix(lhs.rows, rhs.cols, 0);
    RowMajorStrideInBounds(lhs.rows, lhs.cols, rhs.cols);
    Accumulate(result, lhs, rhs, rhs.cols);
    KernelComputesProduct(lhs.vec, lhs.rows, lhs.cols, rhs.vec, rhs.cols);
    return Ok(result);
  }
}
