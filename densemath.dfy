/**
 * The mathematical meaning of a dense matrix, independent of storage: a
 * matrix is a sequence of rows, the product is the sum-of-products
 * definition and the transpose swaps indices. The row-major layout of the
 * storage vector is a pair of inverse functions (RowMajor, Flatten) between
 * the flat vector and the rows.
 */
module DenseMath {

  type Grid = seq<seq<int>>

  ghost predicate HasShape(g: Grid, r: nat, c: nat) {
    |g| == r && forall i :: 0 <= i < r ==> |g[i]| == c
  }

  // ---------------------------------------------------------------------
  // Row-major index arithmetic

  lemma MulMonotone(a: nat, b: nat, c: nat)
    requires a <= b
    ensures a * c <= b * c
  {
  }

  /** Flat offset c*i + j of element (i, j) of an r x c matrix is inside the storage. */
  lemma RowMajorIndexBound(i: nat, j: nat, r: nat, c: nat)
    requires i < r && j < c
    ensures i * c + j < r * c
  {
    MulMonotone(i + 1, r, c);
  }

  /** Element (i, j) sits in the c-wide row that starts at q*c exactly when i == q. */
  lemma RowOfIndex(i: nat, j: nat, q: nat, c: nat)
    requires j < c
    ensures q * c <= i * c + j < q * c + c <==> i == q
  {
    if i < q {
      MulMonotone(i + 1, q, c);
    } else if q < i {
      MulMonotone(q + 1, i, c);
    }
  }

  /** Distinct (i, j) with j < c have distinct flat offsets. */
  lemma RowMajorIndexInjective(i: nat, j: nat, i2: nat, j2: nat, c: nat)
    requires j < c && j2 < c
    requires i * c + j == i2 * c + j2
    ensures i == i2 && j == j2
  {
    RowOfIndex(i, j, i2, c);
  }

  // ---------------------------------------------------------------------
  // Row-major layout

  lemma RowEndBound(i: nat, r: nat, c: nat)
    requires i < r
    ensures i * c + c <= r * c
  {
    MulMonotone(i + 1, r, c);
  }

  /** Row i of an r x c matrix whose storage is v in row-major order. */
  function RowOf(v: seq<int>, r: nat, c: nat, i: nat): (row: seq<int>)
    requires |v| == r * c && i < r
    ensures |row| == c
  {
    RowEndBound(i, r, c);
    v[i * c .. i * c + c]
  }

  /** The rows of an r x c matrix whose storage is v in row-major order. */
  function RowMajor(v: seq<int>, r: nat, c: nat): (g: Grid)
    requires |v| == r * c
    ensures HasShape(g, r, c)
    ensures forall i :: 0 <= i < r ==> g[i] == RowOf(v, r, c, i)
  {
    seq(r, i requires 0 <= i < r => RowOf(v, r, c, i))
  }

  /** Element (i, j) of the matrix is the value at flat offset i*c + j of its storage. */
  lemma RowMajorAt(v: seq<int>, r: nat, c: nat, i: nat, j: nat)
    requires |v| == r * c && i < r && j < c
    ensures i * c + j < |v| && RowMajor(v, r, c)[i][j] == v[i * c + j]
  {
    RowEndBound(i, r, c);
    var row := RowOf(v, r, c, i);
    assert RowMajor(v, r, c)[i] == row;
    assert row == v[i * c .. i * c + c];
  }

  /** The first row is the first c values; the other rows are the rows of the rest. */
  lemma RowMajorSplit(v: seq<int>, r: nat, c: nat)
    requires |v| == r * c && r > 0
    ensures |v[c..]| == (r - 1) * c
    ensures RowMajor(v, r, c) == [v[..c]] + RowMajor(v[c..], r - 1, c)
  {
    assert r * c == (r - 1) * c + c;
    var g := RowMajor(v, r, c);
    var h := [v[..c]] + RowMajor(v[c..], r - 1, c);
    forall i | 1 <= i < r
      ensures g[i] == h[i]
    {
      forall j | 0 <= j < c
        ensures g[i][j] == h[i][j]
      {
        RowMajorAt(v, r, c, i, j);
        RowMajorAt(v[c..], r - 1, c, i - 1, j);
        assert c + ((i - 1) * c + j) == i * c + j;
      }
    }
    assert g[0] == h[0];
  }

  /** The storage vector of a matrix given by rows: the rows concatenated. */
  function Flatten(g: Grid): seq<int> {
    if g == [] then [] else g[0] + Flatten(g[1..])
  }

  lemma {:induction false} FlattenLength(g: Grid, r: nat, c: nat)
    requires HasShape(g, r, c)
    ensures |Flatten(g)| == r * c
    decreases r
  {
    if r > 0 {
      FlattenLength(g[1..], r - 1, c);
      assert r * c == (r - 1) * c + c;
    }
  }

  /** Reading storage as rows and writing the rows back gives the storage. */
  lemma {:induction false} FlattenRowMajor(v: seq<int>, r: nat, c: nat)
    requires |v| == r * c
    ensures Flatten(RowMajor(v, r, c)) == v
    decreases r
  {
    if r > 0 {
      RowMajorSplit(v, r, c);
      FlattenRowMajor(v[c..], r - 1, c);
      assert v[..c] + v[c..] == v;
    }
  }

  /** Writing rows to storage and reading them back gives the rows. */
  lemma {:induction false} RowMajorFlatten(g: Grid, r: nat, c: nat)
    requires HasShape(g, r, c)
    ensures |Flatten(g)| == r * c && RowMajor(Flatten(g), r, c) == g
    decreases r
  {
    FlattenLength(g, r, c);
    if r > 0 {
      RowMajorFlatten(g[1..], r - 1, c);
      var f := Flatten(g);
      assert f[..c] == g[0] && f[c..] == Flatten(g[1..]);
      RowMajorSplit(f, r, c);
      assert [g[0]] + g[1..] == g;
    }
  }

  /** Two storage vectors of the same shape hold the same matrix only if they are equal. */
  lemma RowMajorInjective(v: seq<int>, w: seq<int>, r: nat, c: nat)
    requires |v| == r * c && |w| == r * c
    requires RowMajor(v, r, c) == RowMajor(w, r, c)
    ensures v == w
  {
    FlattenRowMajor(v, r, c);
    FlattenRowMajor(w, r, c);
  }

  lemma UpdatedElement(v: seq<int>, r: nat, c: nat, i: nat, j: nat, x: int, i2: nat, j2: nat)
    requires |v| == r * c && i < r && j < c && i2 < r && j2 < c
    ensures i * c + j < |v|
    ensures RowMajor(v[i * c + j := x], r, c)[i2][j2] == if i2 == i && j2 == j then x else RowMajor(v, r, c)[i2][j2]
  {
    RowMajorIndexBound(i, j, r, c);
    RowMajorIndexBound(i2, j2, r, c);
    var w := v[i * c + j := x];
    if i2 == i && j2 == j {
      RowMajorAt(w, r, c, i, j);
    } else {
      assert i2 * c + j2 != i * c + j by {
        if i2 * c + j2 == i * c + j {
          RowMajorIndexInjective(i2, j2, i, j, c);
        }
      }
      SameElement(v, w, r, c, i2, j2);
    }
  }

  /** Two storage vectors that agree at flat offset i*c + j hold the same element (i, j). */
  lemma SameElement(v: seq<int>, w: seq<int>, r: nat, c: nat, i: nat, j: nat)
    requires |v| == r * c && |w| == r * c && i < r && j < c
    requires i * c + j < |v| && w[i * c + j] == v[i * c + j]
    ensures RowMajor(w, r, c)[i][j] == RowMajor(v, r, c)[i][j]
  {
    RowMajorAt(v, r, c, i, j);
    RowMajorAt(w, r, c, i, j);
  }

  /** Writing x at flat offset i*c + j changes element (i, j) of the matrix and nothing else. */
  lemma RowMajorUpdate(v: seq<int>, r: nat, c: nat, i: nat, j: nat, x: int)
    requires |v| == r * c && i < r && j < c
    ensures i * c + j < |v|
    ensures RowMajor(v[i * c + j := x], r, c) == RowMajor(v, r, c)[i := RowMajor(v, r, c)[i][j := x]]
  {
    RowMajorIndexBound(i, j, r, c);
    var g := RowMajor(v, r, c);
    var h := RowMajor(v[i * c + j := x], r, c);
    var e := g[i := g[i][j := x]];
    forall i2 | 0 <= i2 < r
      ensures h[i2] == e[i2]
    {
      forall j2 | 0 <= j2 < c
        ensures h[i2][j2] == e[i2][j2]
      {
        UpdatedElement(v, r, c, i, j, x, i2, j2);
      }
    }
  }

  // ---------------------------------------------------------------------
  // Product and transpose

  /** Sum over k < n of a[i][k] * b[k][j]. */
  ghost function Dot(a: Grid, b: Grid, i: nat, j: nat, n: nat): int
    requires i < |a| && n <= |a[i]| && n <= |b|
    requires forall k :: 0 <= k < n ==> j < |b[k]|
  {
    if n == 0 then 0 else Dot(a, b, i, j, n - 1) + a[i][n - 1] * b[n - 1][j]
  }

  /** The n x p product of the n x m matrix a and the m x p matrix b. */
  ghost function MatMul(a: Grid, b: Grid, n: nat, m: nat, p: nat): (g: Grid)
    requires HasShape(a, n, m) && HasShape(b, m, p)
    ensures HasShape(g, n, p)
  {
    seq(n, i requires 0 <= i < n => seq(p, j requires 0 <= j < p => Dot(a, b, i, j, m)))
  }

  /** The c x r transpose of the r x c matrix g. */
  ghost function Transposed(g: Grid, r: nat, c: nat): (t: Grid)
    requires HasShape(g, r, c)
    ensures HasShape(t, c, r)
  {
    seq(c, j requires 0 <= j < c => seq(r, i requires 0 <= i < r => g[i][j]))
  }

  /**
   * t is the transpose of g in the elements (i, j) that come before (row, col)
   * in row-major order, and zero elsewhere: the state of a transpose filled
   * row by row.
   */
  ghost predicate TransposedBefore(t: Grid, g: Grid, r: nat, c: nat, row: nat, col: nat)
    requires HasShape(g, r, c) && HasShape(t, c, r)
  {
    forall i, j {:trigger t[j][i]} :: 0 <= i < r && 0 <= j < c ==>
      t[j][i] == if i < row || (i == row && j < col) then g[i][j] else 0
  }

  lemma TransposedBeforeNextRow(t: Grid, g: Grid, r: nat, c: nat, row: nat)
    requires HasShape(g, r, c) && HasShape(t, c, r)
    requires TransposedBefore(t, g, r, c, row, c)
    ensures TransposedBefore(t, g, r, c, row + 1, 0)
  {
    forall i, j | 0 <= i < r && 0 <= j < c
      ensures t[j][i] == if i < row + 1 || (i == row + 1 && j < 0) then g[i][j] else 0
    {
    }
  }

  /** A c x r matrix whose element (j, i) is element (i, j) of g is the transpose of g. */
  lemma TransposedByElements(g: Grid, r: nat, c: nat, t: Grid)
    requires HasShape(g, r, c) && HasShape(t, c, r)
    requires TransposedBefore(t, g, r, c, r, 0)
    ensures t == Transposed(g, r, c)
  {
    var e := Transposed(g, r, c);
    assert forall j :: 0 <= j < c ==> t[j] == e[j];
  }

  lemma TransposeTwice(g: Grid, r: nat, c: nat)
    requires HasShape(g, r, c)
    ensures Transposed(Transposed(g, r, c), c, r) == g
  {
    var t := Transposed(Transposed(g, r, c), c, r);
    assert forall i :: 0 <= i < r ==> t[i] == g[i];
  }

  /** The 2x3 by 3x2 product of the demonstration driver. */
  lemma DemoProduct()
    ensures MatMul([[1, 2, 3], [4, 5, 6]], [[7, 10], [8, 11], [9, 12]], 2, 3, 2) == [[50, 68], [122, 167]]
  {
    var a: Grid := [[1, 2, 3], [4, 5, 6]];
    var b: Grid := [[7, 10], [8, 11], [9, 12]];
    assert Dot(a, b, 0, 0, 3) == 50;
    assert Dot(a, b, 0, 1, 3) == 68;
    assert Dot(a, b, 1, 0, 3) == 122;
    assert Dot(a, b, 1, 1, 3) == 167;
    var g := MatMul(a, b, 2, 3, 2);
    assert g[0] == [50, 68] && g[1] == [122, 167];
  }
}
