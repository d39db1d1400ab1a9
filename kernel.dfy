/**
 * The multiplication kernel of MMatrix, loop by loop, on flat row-major
 * storage. Output row i starts at flat offset i * stride. The source
 * passes stride = lhs.rows; row-major layout needs stride = rhs.cols. The
 * two give the same output when lhs.rows == rhs.cols, when there is at most
 * one output row (its offset is 0 either way) and when a loop over k or j is
 * empty (nothing is written).
 *
 *   for i < lrows:                ir := i * stride; ic := i * lcols
 *     for k < lcols:              kc := k * rcols
 *       for j < rcols:            acc[ir + j] += lv[ic + k] * rv[kc + j]
 *
 * InnerLoop, MiddleLoop and OuterLoop give the value of the accumulator
 * after the first n passes of the j, k and i loop respectively. InnerLoop
 * and MiddleLoop carry their closed forms as postconditions; the closed form
 * of OuterLoop holds for the row-major stride only and is the lemma
 * OuterLoopEntry.
 */
module Kernel {
  import opened DenseMath

  function Zeros(n: nat): (z: seq<int>)
    ensures |z| == n && forall p :: 0 <= p < n ==> z[p] == 0
  {
    seq(n, _ => 0)
  }

  /** Flat offset the kernel writes for output element (i, j). */
  function WriteOffset(i: nat, j: nat, stride: nat): nat {
    i * stride + j
  }

  /** Every write of the kernel lands inside the lrows x rcols result (with lcols == 0 nothing is written). */
  ghost predicate WritesInBounds(lrows: nat, lcols: nat, rcols: nat, stride: nat) {
    lcols > 0 ==> forall i, j :: 0 <= i < lrows && 0 <= j < rcols ==> WriteOffset(i, j, stride) < lrows * rcols
  }

  /** The writes stay in bounds exactly when the last row's last write does. */
  lemma WritesInBoundsIff(lrows: nat, lcols: nat, rcols: nat, stride: nat)
    ensures WritesInBounds(lrows, lcols, rcols, stride)
        <==> lrows == 0 || lcols == 0 || rcols == 0 || (lrows - 1) * stride + rcols <= lrows * rcols
  {
    if lrows > 0 && lcols > 0 && rcols > 0 {
      if (lrows - 1) * stride + rcols <= lrows * rcols {
        forall i, j | 0 <= i < lrows && 0 <= j < rcols
          ensures WriteOffset(i, j, stride) < lrows * rcols
        {
          MulMonotone(i, lrows - 1, stride);
        }
      } else {
        assert WriteOffset(lrows - 1, rcols - 1, stride) >= lrows * rcols;
      }
    }
  }

  /** With the row-major stride (rhs.cols) every write is in bounds. */
  lemma RowMajorStrideInBounds(lrows: nat, lcols: nat, rcols: nat)
    ensures WritesInBounds(lrows, lcols, rcols, rcols)
  {
    WritesInBoundsIff(lrows, lcols, rcols, rcols);
    if lrows > 0 {
      assert (lrows - 1) * rcols + rcols == lrows * rcols;
    }
  }

  /** With the stride the source uses (lhs.rows) the writes stay in bounds exactly when lhs.rows <= rhs.cols. */
  lemma AsWrittenInBoundsIff(lrows: nat, lcols: nat, rcols: nat)
    ensures WritesInBounds(lrows, lcols, rcols, lrows) <==> lrows == 0 || lcols == 0 || rcols == 0 || lrows <= rcols
  {
    WritesInBoundsIff(lrows, lcols, rcols, lrows);
    if lrows > 0 && lcols > 0 && rcols > 0 {
      var last := lrows - 1;
      assert lrows * rcols == last * rcols + rcols;
      if lrows <= rcols {
        MulMonotone(lrows, rcols, last);
        assert last * lrows <= last * rcols;
      } else {
        MulMonotone(rcols + 1, lrows, last);
        assert last * lrows >= last * rcols + last && last > 0;
      }
    }
  }

  /** Sum over k < m of lv[ic + k] * rv[k * rcols + j]: the first m terms of an output entry. */
  ghost function RowDot(lv: seq<int>, ic: nat, rv: seq<int>, rcols: nat, j: nat, m: nat): int
    requires ic + m <= |lv| && j < rcols && m * rcols <= |rv|
  {
    if m == 0 then 0
    else
      RowEndBound(m - 1, m, rcols);
      RowDot(lv, ic, rv, rcols, j, m - 1) + lv[ic + m - 1] * rv[(m - 1) * rcols + j]
  }

  /** The first n passes of the j loop for a fixed (i, k): acc[ir + j] += a * rv[kc + j]. */
  ghost function InnerLoop(acc: seq<int>, ir: nat, a: int, rv: seq<int>, kc: nat, n: nat): (r: seq<int>)
    requires n > 0 ==> ir + n <= |acc| && kc + n <= |rv|
    ensures |r| == |acc|
    ensures forall p :: 0 <= p < |acc| ==> r[p] == acc[p] + (if ir <= p < ir + n then a * rv[kc + (p - ir)] else 0)
    decreases n
  {
    if n == 0 then acc
    else
      var s := InnerLoop(acc, ir, a, rv, kc, n - 1);
      s[ir + n - 1 := s[ir + n - 1] + a * rv[kc + n - 1]]
  }

  /** The first m passes of the k loop for output row i, whose left-hand row starts at ic and output row at ir. */
  ghost function MiddleLoop(acc: seq<int>, lv: seq<int>, ic: nat, rv: seq<int>, rcols: nat, ir: nat, m: nat): (r: seq<int>)
    requires ic + m <= |lv| && m * rcols <= |rv|
    requires m > 0 && rcols > 0 ==> ir + rcols <= |acc|
    ensures |r| == |acc|
    ensures forall p :: 0 <= p < |acc| ==>
      r[p] == acc[p] + (if ir <= p < ir + rcols then RowDot(lv, ic, rv, rcols, p - ir, m) else 0)
    decreases m
  {
    if m == 0 then acc
    else
      RowEndBound(m - 1, m, rcols);
      var s := MiddleLoop(acc, lv, ic, rv, rcols, ir, m - 1);
      InnerLoop(s, ir, lv[ic + m - 1], rv, (m - 1) * rcols, rcols)
  }

  lemma KernelRowBounds(lrows: nat, lcols: nat, rcols: nat, stride: nat, i: nat)
    requires WritesInBounds(lrows, lcols, rcols, stride) && i < lrows
    ensures i * lcols + lcols <= lrows * lcols
    ensures lcols > 0 && rcols > 0 ==> i * stride + rcols <= lrows * rcols
  {
    RowEndBound(i, lrows, lcols);
    if lcols > 0 && rcols > 0 {
      assert WriteOffset(i, rcols - 1, stride) < lrows * rcols;
    }
  }

  /** One pass of the j loop extends InnerLoop by one step. */
  lemma InnerLoopStep(acc: seq<int>, ir: nat, a: int, rv: seq<int>, kc: nat, n: nat, cur: seq<int>)
    requires ir + n < |acc| && kc + n < |rv|
    requires cur == InnerLoop(acc, ir, a, rv, kc, n)
    ensures ir + n < |cur|
    ensures cur[ir + n := cur[ir + n] + a * rv[kc + n]] == InnerLoop(acc, ir, a, rv, kc, n + 1)
  {
  }

  /** A full j loop for pass k extends MiddleLoop by one step. */
  lemma MiddleLoopStep(acc: seq<int>, lv: seq<int>, ic: nat, rv: seq<int>, rcols: nat, ir: nat, k: nat, kc: nat)
    requires ic + k < |lv| && kc == k * rcols && kc + rcols <= |rv|
    requires rcols > 0 ==> ir + rcols <= |acc|
    ensures k * rcols <= |rv| && (k + 1) * rcols <= |rv|
    ensures MiddleLoop(acc, lv, ic, rv, rcols, ir, k + 1)
         == InnerLoop(MiddleLoop(acc, lv, ic, rv, rcols, ir, k), ir, lv[ic + k], rv, kc, rcols)
  {
    assert (k + 1) * rcols == kc + rcols;
  }

  /** The accumulator after the first n passes of the i loop, starting from the zero result. */
  ghost function OuterLoop(lv: seq<int>, lrows: nat, lcols: nat, rv: seq<int>, rcols: nat, stride: nat, n: nat): (r: seq<int>)
    requires |lv| == lrows * lcols && |rv| == lcols * rcols && n <= lrows
    requires WritesInBounds(lrows, lcols, rcols, stride)
    ensures |r| == lrows * rcols
    decreases n
  {
    if n == 0 then Zeros(lrows * rcols)
    else
      KernelRowBounds(lrows, lcols, rcols, stride, n - 1);
      MiddleLoop(OuterLoop(lv, lrows, lcols, rv, rcols, stride, n - 1), lv, (n - 1) * lcols, rv, rcols, (n - 1) * stride, lcols)
  }

  /** The whole kernel: the value of result.vec when operator* returns. */
  ghost function KernelOutput(lv: seq<int>, lrows: nat, lcols: nat, rv: seq<int>, rcols: nat, stride: nat): (r: seq<int>)
    requires |lv| == lrows * lcols && |rv| == lcols * rcols
    requires WritesInBounds(lrows, lcols, rcols, stride)
    ensures |r| == lrows * rcols
  {
    OuterLoop(lv, lrows, lcols, rv, rcols, stride, lrows)
  }

  // ---------------------------------------------------------------------
  // With the row-major stride the kernel computes the product

  /** After n passes of the i loop, rows below n hold their full sums of products and the other rows are zero. */
  lemma {:induction false} OuterLoopEntry(lv: seq<int>, lrows: nat, lcols: nat, rv: seq<int>, rcols: nat, n: nat, i: nat, j: nat)
    requires |lv| == lrows * lcols && |rv| == lcols * rcols && n <= lrows
    requires i < lrows && j < rcols
    ensures WritesInBounds(lrows, lcols, rcols, rcols)
    ensures 0 <= i * rcols && 0 <= i * lcols
    ensures i * rcols + j < lrows * rcols && i * lcols + lcols <= |lv|
    ensures OuterLoop(lv, lrows, lcols, rv, rcols, rcols, n)[i * rcols + j]
         == if i < n then RowDot(lv, i * lcols, rv, rcols, j, lcols) else 0
    decreases n
  {
    RowMajorStrideInBounds(lrows, lcols, rcols);
    EntryBounds(lrows, lcols, rcols, i, lcols, i, j);
    var p := i * rcols + j;
    if n == 0 {
      assert OuterLoop(lv, lrows, lcols, rv, rcols, rcols, 0)[p] == Zeros(lrows * rcols)[p];
    } else {
      var q := n - 1;
      OuterLoopEntry(lv, lrows, lcols, rv, rcols, q, i, j);
      OuterLoopStep(lv, lrows, lcols, rv, rcols, q, i, j);
      var before := OuterLoop(lv, lrows, lcols, rv, rcols, rcols, q)[p];
      var full := RowDot(lv, i * lcols, rv, rcols, j, lcols);
      assert before == if i < q then full else 0;
      assert OuterLoop(lv, lrows, lcols, rv, rcols, rcols, q + 1)[p] == before + if i == q then full else 0;
    }
  }

  /** Pass q of the i loop adds the sums of products of row q to output row q and leaves the other rows alone. */
  lemma OuterLoopStep(lv: seq<int>, lrows: nat, lcols: nat, rv: seq<int>, rcols: nat, q: nat, i: nat, j: nat)
    requires |lv| == lrows * lcols && |rv| == lcols * rcols && q < lrows
    requires i < lrows && j < rcols
    ensures WritesInBounds(lrows, lcols, rcols, rcols)
    ensures 0 <= i * rcols && 0 <= i * lcols
    ensures i * rcols + j < lrows * rcols && i * lcols + lcols <= |lv|
    ensures OuterLoop(lv, lrows, lcols, rv, rcols, rcols, q + 1)[i * rcols + j]
         == OuterLoop(lv, lrows, lcols, rv, rcols, rcols, q)[i * rcols + j]
            + if i == q then RowDot(lv, i * lcols, rv, rcols, j, lcols) else 0
  {
    RowMajorStrideInBounds(lrows, lcols, rcols);
    EntryBounds(lrows, lcols, rcols, i, lcols, i, j);
    KernelRowBounds(lrows, lcols, rcols, rcols, q);
    var prev := OuterLoop(lv, lrows, lcols, rv, rcols, rcols, q);
    assert OuterLoop(lv, lrows, lcols, rv, rcols, rcols, q + 1) == MiddleLoop(prev, lv, q * lcols, rv, rcols, q * rcols, lcols);
    MiddleLoopRowEntry(prev, lrows, lv, q * lcols, rv, rcols, q, lcols, i, j);
  }

  /** The k loop for output row i changes only row i of an lrows-row result. */
  lemma MiddleLoopRowEntry(acc: seq<int>, lrows: nat, lv: seq<int>, ic: nat, rv: seq<int>, rcols: nat, i: nat, m: nat, i2: nat, j: nat)
    requires |acc| == lrows * rcols && ic + m <= |lv| && m * rcols <= |rv|
    requires i < lrows && i2 < lrows && j < rcols
    ensures i * rcols + rcols <= |acc| && i2 * rcols + j < |acc|
    ensures MiddleLoop(acc, lv, ic, rv, rcols, i * rcols, m)[i2 * rcols + j]
         == acc[i2 * rcols + j] + if i2 == i then RowDot(lv, ic, rv, rcols, j, m) else 0
  {
    RowEndBound(i, lrows, rcols);
    RowMajorIndexBound(i2, j, lrows, rcols);
    var ir, p := i * rcols, i2 * rcols + j;
    MiddleLoopAt(acc, lv, ic, rv, rcols, ir, m, p);
    if i2 == i {
      assert ir <= p < ir + rcols && p - ir == j;
    } else {
      assert !(ir <= p < ir + rcols) by {
        RowOfIndex(i2, j, i, rcols);
      }
    }
  }

  lemma MiddleLoopAt(acc: seq<int>, lv: seq<int>, ic: nat, rv: seq<int>, rcols: nat, ir: nat, m: nat, p: nat)
    requires ic + m <= |lv| && m * rcols <= |rv| && ir + rcols <= |acc| && p < |acc|
    ensures MiddleLoop(acc, lv, ic, rv, rcols, ir, m)[p]
         == acc[p] + if ir <= p < ir + rcols then RowDot(lv, ic, rv, rcols, p - ir, m) else 0
  {
  }

  /** The accumulator after the rows before i and the first k passes of the k loop for row i, with the row-major stride. */
  ghost function RowPass(lv: seq<int>, lrows: nat, lcols: nat, rv: seq<int>, rcols: nat, i: nat, k: nat): (r: seq<int>)
    requires |lv| == lrows * lcols && |rv| == lcols * rcols
    requires i < lrows && k <= lcols
    ensures |r| == lrows * rcols
  {
    RowMajorStrideInBounds(lrows, lcols, rcols);
    KernelRowBounds(lrows, lcols, rcols, rcols, i);
    MulMonotone(k, lcols, rcols);
    MiddleLoop(OuterLoop(lv, lrows, lcols, rv, rcols, rcols, i), lv, i * lcols, rv, rcols, i * rcols, k)
  }

  /**
   * The invariant of the i, k, j loops: after k passes of the k loop for
   * row i, the rows before i are complete, row i holds the sums over the
   * first k terms and the rows after i are still zero.
   */
  lemma PartialSums(lv: seq<int>, lrows: nat, lcols: nat, rv: seq<int>, rcols: nat, i: nat, k: nat, i2: nat, j: nat)
    requires |lv| == lrows * lcols && |rv| == lcols * rcols
    requires i < lrows && k <= lcols && i2 < lrows && j < rcols
    ensures 0 <= i * lcols && 0 <= i2 * lcols && 0 <= i * rcols && 0 <= i2 * rcols
    ensures i * lcols + k <= |lv| && i2 * lcols + lcols <= |lv| && k * rcols <= |rv| && i2 * rcols + j < lrows * rcols
    ensures RowPass(lv, lrows, lcols, rv, rcols, i, k)[i2 * rcols + j]
         == if i2 < i then RowDot(lv, i2 * lcols, rv, rcols, j, lcols)
            else if i2 == i then RowDot(lv, i * lcols, rv, rcols, j, k)
            else 0
  {
    EntryBounds(lrows, lcols, rcols, i, k, i2, j);
    OuterLoopEntry(lv, lrows, lcols, rv, rcols, i, i2, j);
    var prev := OuterLoop(lv, lrows, lcols, rv, rcols, rcols, i);
    assert RowPass(lv, lrows, lcols, rv, rcols, i, k) == MiddleLoop(prev, lv, i * lcols, rv, rcols, i * rcols, k);
    MiddleLoopRowEntry(prev, lrows, lv, i * lcols, rv, rcols, i, k, i2, j);
  }

  lemma EntryBounds(lrows: nat, lcols: nat, rcols: nat, i: nat, k: nat, i2: nat, j: nat)
    requires i < lrows && k <= lcols && i2 < lrows && j < rcols
    ensures 0 <= i * lcols && 0 <= i2 * lcols && 0 <= i * rcols && 0 <= i2 * rcols
    ensures i * lcols + k <= lrows * lcols && i2 * lcols + lcols <= lrows * lcols && k * rcols <= lcols * rcols
    ensures i * rcols + rcols <= lrows * rcols && i2 * rcols + j < lrows * rcols
  {
    RowEndBound(i, lrows, lcols);
    RowEndBound(i2, lrows, lcols);
    RowEndBound(i, lrows, rcols);
    RowMajorIndexBound(i2, j, lrows, rcols);
    MulMonotone(k, lcols, rcols);
    MulMonotone(0, i, lcols);
    MulMonotone(0, i2, lcols);
    MulMonotone(0, i, rcols);
    MulMonotone(0, i2, rcols);
  }

  /** The first m terms of an output entry are the first m terms of the sum of products. */
  lemma {:induction false} RowDotIsDot(lv: seq<int>, lrows: nat, lcols: nat, rv: seq<int>, rcols: nat, i: nat, j: nat, m: nat)
    requires |lv| == lrows * lcols && |rv| == lcols * rcols
    requires i < lrows && j < rcols && m <= lcols
    ensures i * lcols + lcols <= |lv| && m * rcols <= |rv|
    ensures RowDot(lv, i * lcols, rv, rcols, j, m)
         == Dot(RowMajor(lv, lrows, lcols), RowMajor(rv, lcols, rcols), i, j, m)
    decreases m
  {
    RowEndBound(i, lrows, lcols);
    MulMonotone(m, lcols, rcols);
    if m > 0 {
      RowDotIsDot(lv, lrows, lcols, rv, rcols, i, j, m - 1);
      RowMajorAt(lv, lrows, lcols, i, m - 1);
      RowMajorAt(rv, lcols, rcols, m - 1, j);
    }
  }

  /** With output rows rcols apart, the kernel computes the matrix product. */
  lemma KernelComputesProduct(lv: seq<int>, lrows: nat, lcols: nat, rv: seq<int>, rcols: nat)
    requires |lv| == lrows * lcols && |rv| == lcols * rcols
    ensures WritesInBounds(lrows, lcols, rcols, rcols)
    ensures RowMajor(KernelOutput(lv, lrows, lcols, rv, rcols, rcols), lrows, rcols)
         == MatMul(RowMajor(lv, lrows, lcols), RowMajor(rv, lcols, rcols), lrows, lcols, rcols)
  {
    RowMajorStrideInBounds(lrows, lcols, rcols);
    var g := RowMajor(KernelOutput(lv, lrows, lcols, rv, rcols, rcols), lrows, rcols);
    var a := RowMajor(lv, lrows, lcols);
    var b := RowMajor(rv, lcols, rcols);
    var e := MatMul(a, b, lrows, lcols, rcols);
    forall i | 0 <= i < lrows
      ensures g[i] == e[i]
    {
      forall j | 0 <= j < rcols
        ensures g[i][j] == e[i][j]
      {
        OuterLoopEntry(lv, lrows, lcols, rv, rcols, lrows, i, j);
        RowMajorAt(KernelOutput(lv, lrows, lcols, rv, rcols, rcols), lrows, rcols, i, j);
        RowDotIsDot(lv, lrows, lcols, rv, rcols, i, j, lcols);
      }
    }
  }

  /** The shapes for which the stride the source uses and the row-major stride give the same output. */
  predicate StridesAgree(lrows: nat, lcols: nat, rcols: nat) {
    lrows == rcols || lrows <= 1 || lcols == 0 || rcols == 0
  }

  /** With no columns on the left nothing is written, whatever the stride. */
  lemma {:induction false} NoColumnsNoWrites(lv: seq<int>, lrows: nat, rv: seq<int>, rcols: nat, stride: nat, n: nat)
    requires |lv| == 0 && |rv| == 0 && n <= lrows
    ensures WritesInBounds(lrows, 0, rcols, stride)
    ensures OuterLoop(lv, lrows, 0, rv, rcols, stride, n) == Zeros(lrows * rcols)
    decreases n
  {
    if n > 0 {
      NoColumnsNoWrites(lv, lrows, rv, rcols, stride, n - 1);
      var prev := OuterLoop(lv, lrows, 0, rv, rcols, stride, n - 1);
      assert OuterLoop(lv, lrows, 0, rv, rcols, stride, n) == MiddleLoop(prev, lv, (n - 1) * 0, rv, rcols, (n - 1) * stride, 0);
    }
  }

  /** On those shapes the kernel as written produces what the row-major kernel produces. */
  lemma AsWrittenAgrees(lv: seq<int>, lrows: nat, lcols: nat, rv: seq<int>, rcols: nat)
    requires |lv| == lrows * lcols && |rv| == lcols * rcols
    requires StridesAgree(lrows, lcols, rcols)
    ensures WritesInBounds(lrows, lcols, rcols, lrows) && WritesInBounds(lrows, lcols, rcols, rcols)
    ensures KernelOutput(lv, lrows, lcols, rv, rcols, lrows) == KernelOutput(lv, lrows, lcols, rv, rcols, rcols)
  {
    AsWrittenInBoundsIff(lrows, lcols, rcols);
    RowMajorStrideInBounds(lrows, lcols, rcols);
    if lrows == rcols {
    } else if rcols == 0 {
      assert lrows * rcols == 0;
    } else if lcols == 0 {
      NoColumnsNoWrites(lv, lrows, rv, rcols, lrows, lrows);
      NoColumnsNoWrites(lv, lrows, rv, rcols, rcols, lrows);
    } else if lrows == 1 {
      var z := OuterLoop(lv, 1, lcols, rv, rcols, rcols, 0);
      assert OuterLoop(lv, 1, lcols, rv, rcols, 1, 0) == z;
      assert OuterLoop(lv, 1, lcols, rv, rcols, 1, 1) == MiddleLoop(z, lv, 0, rv, rcols, 0, lcols);
      assert OuterLoop(lv, 1, lcols, rv, rcols, rcols, 1) == MiddleLoop(z, lv, 0, rv, rcols, 0, lcols);
    }
  }

  /** The stride the source uses gives the product on every shape where the strides agree. */
  lemma AsWrittenComputesProduct(lv: seq<int>, lrows: nat, lcols: nat, rv: seq<int>, rcols: nat)
    requires |lv| == lrows * lcols && |rv| == lcols * rcols && StridesAgree(lrows, lcols, rcols)
    ensures WritesInBounds(lrows, lcols, rcols, lrows)
    ensures RowMajor(KernelOutput(lv, lrows, lcols, rv, rcols, lrows), lrows, rcols)
         == MatMul(RowMajor(lv, lrows, lcols), RowMajor(rv, lcols, rcols), lrows, lcols, rcols)
  {
    AsWrittenAgrees(lv, lrows, lcols, rv, rcols);
    KernelComputesProduct(lv, lrows, lcols, rv, rcols);
  }

  // ---------------------------------------------------------------------
  // With the stride the source uses, other shapes go wrong

  /** The driver's operands in row-major storage. */
  lemma DemoOperands()
    ensures RowMajor([1, 2, 3, 4, 5, 6], 2, 3) == [[1, 2, 3], [4, 5, 6]]
    ensures RowMajor([7, 10, 8, 11, 9, 12], 3, 2) == [[7, 10], [8, 11], [9, 12]]
  {
    var lv: seq<int>, rv: seq<int> := [1, 2, 3, 4, 5, 6], [7, 10, 8, 11, 9, 12];
    assert RowOf(lv, 2, 3, 0) == lv[0..3] == [1, 2, 3];
    assert RowOf(lv, 2, 3, 1) == lv[3..6] == [4, 5, 6];
    assert RowOf(rv, 3, 2, 0) == rv[0..2] == [7, 10];
    assert RowOf(rv, 3, 2, 1) == rv[2..4] == [8, 11];
    assert RowOf(rv, 3, 2, 2) == rv[4..6] == [9, 12];
  }

  /** The driver's 2x3 by 3x2 example through the kernel as written: 2 rows and 2 columns, so the strides agree. */
  lemma DemoKernelProduct()
    ensures WritesInBounds(2, 3, 2, 2)
    ensures KernelOutput([1, 2, 3, 4, 5, 6], 2, 3, [7, 10, 8, 11, 9, 12], 2, 2) == [50, 68, 122, 167]
  {
    var lv, rv := [1, 2, 3, 4, 5, 6], [7, 10, 8, 11, 9, 12];
    AsWrittenComputesProduct(lv, 2, 3, rv, 2);
    var out := KernelOutput(lv, 2, 3, rv, 2, 2);
    DemoOperands();
    DemoProduct();
    FlattenRowMajor(out, 2, 2);
    var g: Grid := [[50, 68], [122, 167]];
    assert g[1..] == [[122, 167]];
    assert Flatten(g) == [50, 68, 122, 167];
  }

  /** A 2x1 times 1x1 product: the second output row is written at offset 2 of the 2-element result. */
  lemma AsWrittenOverrun()
    ensures !WritesInBounds(2, 1, 1, 2)
    ensures WriteOffset(1, 0, 2) == 2 * 1
  {
    assert WriteOffset(1, 0, 2) == 2;
  }

  lemma OverlapFirstRow()
    ensures WritesInBounds(2, 1, 3, 2)
    ensures OuterLoop([1, 1], 2, 1, [1, 1, 1], 3, 2, 1) == [1, 1, 1, 0, 0, 0]
  {
    AsWrittenInBoundsIff(2, 1, 3);
    var lv, rv := [1, 1], [1, 1, 1];
    var s1 := OuterLoop(lv, 2, 1, rv, 3, 2, 1);
    assert s1 == MiddleLoop(Zeros(6), lv, 0, rv, 3, 0, 1);
    assert forall j :: 0 <= j < 3 ==> RowDot(lv, 0, rv, 3, j, 1) == lv[0] * rv[j];
    assert s1[0] == 1 && s1[1] == 1 && s1[2] == 1 && s1[3] == 0 && s1[4] == 0 && s1[5] == 0;
  }

  lemma OverlapSecondRow()
    ensures WritesInBounds(2, 1, 3, 2)
    ensures OuterLoop([1, 1], 2, 1, [1, 1, 1], 3, 2, 2) == [1, 1, 2, 1, 1, 0]
  {
    OverlapFirstRow();
    var lv, rv := [1, 1], [1, 1, 1];
    var s1 := OuterLoop(lv, 2, 1, rv, 3, 2, 1);
    var s2 := OuterLoop(lv, 2, 1, rv, 3, 2, 2);
    assert s2 == MiddleLoop(s1, lv, 1, rv, 3, 2, 1);
    assert forall j :: 0 <= j < 3 ==> RowDot(lv, 1, rv, 3, j, 1) == lv[1] * rv[j];
    assert s2[0] == 1 && s2[1] == 1 && s2[2] == 2 && s2[3] == 1 && s2[4] == 1 && s2[5] == 0;
  }

  lemma OnesProduct()
    ensures MatMul(RowMajor([1, 1], 2, 1), RowMajor([1, 1, 1], 1, 3), 2, 1, 3) == [[1, 1, 1], [1, 1, 1]]
  {
    var lv, rv := [1, 1], [1, 1, 1];
    var a, b := RowMajor(lv, 2, 1), RowMajor(rv, 1, 3);
    RowMajorAt(lv, 2, 1, 0, 0);
    RowMajorAt(lv, 2, 1, 1, 0);
    forall j | 0 <= j < 3
      ensures b[0][j] == 1
    {
      RowMajorAt(rv, 1, 3, 0, j);
    }
    var e := MatMul(a, b, 2, 1, 3);
    assert forall i, j :: 0 <= i < 2 && 0 <= j < 3 ==> e[i][j] == Dot(a, b, i, j, 1) == a[i][0] * b[0][j];
    assert e[0] == [1, 1, 1] && e[1] == [1, 1, 1];
  }

  /**
   * A 2x1 of ones times a 1x3 of ones: rows overlap at offset 2 and offset 5
   * is never written, whereas the product is all ones.
   */
  lemma AsWrittenOverlap()
    ensures WritesInBounds(2, 1, 3, 2)
    ensures KernelOutput([1, 1], 2, 1, [1, 1, 1], 3, 2) == [1, 1, 2, 1, 1, 0]
    ensures MatMul(RowMajor([1, 1], 2, 1), RowMajor([1, 1, 1], 1, 3), 2, 1, 3) == [[1, 1, 1], [1, 1, 1]]
  {
    OverlapSecondRow();
    OnesProduct();
  }
}
