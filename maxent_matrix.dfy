/** The whole Amari matrix A of pyentropy/pyentropy/maxent.py as
    `_generate_matrix` fills it, and the sizes `_calculate_orders` predicts. */
module MaxEntMatrix {
  import opened Combinatorics
  import opened Utils
  import opened MaxEntRows
  import opened MaxEntColumns

  /** The rows of orders 1 .. k in the order _generate_matrix writes them. */
  function AllRows(n: nat, m: nat, k: nat): seq<Row>
  {
    if k == 0 then [] else AllRows(n, m, k - 1) + OrderRows(n, m, k)
  }

  /** Every row has an order in 1 .. n and is valid for it. */
  ghost predicate WellFormedRows(n: nat, m: nat, rows: seq<Row>)
  {
    forall i :: 0 <= i < |rows| ==> 1 <= |rows[i].alpha| <= n && ValidRow(n, m, |rows[i].alpha|, rows[i])
  }

  /** ... and no order exceeds k. */
  ghost predicate RowsOfOrders(n: nat, m: nat, k: nat, rows: seq<Row>)
  {
    WellFormedRows(n, m, rows) && forall i :: 0 <= i < |rows| ==> |rows[i].alpha| <= k
  }

  lemma {:induction false} AllRowsValid(n: nat, m: nat, k: nat)
    ensures RowsOfOrders(n, m, k, AllRows(n, m, k))
  {
    if k > 0 {
      AllRowsValid(n, m, k - 1);
      OrderRowsValid(n, m, k);
      var rows := AllRows(n, m, k);
      var prev := AllRows(n, m, k - 1);
      forall i | 0 <= i < |rows|
        ensures 1 <= |rows[i].alpha| <= k && |rows[i].alpha| <= n && ValidRow(n, m, |rows[i].alpha|, rows[i])
      {
        if i >= |prev| {
          assert rows[i] in OrderRows(n, m, k);
        } else {
          assert rows[i] == prev[i];
        }
        OrderAtMostN(n, m, rows[i]);
      }
    }
  }

  /** The matrix has order_idx[k] rows. */
  lemma {:induction false} AllRowsCount(n: nat, m: nat, k: nat)
    requires m >= 1
    ensures |AllRows(n, m, k)| == OrderIdx(n, m, k)
  {
    if k > 0 {
      AllRowsCount(n, m, k - 1);
      OrderRowsCount(n, m, k);
    }
  }

  /** No row of A repeats: rows of one order are distinct, and rows of
      different orders differ in their number of symbols. */
  lemma {:induction false} AllRowsDistinct(n: nat, m: nat, k: nat)
    ensures forall i, j :: 0 <= i < j < |AllRows(n, m, k)| ==> AllRows(n, m, k)[i] != AllRows(n, m, k)[j]
  {
    if k > 0 {
      AllRowsDistinct(n, m, k - 1);
      OrderRowsDistinct(n, m, k);
      AllRowsValid(n, m, k - 1);
      OrderRowsValid(n, m, k);
      var x, y := AllRows(n, m, k - 1), OrderRows(n, m, k);
      forall r | r in x ensures |r.alpha| < k {
        var i :| 0 <= i < |x| && x[i] == r;
      }
      DistinctAppend(x, y);
    }
  }

  /** The rows of A are exactly the valid rows of orders 1 .. k. */
  lemma {:induction false} AllRowsComplete(n: nat, m: nat, k: nat, r: Row)
    ensures r in AllRows(n, m, k) <==> 1 <= |r.alpha| <= k && ValidRow(n, m, |r.alpha|, r)
  {
    if k > 0 {
      AllRowsComplete(n, m, k - 1, r);
      OrderRowsComplete(n, m, k, r);
      if r in OrderRows(n, m, k) {
        assert |r.alpha| == k;
      }
    }
  }

  /** The column sets of a list of rows. */
  ghost function RowSets(n: nat, m: nat, rows: seq<Row>): (a: seq<set<int>>)
    ensures |a| == |rows|
  {
    RowSetsUpTo(n, m, rows, |rows|)
  }

  /** The column sets of the first k rows. */
  ghost function RowSetsUpTo(n: nat, m: nat, rows: seq<Row>, k: nat): (a: seq<set<int>>)
    requires k <= |rows|
    ensures |a| == k
  {
    if k == 0 then [] else RowSetsUpTo(n, m, rows, k - 1) + [ColSet(n, m, rows[k - 1])]
  }

  lemma {:induction false} RowSetsUpToAt(n: nat, m: nat, rows: seq<Row>, k: nat, i: int)
    requires 0 <= i < k <= |rows|
    ensures RowSetsUpTo(n, m, rows, k)[i] == ColSet(n, m, rows[i])
  {
    if i < k - 1 {
      RowSetsUpToAt(n, m, rows, k - 1, i);
    }
  }

  lemma RowSetsAt(n: nat, m: nat, rows: seq<Row>, i: int)
    requires 0 <= i < |rows|
    ensures RowSets(n, m, rows)[i] == ColSet(n, m, rows[i])
  {
    RowSetsUpToAt(n, m, rows, |rows|, i);
  }

  /** A as _generate_matrix leaves it: row i holds the columns of AllRows[i]. */
  ghost function MatrixSpec(n: nat, m: nat, k: nat): (a: seq<set<int>>)
    requires m >= 2
    ensures |a| == |AllRows(n, m, k)| == OrderIdx(n, m, k)
  {
    AllRowsCount(n, m, k);
    RowSets(n, m, AllRows(n, m, k))
  }

  /** Entry (i, c) of A is 1 exactly when the base-m digits of c + 1 carry
      row i's symbols at row i's positions; no entry lies outside the dim columns. */
  lemma MatrixEntries(n: nat, m: nat, k: nat, i: nat, c: int)
    requires m >= 2 && i < |AllRows(n, m, k)|
    ensures c in MatrixSpec(n, m, k)[i]
            <==> 0 <= c < Pow(m, n) - 1
                 && Matches(Dec2BaseRow(c + 1, m, n), AllRows(n, m, k)[i].alpha, AllRows(n, m, k)[i].pos)
  {
    AllRowsCount(n, m, k);
    AllRowsValid(n, m, k);
    RowSetsAt(n, m, AllRows(n, m, k), i);
    RowColumnsMembership(n, m, AllRows(n, m, k)[i], c);
  }

  // ---------------------------------------------------------------------
  // Sizes predicted by _calculate_orders

  /** The number of nonzero entries of a 0/1 matrix given by its rows' column sets. */
  function Nnz(a: seq<set<int>>): nat
  {
    if |a| == 0 then 0 else Nnz(a[..|a| - 1]) + |a[|a| - 1]|
  }

  /** Annz of _calculate_orders: the sum over i < k of m^(n-1-i) * order_length[i]. */
  function Annz(n: nat, m: nat, k: nat): int
    requires k <= n
  {
    if k == 0 then 0 else Annz(n, m, k - 1) + Pow(m, n - k) * OrderLength(n, m, k - 1)
  }

  lemma {:induction false} NnzAppend(a: seq<set<int>>, b: seq<set<int>>)
    ensures Nnz(a + b) == Nnz(a) + Nnz(b)
    decreases |b|
  {
    if |b| > 0 {
      assert (a + b)[..|a + b| - 1] == a + b[..|b| - 1];
      NnzAppend(a, b[..|b| - 1]);
    } else {
      assert a + b == a;
    }
  }

  lemma {:induction false} NnzUniform(a: seq<set<int>>, size: nat)
    requires forall i :: 0 <= i < |a| ==> |a[i]| == size
    ensures Nnz(a) == |a| * size
  {
    if |a| > 0 {
      NnzUniform(a[..|a| - 1], size);
    }
  }

  /** Only the first k rows matter to RowSetsUpTo(rows, k). */
  lemma {:induction false} RowSetsUpToPrefix(n: nat, m: nat, x: seq<Row>, y: seq<Row>, k: nat)
    requires k <= |x|
    ensures RowSetsUpTo(n, m, x + y, k) == RowSetsUpTo(n, m, x, k)
  {
    if k > 0 {
      RowSetsUpToPrefix(n, m, x, y, k - 1);
      assert (x + y)[k - 1] == x[k - 1];
    }
  }

  /** Past x, RowSetsUpTo(x + y) continues with the sets of y. */
  lemma {:induction false} RowSetsUpToSuffix(n: nat, m: nat, x: seq<Row>, y: seq<Row>, j: nat)
    requires j <= |y|
    ensures RowSetsUpTo(n, m, x + y, |x| + j) == RowSets(n, m, x) + RowSetsUpTo(n, m, y, j)
  {
    if j == 0 {
      RowSetsUpToPrefix(n, m, x, y, |x|);
    } else {
      RowSetsUpToSuffix(n, m, x, y, j - 1);
      assert (x + y)[|x| + j - 1] == y[j - 1];
    }
  }

  lemma RowSetsAppend(n: nat, m: nat, r1: seq<Row>, r2: seq<Row>)
    ensures RowSets(n, m, r1 + r2) == RowSets(n, m, r1) + RowSets(n, m, r2)
  {
    RowSetsUpToSuffix(n, m, r1, r2, |r2|);
  }

  lemma OrderRowSetsSizes(n: nat, m: nat, o: nat)
    requires m >= 2 && 1 <= o <= n
    ensures forall r :: r in OrderRows(n, m, o) ==> ValidRow(n, m, o, r) && |ColSet(n, m, r)| == Pow(m, n - o)
  {
    OrderRowsValid(n, m, o);
    forall r | r in OrderRows(n, m, o) ensures |ColSet(n, m, r)| == Pow(m, n - o) {
      ColSetSize(n, m, r);
    }
  }

  /** The rows of order k are appended after those of the lower orders. */
  lemma MatrixSpecStep(n: nat, m: nat, k: nat)
    requires m >= 2 && k >= 1
    ensures MatrixSpec(n, m, k) == MatrixSpec(n, m, k - 1) + RowSets(n, m, OrderRows(n, m, k))
  {
    RowSetsAppend(n, m, AllRows(n, m, k - 1), OrderRows(n, m, k));
  }

  /** The rows of order k together set order_length[k-1] * m^(n-k) entries. */
  lemma OrderNnz(n: nat, m: nat, k: nat)
    requires m >= 2 && 1 <= k <= n
    ensures Nnz(RowSets(n, m, OrderRows(n, m, k))) == OrderLength(n, m, k - 1) * Pow(m, n - k)
  {
    OrderRowsCount(n, m, k);
    OrderRowSetsSizes(n, m, k);
    var last := OrderRows(n, m, k);
    var sets := RowSets(n, m, last);
    forall i | 0 <= i < |sets| ensures |sets[i]| == Pow(m, n - k) {
      assert last[i] in last;
      RowSetsAt(n, m, last, i);
    }
    PowPositive(m, n - k);
    NnzUniform(sets, Pow(m, n - k));
  }

  lemma MulCommutes(x: int, y: int)
    ensures x * y == y * x
  {
  }

  /** The nonzero count of A is the Annz of _calculate_orders. */
  lemma {:induction false} MatrixNnz(n: nat, m: nat, k: nat)
    requires m >= 2 && k <= n
    ensures Nnz(MatrixSpec(n, m, k)) == Annz(n, m, k)
  {
    if k > 0 {
      MatrixNnz(n, m, k - 1);
      MatrixSpecStep(n, m, k);
      OrderNnz(n, m, k);
      var a := MatrixSpec(n, m, k);
      var b := MatrixSpec(n, m, k - 1);
      var last := RowSets(n, m, OrderRows(n, m, k));
      assert a == b + last;
      NnzAppend(b, last);
      assert Nnz(a) == Nnz(b) + Nnz(last);
      assert Nnz(b) == Annz(n, m, k - 1);
      MulCommutes(OrderLength(n, m, k - 1), Pow(m, n - k));
    }
  }

  /** order_idx[i] is the binomial partial sum: sum over 1 <= o <= i of Choose(n, o) (m-1)^o. */
  lemma {:induction false} OrderIdxBinomial(n: nat, m: nat, i: nat)
    ensures OrderIdx(n, m, i) == BinomSum(n, m - 1, i + 1) - 1
  {
    if i > 0 {
      OrderIdxBinomial(n, m, i - 1);
    }
  }

  /** With k = n, A has m^n - 1 = dim rows: it is square; order n + 1 adds no rows. */
  lemma MatrixSquare(n: nat, m: nat)
    requires m >= 2
    ensures |MatrixSpec(n, m, n)| == Pow(m, n) - 1
    ensures OrderLength(n, m, n) == 0 && OrderIdx(n, m, n + 1) == OrderIdx(n, m, n)
  {
    OrderIdxBinomial(n, m, n);
    BinomialTheorem(n, m - 1);
    ChooseBeyond(n, n + 1);
  }

  // ---------------------------------------------------------------------
  // Writing rows into the dok matrix

  /** `A[start + i, cols] = 1` for the i-th column set of sets: rows from start
      on gain the columns of sets; all other rows are unchanged. */
  function Stamp(a: seq<set<int>>, start: int, sets: seq<set<int>>): (b: seq<set<int>>)
    ensures |b| == |a|
    ensures forall i :: 0 <= i < |a| && !(start <= i < start + |sets|) ==> b[i] == a[i]
  {
    seq(|a|, i requires 0 <= i < |a| => if start <= i < start + |sets| then a[i] + sets[i - start] else a[i])
  }

  lemma StampAppend(a: seq<set<int>>, start: int, x: seq<set<int>>, y: seq<set<int>>)
    ensures Stamp(Stamp(a, start, x), start + |x|, y) == Stamp(a, start, x + y)
  {
    var l := Stamp(Stamp(a, start, x), start + |x|, y);
    var r := Stamp(a, start, x + y);
    forall i | 0 <= i < |a| ensures l[i] == r[i] {
      if start <= i < start + |x| {
        assert (x + y)[i - start] == x[i - start];
      } else if start + |x| <= i < start + |x| + |y| {
        assert (x + y)[i - start] == y[i - start - |x|];
      }
    }
  }

  /** Writing one row's columns. */
  lemma StampSnoc(a: seq<set<int>>, start: int, x: seq<set<int>>, row: set<int>)
    requires 0 <= start && start + |x| < |a|
    ensures var b := Stamp(a, start, x);
            Stamp(a, start, x + [row]) == b[start + |x| := b[start + |x|] + row]
  {
    StampAppend(a, start, x, [row]);
  }

  lemma StampEmptyRows(a: seq<set<int>>, sets: seq<set<int>>)
    requires |a| == |sets| && forall i :: 0 <= i < |a| ==> a[i] == {}
    ensures Stamp(a, 0, sets) == sets
  {
    forall i | 0 <= i < |a| ensures Stamp(a, 0, sets)[i] == sets[i] {
      assert a[i] + sets[i] == sets[i];
    }
  }

  lemma StampNothing(a: seq<set<int>>, start: int)
    ensures Stamp(a, start, []) == a
  {
  }

  /** order_idx grows with the order. */
  lemma {:induction false} OrderIdxMonotone(n: nat, m: nat, i: nat, j: nat)
    requires m >= 2 && i <= j
    ensures OrderIdx(n, m, i) <= OrderIdx(n, m, j)
    decreases j - i
  {
    if i < j {
      OrderIdxMonotone(n, m, i, j - 1);
      PowPositive(m - 1, j);
    }
  }

  /** Every order up to n has rows, so order_idx grows strictly up to n. */
  lemma {:induction false} OrderIdxStrict(n: nat, m: nat, i: nat, j: nat)
    requires m >= 2 && i < j <= n
    ensures OrderIdx(n, m, i) < OrderIdx(n, m, j)
    decreases j - i
  {
    if i < j - 1 {
      OrderIdxStrict(n, m, i, j - 1);
    }
    ChooseWithin(n, j);
    PowPositive(m - 1, j);
    MulAtLeast(Choose(n, j), Pow(m - 1, j), 1, 1);
  }

  /** The first kk orders of A are the rows of the matrix of order kk. */
  lemma {:induction false} MatrixPrefix(n: nat, m: nat, kk: nat, k: nat)
    requires m >= 2 && kk <= k
    ensures 0 <= OrderIdx(n, m, kk) <= OrderIdx(n, m, k)
            && MatrixSpec(n, m, k)[..OrderIdx(n, m, kk)] == MatrixSpec(n, m, kk)
    decreases k - kk
  {
    OrderIdxMonotone(n, m, 0, kk);
    if kk < k {
      MatrixPrefix(n, m, kk, k - 1);
      MatrixSpecStep(n, m, k);
      OrderIdxMonotone(n, m, kk, k - 1);
      var pre := MatrixSpec(n, m, k - 1);
      assert (pre + RowSets(n, m, OrderRows(n, m, k)))[..OrderIdx(n, m, kk)] == pre[..OrderIdx(n, m, kk)];
    }
  }

  /** Writing the rows X and then the rows Y is writing X + Y. */
  lemma StampRowsAppend(n: nat, m: nat, a: seq<set<int>>, start: int, x: seq<Row>, y: seq<Row>)
    ensures Stamp(Stamp(a, start, RowSets(n, m, x)), start + |x|, RowSets(n, m, y))
            == Stamp(a, start, RowSets(n, m, x + y))
  {
    RowSetsAppend(n, m, x, y);
    StampAppend(a, start, RowSets(n, m, x), RowSets(n, m, y));
  }

  /** One pass of the `ordi` loop of _generate_matrix: _recloop for order
      ordi + 1 writes its rows right after those of the lower orders, which
      completes the matrix of orders up to ordi + 1. */
  lemma GenerateStep(n: nat, m: nat, k: nat, ordi: nat, zeros: seq<set<int>>)
    requires m >= 2 && ordi < k <= n && |zeros| == OrderIdx(n, m, k)
    ensures 0 <= OrderIdx(n, m, ordi)
    ensures OrderIdx(n, m, ordi) + |OrderRows(n, m, ordi + 1)| == OrderIdx(n, m, ordi + 1) <= |zeros|
    ensures Stamp(Stamp(zeros, 0, MatrixSpec(n, m, ordi)), OrderIdx(n, m, ordi), RowSets(n, m, OrderRows(n, m, ordi + 1)))
            == Stamp(zeros, 0, MatrixSpec(n, m, ordi + 1))
  {
    GenerateStepCount(n, m, k, ordi);
    var before := MatrixSpec(n, m, ordi);
    MatrixSpecStep(n, m, ordi + 1);
    StampAppend(zeros, 0, before, RowSets(n, m, OrderRows(n, m, ordi + 1)));
  }

  /** The rows of order ordi + 1 start at order_idx[ordi] and end at
      order_idx[ordi + 1], inside the k orders of A. */
  lemma GenerateStepCount(n: nat, m: nat, k: nat, ordi: nat)
    requires m >= 2 && ordi < k <= n
    ensures 0 <= OrderIdx(n, m, ordi)
    ensures OrderIdx(n, m, ordi) + |OrderRows(n, m, ordi + 1)| == OrderIdx(n, m, ordi + 1) <= OrderIdx(n, m, k)
  {
    OrderIdxMonotone(n, m, 0, ordi);
    OrderIdxMonotone(n, m, ordi + 1, k);
    OrderRowsCount(n, m, ordi + 1);
  }

  /** One pass of the symbol loop of _recloop: the rows so far, then the
      rows of the position loop for symbol a, are the rows up to a + 1. */
  lemma AlphaStep(n: nat, m: nat, order: nat, depth: nat, alpha: seq<int>, pos: seq<int>, a: int,
                  a0: seq<set<int>>, rc0: int)
    requires 1 <= depth <= order && 1 <= a
    ensures Stamp(Stamp(a0, rc0, RowSets(n, m, AlphaRows(n, m, order, depth, alpha, pos, a))),
                  rc0 + |AlphaRows(n, m, order, depth, alpha, pos, a)|,
                  RowSets(n, m, PosRows(n, m, order, depth, alpha + [a], pos, n - (order - depth))))
            == Stamp(a0, rc0, RowSets(n, m, AlphaRows(n, m, order, depth, alpha, pos, a + 1)))
  {
    var before := AlphaRows(n, m, order, depth, alpha, pos, a);
    var block := PosRows(n, m, order, depth, alpha + [a], pos, n - (order - depth));
    assert AlphaRows(n, m, order, depth, alpha, pos, a + 1) == before + block;
    StampRowsAppend(n, m, a0, rc0, before, block);
  }

  /** One pass of the position loop of _recloop: the rows so far, then the
      rows of position p, are the rows up to p + 1. */
  lemma PosStep(n: nat, m: nat, order: nat, depth: nat, alphaNew: seq<int>, pos: seq<int>, p: int,
                a0: seq<set<int>>, rc0: int)
    requires 1 <= depth <= order && PosStart(pos) <= p
    ensures Stamp(Stamp(a0, rc0, RowSets(n, m, PosRows(n, m, order, depth, alphaNew, pos, p))),
                  rc0 + |PosRows(n, m, order, depth, alphaNew, pos, p)|,
                  RowSets(n, m, Leaf(n, m, order, depth, alphaNew, pos + [p])))
            == Stamp(a0, rc0, RowSets(n, m, PosRows(n, m, order, depth, alphaNew, pos, p + 1)))
  {
    var before := PosRows(n, m, order, depth, alphaNew, pos, p);
    var leaf := Leaf(n, m, order, depth, alphaNew, pos + [p]);
    assert PosRows(n, m, order, depth, alphaNew, pos, p + 1) == before + leaf;
    StampRowsAppend(n, m, a0, rc0, before, leaf);
  }

  /** A single `A[row, cols] = 1`. */
  lemma StampOne(n: nat, m: nat, a: seq<set<int>>, i: int, r: Row)
    requires m >= 2 && 0 <= i < |a| && 1 <= |r.alpha| <= n && ValidRow(n, m, |r.alpha|, r)
    ensures Stamp(a, i, RowSets(n, m, [r])) == a[i := a[i] + ColSet(n, m, r)]
  {
  }
}
