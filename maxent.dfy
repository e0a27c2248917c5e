/** The AmariSolve class of pyentropy/pyentropy/maxent.py: it generates the
    constraint matrix A (rows: interaction cells up to order k, columns: the
    m^n - 1 non-baseline words), converts symbols between signed and unsigned
    form, and lays out the theta vector of `solve`. */
module MaxEnt {
  import opened Outcomes
  import opened Combinatorics
  import opened Utils
  import opened MaxEntRows
  import opened MaxEntColumns
  import opened MaxEntMatrix

  /** l of the constructor: (m - 1) / 2 under Python 2 integer division, which
      floors; Dafny's `/` agrees for the nonnegative dividend. */
  function Half(m: nat): (l: int)
    ensures m >= 1 ==> 0 <= 2 * l <= m - 1 < 2 * l + 2
  {
    (m - 1) / 2
  }

  // ---------------------------------------------------------------------
  // Signed and unsigned symbols

  /** si2un on a whole array: values must lie in [-l, l]; negatives gain m. */
  function SignedToUnsigned(xs: seq<int>, m: nat): (r: Result<seq<int>, ValueError>)
    requires m >= 1
    ensures r.Failure? <==> |xs| == 0 || exists i :: 0 <= i < |xs| && (xs[i] > Half(m) || xs[i] < -Half(m))
    ensures |xs| == 0 ==> r == Failure(EmptyReduction)
    ensures r.Failure? && |xs| > 0 ==> r.error == ValueOutOfRange
    ensures r.Success? ==> |r.value| == |xs|
    ensures r.Success? ==> forall i :: 0 <= i < |xs| ==>
              0 <= r.value[i] < m && r.value[i] == (if xs[i] < 0 then xs[i] + m else xs[i])
  {
    if |xs| == 0 then Failure(EmptyReduction)
    else if exists i :: 0 <= i < |xs| && (xs[i] > Half(m) || xs[i] < -Half(m)) then Failure(ValueOutOfRange)
    else Success(seq(|xs|, i requires 0 <= i < |xs| => if xs[i] < 0 then xs[i] + m else xs[i]))
  }

  /** un2si on a whole array: values must lie in [0, m-1]; those above l lose m. */
  function UnsignedToSigned(ys: seq<int>, m: nat): (r: Result<seq<int>, ValueError>)
    requires m >= 1
    ensures r.Failure? <==> |ys| == 0 || exists i :: 0 <= i < |ys| && (ys[i] > m - 1 || ys[i] < 0)
    ensures |ys| == 0 ==> r == Failure(EmptyReduction)
    ensures r.Failure? && |ys| > 0 ==> r.error == ValueOutOfRange
    ensures r.Success? ==> |r.value| == |ys|
    ensures r.Success? ==> forall i :: 0 <= i < |ys| ==>
              Half(m) + 1 - m <= r.value[i] <= Half(m) && r.value[i] == (if ys[i] > Half(m) then ys[i] - m else ys[i])
  {
    if |ys| == 0 then Failure(EmptyReduction)
    else if exists i :: 0 <= i < |ys| && (ys[i] > m - 1 || ys[i] < 0) then Failure(ValueOutOfRange)
    else Success(seq(|ys|, i requires 0 <= i < |ys| => if ys[i] > Half(m) then ys[i] - m else ys[i]))
  }

  /** un2si undoes si2un for every alphabet size. */
  lemma UnsignedToSignedInverse(xs: seq<int>, m: nat)
    requires m >= 1 && SignedToUnsigned(xs, m).Success?
    ensures UnsignedToSigned(SignedToUnsigned(xs, m).value, m) == Success(xs)
  {
    var ys := SignedToUnsigned(xs, m).value;
    var zs := UnsignedToSigned(ys, m).value;
    forall i | 0 <= i < |xs| ensures zs[i] == xs[i] {
      assert -Half(m) <= xs[i] <= Half(m);
    }
    assert zs == xs;
  }

  /** si2un undoes un2si when the alphabet size is odd. */
  lemma SignedToUnsignedInverse(ys: seq<int>, m: nat)
    requires m >= 1 && m % 2 == 1 && UnsignedToSigned(ys, m).Success?
    ensures SignedToUnsigned(UnsignedToSigned(ys, m).value, m) == Success(ys)
  {
    var xs := UnsignedToSigned(ys, m).value;
    assert 2 * Half(m) == m - 1;
    forall i | 0 <= i < |xs| ensures -Half(m) <= xs[i] <= Half(m) {
    }
    var zs := SignedToUnsigned(xs, m).value;
    forall i | 0 <= i < |ys| ensures zs[i] == ys[i] {
    }
    assert zs == ys;
  }

  /** For an even alphabet size the round trip fails: with m = 2 (l = 0), un2si
      maps 1 to -1, which si2un rejects. */
  lemma EvenAlphabetRoundTripFails()
    ensures UnsignedToSigned([1], 2) == Success([-1])
    ensures SignedToUnsigned([-1], 2) == Failure(ValueOutOfRange)
  {
    assert Half(2) == 0;
    assert !exists i :: 0 <= i < |[1]| && ([1][i] > 1 || [1][i] < 0);
    assert UnsignedToSigned([1], 2).value == [-1];
    assert -1 < -Half(2);
  }

  // ---------------------------------------------------------------------
  // The layout of solve

  datatype LayoutError =
    | OrderOutOfRange      // order_idx[k] with k past the end: IndexError
    | NegativeDimension    // np.zeros of a negative length: ValueError

  /** The vectors solve sets up for order k: x0 (the solved thetas, one per
      row of Asmall = A[:solved]) and theta0 (the zero padding). */
  datatype Layout = Layout(solved: int, padding: int)

  /** Python's reading of an index into a list of the given length. */
  function PyIndex(i: int, length: nat): (r: Option<nat>)
    ensures r.Some? <==> 0 <= i + length && i < length
    ensures r.Some? ==> r.value < length && (r.value == i || r.value == i + length)
  {
    if 0 <= i < length then Some(i)
    else if 0 <= i + length && i < 0 then Some(i + length)
    else None
  }

  /** dec2base(np.c_[0:nterms,], m, width) with nterms = m^width: row t
      holds the base-m digits of t. */
  function FreeWords(m: nat, width: nat): (t: Mat)
    requires m >= 2
    ensures t.Valid() && t.rows == Pow(m, width) && t.cols == width
    ensures forall i :: 0 <= i < t.rows ==> t.cells[i] == Dec2BaseRow(i, m, width)
  {
    var nterms := Pow(m, width);
    PowPositive(m, width);
    Dec2Base(Mat(nterms, 1, seq(nterms, i => [i])), m, width).value
  }

  /** The `coli` loop of _recloop: inscol puts alpha[coli] into column
      pos[coli] of every word of `terms`, one symbol per pass. */
  method InsertColumns(terms: Mat, alpha: seq<int>, pos: seq<int>) returns (temp: Mat)
    requires terms.Valid() && |alpha| == |pos| && forall i :: 0 <= i < |pos| ==> pos[i] >= 0
    ensures temp.Valid() && temp.rows == terms.rows && temp.cols == terms.cols + |alpha|
    ensures forall t :: 0 <= t < temp.rows ==> temp.cells[t] == Interleave(terms.cells[t], alpha, pos, |alpha|)
  {
    temp := terms;
    for coli := 0 to |alpha|
      invariant temp.Valid() && temp.rows == terms.rows && temp.cols == terms.cols + coli
      invariant forall t :: 0 <= t < temp.rows ==> temp.cells[t] == Interleave(terms.cells[t], alpha, pos, coli)
    {
      InsColStep(temp, terms.cells, alpha, pos, coli);
      temp := InsCol(temp, seq(temp.rows, _ => alpha[coli]), pos[coli]);
    }
  }

  /** The loop of _calculate_orders: order_length[i] = comb(n, i+1) *
      (m-1)^(i+1) and order_idx[i] the rows of the orders below i + 1, for
      i in 0 .. n; the last entry of order_idx is left for the caller. */
  method OrderTables(n: nat, m: nat) returns (idx: array<int>, len: array<int>, total: int)
    ensures fresh(idx) && fresh(len) && idx.Length == n + 2 && len.Length == n + 1
    ensures forall i {:trigger len[i]} :: 0 <= i <= n ==> len[i] == OrderLength(n, m, i)
    ensures forall i {:trigger idx[i]} :: 0 <= i <= n ==> idx[i] == OrderIdx(n, m, i)
    ensures total == OrderIdx(n, m, n + 1)
  {
    idx := new int[n + 2](_ => 0);
    len := new int[n + 1](_ => 0);
    total := 0;
    for ordi := 0 to n + 1
      invariant total == OrderIdx(n, m, ordi)
      invariant forall i {:trigger len[i]} :: 0 <= i < ordi ==> len[i] == OrderLength(n, m, i)
      invariant forall i {:trigger idx[i]} :: 0 <= i < ordi ==> idx[i] == OrderIdx(n, m, i)
      modifies len, idx
    {
      len[ordi] := OrderLength(n, m, ordi);  // comb(n, ordi+1) * (m-1)^(ordi+1)
      idx[ordi] := total;
      total := total + len[ordi];
    }
  }

  /** Annz = np.sum(x * y.T) with x[i] = m^(n-1-i) and y = order_length[:k]. */
  method AnnzOf(n: nat, m: nat, k: nat, len: array<int>) returns (total: int)
    requires k <= n && len.Length == n + 1
    requires forall i {:trigger len[i]} :: 0 <= i <= n ==> len[i] == OrderLength(n, m, i)
    ensures total == Annz(n, m, k)
  {
    total := 0;
    for i := 0 to k
      invariant total == Annz(n, m, i)
    {
      assert n - 1 - i == n - (i + 1);
      total := total + Pow(m, n - 1 - i) * len[i];
    }
  }

  /** The generator AmariSolve(n, m), for a class whose `k` may have been set
      by a derived class before the constructor runs (derivedK). */
  class AmariSolve {
    const n: nat
    const m: nat
    const k: nat
    const l: int
    const dim: int
    var orderIdx: array<int>
    var orderLength: array<int>
    var rowCounter: int
    var annz: int
    var nterms: int
    var terms: Mat
    var A: seq<set<int>>

    /** The sizes _calculate_orders recorded and the matrix _generate_matrix built. */
    ghost predicate Valid()
      reads this, orderIdx, orderLength
    {
      && m >= 2 && k <= n && l == Half(m) && dim == Pow(m, n) - 1
      && orderIdx.Length == n + 2 && orderLength.Length == n + 1
      && (forall i {:trigger orderLength[i]} :: 0 <= i <= n ==> orderLength[i] == OrderLength(n, m, i))
      && (forall i {:trigger orderIdx[i]} :: 0 <= i <= n ==> orderIdx[i] == OrderIdx(n, m, i))
      && orderIdx[n + 1] == dim + 1
      && annz == Annz(n, m, k)
      && A == MatrixSpec(n, m, k)
    }

    /** `terms` holds the words 0 .. nterms-1 over the n - order free variables. */
    ghost predicate TermsFor(order: nat)
      reads this
    {
      && order <= n && m >= 2
      && terms.Valid() && terms.rows == Pow(m, n - order) && terms.cols == n - order
      && forall t :: 0 <= t < terms.rows ==> terms.cells[t] == Dec2BaseRow(t, m, n - order)
    }

    constructor (n: nat, m: nat, derivedK: Option<nat>)
      requires m >= 2
      requires derivedK.Some? ==> derivedK.value <= n
      ensures this.n == n && this.m == m && k == (if derivedK.Some? then derivedK.value else n)
      ensures Valid() && rowCounter == |A|
      ensures derivedK.None? ==> |A| == dim && OrderIdx(n, m, k) == dim
    {
      this.n := n;
      this.m := m;
      this.k := if derivedK.Some? then derivedK.value else n;
      this.l := (m - 1) / 2;
      this.dim := Pow(m, n) - 1;
      orderIdx := new int[0];
      orderLength := new int[0];
      rowCounter := 0;
      annz := 0;
      nterms := 0;
      terms := Mat(0, 0, []);
      A := [];
      new;
      GenerateMatrix();
      if derivedK.None? {
        MatrixSquare(n, m);
      }
    }

    /** _calculate_orders: the row count of each order, where each order
        starts, and the number of nonzeros of the first k orders. */
    method CalculateOrders()
      requires m >= 2 && k <= n
      modifies this
      ensures fresh(orderIdx) && fresh(orderLength)
      ensures orderIdx.Length == n + 2 && orderLength.Length == n + 1
      ensures forall i {:trigger orderLength[i]} :: 0 <= i <= n ==> orderLength[i] == OrderLength(n, m, i)
      ensures forall i {:trigger orderIdx[i]} :: 0 <= i <= n ==> orderIdx[i] == OrderIdx(n, m, i)
      ensures orderIdx[n + 1] == dim + 1
      ensures rowCounter == OrderIdx(n, m, n + 1)
      ensures annz == Annz(n, m, k)
      ensures A == old(A) && terms == old(terms) && nterms == old(nterms)
    {
      var idx, len, total := OrderTables(n, m);
      idx[n + 1] := dim + 1;
      orderIdx := idx;
      orderLength := len;
      rowCounter := total;
      annz := AnnzOf(n, m, k, len);
    }

    /** _generate_matrix: A has order_idx[k] empty rows, then each order
        1 .. k is enumerated by _recloop into consecutive rows. */
    method GenerateMatrix()
      requires m >= 2 && k <= n && l == Half(m) && dim == Pow(m, n) - 1
      modifies this
      ensures Valid()
      ensures rowCounter == orderIdx[k]
    {
      CalculateOrders();
      OrderIdxMonotone(n, m, 0, k);
      var zeros: seq<set<int>> := seq(orderIdx[k], _ => {});
      A := zeros;
      rowCounter := 0;
      for ordi := 0 to k
        invariant rowCounter == OrderIdx(n, m, ordi)
        invariant A == Stamp(zeros, 0, MatrixSpec(n, m, ordi))
        modifies this`A, this`rowCounter, this`terms, this`nterms
      {
        GenerateOrder(ordi, zeros);
      }
      StampEmptyRows(zeros, MatrixSpec(n, m, k));
    }

    /** One pass of the loop of _generate_matrix: the words over the free
        variables of order ordi + 1, then _recloop writes that order's rows. */
    method GenerateOrder(ordi: nat, zeros: seq<set<int>>)
      requires m >= 2 && ordi < k <= n && |zeros| == OrderIdx(n, m, k)
      requires rowCounter == OrderIdx(n, m, ordi)
      requires A == Stamp(zeros, 0, MatrixSpec(n, m, ordi))
      modifies this`A, this`rowCounter, this`terms, this`nterms
      ensures rowCounter == OrderIdx(n, m, ordi + 1)
      ensures A == Stamp(zeros, 0, MatrixSpec(n, m, ordi + 1))
    {
      nterms := Pow(m, n - (ordi + 1));
      terms := FreeWords(m, n - (ordi + 1));
      GenerateStep(n, m, k, ordi, zeros);
      RecLoop(ordi + 1, 1, [], []);
    }

    /** The `cols` of the innermost loop body of _recloop for the row
        (alphaNew, posNew) of order `order`. */
    method LeafColumns(order: nat, alphaNew: seq<int>, posNew: seq<int>) returns (cols: seq<int>)
      requires 1 <= order && TermsFor(order) && ValidRow(n, m, order, Row(alphaNew, posNew))
      ensures cols == RowColumns(n, m, Row(alphaNew, posNew))
    {
      var r := Row(alphaNew, posNew);
      if order == n {
        // special case for the highest order: the word alpha itself
        var row := Base2Dec(Mat(1, n, [alphaNew]), m);
        cols := [row[0] - 1];
      } else {
        var temp := InsertColumns(terms, alphaNew, posNew);
        var words := Base2Dec(temp, m);
        InterleavedColumns(n, m, r, terms.cells, temp, words);
        cols := Decrement(words);
      }
    }

    /** _recloop(order, depth, alpha, pos): writes the rows Rows(...) into A
        from row_counter on and advances row_counter past them. This method
        is the symbol loop; the position loop inside it is PositionLoop. */
    method RecLoop(order: nat, depth: nat, alpha: seq<int>, pos: seq<int>)
      requires 1 <= depth <= order && TermsFor(order)
      requires |alpha| == depth - 1 && ValidPrefix(n, m, alpha, pos)
      requires 0 <= rowCounter && rowCounter + |Rows(n, m, order, depth, alpha, pos)| <= |A|
      modifies this`rowCounter, this`A
      ensures A == Stamp(old(A), old(rowCounter), RowSets(n, m, Rows(n, m, order, depth, alpha, pos)))
      ensures rowCounter == old(rowCounter) + |Rows(n, m, order, depth, alpha, pos)|
      decreases order - depth, 4
    {
      ghost var a0 := A;
      ghost var rc0 := rowCounter;
      var ai := 1;
      assert AlphaRows(n, m, order, depth, alpha, pos, ai) == [];
      StampNothing(a0, rc0);
      while ai < m
        invariant 1 <= ai <= m
        invariant rowCounter == rc0 + |AlphaRows(n, m, order, depth, alpha, pos, ai)|
        invariant A == Stamp(a0, rc0, RowSets(n, m, AlphaRows(n, m, order, depth, alpha, pos, ai)))
      {
        SymbolPass(order, depth, alpha, pos, ai, a0, rc0);
        ai := ai + 1;
      }
    }

    /** One pass of the symbol loop of _recloop: the rows of symbol ai
        follow those of the symbols before it. */
    method SymbolPass(order: nat, depth: nat, alpha: seq<int>, pos: seq<int>, ai: int,
                      ghost a0: seq<set<int>>, ghost rc0: int)
      requires 1 <= depth <= order && TermsFor(order)
      requires |alpha| == depth - 1 && ValidPrefix(n, m, alpha, pos) && 1 <= ai < m
      requires 0 <= rc0 && rc0 + |Rows(n, m, order, depth, alpha, pos)| <= |a0|
      requires rowCounter == rc0 + |AlphaRows(n, m, order, depth, alpha, pos, ai)|
      requires A == Stamp(a0, rc0, RowSets(n, m, AlphaRows(n, m, order, depth, alpha, pos, ai)))
      modifies this`rowCounter, this`A
      ensures rowCounter == rc0 + |AlphaRows(n, m, order, depth, alpha, pos, ai + 1)|
      ensures A == Stamp(a0, rc0, RowSets(n, m, AlphaRows(n, m, order, depth, alpha, pos, ai + 1)))
      decreases order - depth, 3
    {
      AlphaRowsMonotone(n, m, order, depth, alpha, pos, ai + 1, m);
      AlphaStepCount(n, m, order, depth, alpha, pos, ai);
      PositionLoop(order, depth, alpha, pos, ai);
      AlphaStep(n, m, order, depth, alpha, pos, ai, a0, rc0);
    }

    /** The position loop of _recloop for the symbol ai: writes the rows of
        every position pi in pos_start .. n-(order-depth)-1 in turn. */
    method PositionLoop(order: nat, depth: nat, alpha: seq<int>, pos: seq<int>, ai: int)
      requires 1 <= depth <= order && TermsFor(order)
      requires |alpha| == depth - 1 && ValidPrefix(n, m, alpha, pos) && 1 <= ai < m
      requires 0 <= rowCounter
      requires rowCounter + |PosRows(n, m, order, depth, alpha + [ai], pos, n - (order - depth))| <= |A|
      modifies this`rowCounter, this`A
      ensures A == Stamp(old(A), old(rowCounter),
                         RowSets(n, m, PosRows(n, m, order, depth, alpha + [ai], pos, n - (order - depth))))
      ensures rowCounter == old(rowCounter) + |PosRows(n, m, order, depth, alpha + [ai], pos, n - (order - depth))|
      decreases order - depth, 2
    {
      ghost var a0 := A;
      ghost var rc0 := rowCounter;
      ghost var rows := PosRows(n, m, order, depth, alpha + [ai], pos, n - (order - depth));
      var posStart := if |pos| == 0 then 0 else pos[|pos| - 1] + 1;
      var hi := n - (order - depth);
      var pi := posStart;
      StampNothing(a0, rc0);
      while pi < hi
        invariant posStart <= pi && (pi <= hi || pi == posStart)
        invariant rc0 + |rows| <= |a0|
        invariant rowCounter == rc0 + |PosRows(n, m, order, depth, alpha + [ai], pos, pi)|
        invariant A == Stamp(a0, rc0, RowSets(n, m, PosRows(n, m, order, depth, alpha + [ai], pos, pi)))
      {
        PositionPass(order, depth, alpha, pos, ai, pi, a0, rc0);
        pi := pi + 1;
      }
      assert PosRows(n, m, order, depth, alpha + [ai], pos, pi) == rows;
    }

    /** One pass of the position loop of _recloop: the rows of position pi
        follow those of the positions before it. */
    method PositionPass(order: nat, depth: nat, alpha: seq<int>, pos: seq<int>, ai: int, pi: int,
                        ghost a0: seq<set<int>>, ghost rc0: int)
      requires 1 <= depth <= order && TermsFor(order)
      requires |alpha| == depth - 1 && ValidPrefix(n, m, alpha, pos) && 1 <= ai < m
      requires PosStart(pos) <= pi < n - (order - depth)
      requires 0 <= rc0 && rc0 + |PosRows(n, m, order, depth, alpha + [ai], pos, n - (order - depth))| <= |a0|
      requires rowCounter == rc0 + |PosRows(n, m, order, depth, alpha + [ai], pos, pi)|
      requires A == Stamp(a0, rc0, RowSets(n, m, PosRows(n, m, order, depth, alpha + [ai], pos, pi)))
      modifies this`rowCounter, this`A
      ensures rowCounter == rc0 + |PosRows(n, m, order, depth, alpha + [ai], pos, pi + 1)|
      ensures A == Stamp(a0, rc0, RowSets(n, m, PosRows(n, m, order, depth, alpha + [ai], pos, pi + 1)))
      decreases order - depth, 1
    {
      var alphaNew := alpha + [ai];
      var posNew := pos + [pi];
      ExtendPrefix(n, m, alpha, pos, ai, pi);
      PosRowsMonotone(n, m, order, depth, alphaNew, pos, pi + 1, n - (order - depth));
      PosStepCount(n, m, order, depth, alphaNew, pos, pi);
      EmitCell(order, depth, alphaNew, posNew);
      PosStep(n, m, order, depth, alphaNew, pos, pi, a0, rc0);
    }

    /** The body of the position loop of _recloop for one (alpha_new, pos_new):
        at the deepest level the row's columns are set and row_counter
        advances, otherwise the next level recurses. */
    method EmitCell(order: nat, depth: nat, alphaNew: seq<int>, posNew: seq<int>)
      requires 1 <= depth <= order && TermsFor(order)
      requires |alphaNew| == depth && ValidPrefix(n, m, alphaNew, posNew)
      requires posNew[|posNew| - 1] < n - (order - depth)
      requires 0 <= rowCounter && rowCounter + |Leaf(n, m, order, depth, alphaNew, posNew)| <= |A|
      modifies this`rowCounter, this`A
      ensures A == Stamp(old(A), old(rowCounter), RowSets(n, m, Leaf(n, m, order, depth, alphaNew, posNew)))
      ensures rowCounter == old(rowCounter) + |Leaf(n, m, order, depth, alphaNew, posNew)|
      decreases order - depth, 0
    {
      if depth == order {
        var cols := LeafColumns(order, alphaNew, posNew);
        StampOne(n, m, A, rowCounter, Row(alphaNew, posNew));
        A := A[rowCounter := A[rowCounter] + set c | c in cols];
        rowCounter := rowCounter + 1;
      } else {
        RecLoop(order, depth + 1, alphaNew, posNew);
      }
    }
  
    /** The index arithmetic of solve(Pr, order): l = order_idx[order] thetas
        are solved for, order_idx[-1] - order_idx[order] - 1 zeros follow. */
    method SolveLayout(order: int) returns (r: Result<Layout, LayoutError>)
      requires Valid()
      ensures PyIndex(order, n + 2).None? ==> r == Failure(OrderOutOfRange)
      ensures PyIndex(order, n + 2) == Some(n + 1) ==> r == Failure(NegativeDimension)
      ensures r.Success? <==> PyIndex(order, n + 2).Some? && PyIndex(order, n + 2).value <= n
      ensures r.Success? ==>
                var kk := PyIndex(order, n + 2).value;
                && r.value.solved == OrderIdx(n, m, kk)
                && 0 <= r.value.solved && 0 <= r.value.padding
                && r.value.solved + r.value.padding == dim
                && (r.value.solved <= |A| <==> kk <= k)
                && (kk <= k ==> A[..r.value.solved] == MatrixSpec(n, m, kk))
    {
      if !(-(n + 2) <= order < n + 2) {
        return Failure(OrderOutOfRange);
      }
      var kk := if order < 0 then order + n + 2 else order;
      var solved := orderIdx[kk];
      var padding := orderIdx[n + 1] - orderIdx[kk] - 1;
      LayoutFacts(kk);
      if padding < 0 {
        return Failure(NegativeDimension);
      }
      r := Success(Layout(solved, padding));
    }

    /** What the rows of order_idx mean for solve's slicing of A. */
    lemma LayoutFacts(kk: nat)
      requires Valid() && kk <= n + 1
      ensures kk == n + 1 ==> orderIdx[n + 1] - orderIdx[kk] - 1 < 0
      ensures kk <= n ==> 0 <= OrderIdx(n, m, kk) <= dim
      ensures kk <= n ==> (OrderIdx(n, m, kk) <= |A| <==> kk <= k)
      ensures kk <= k ==> A[..OrderIdx(n, m, kk)] == MatrixSpec(n, m, kk)
    {
      OrderIdxMonotone(n, m, 0, kk);
      if kk <= n {
        MatrixSquare(n, m);
        OrderIdxMonotone(n, m, kk, n);
        if kk <= k {
          MatrixPrefix(n, m, kk, k);
        } else {
          OrderIdxStrict(n, m, k, kk);
        }
      }
    }

    /** si2un(x): in place, after checking every value lies in [-l, l]. */
    method Si2Un(x: array<int>) returns (r: Outcome<ValueError>)
      requires m >= 2 && l == Half(m)
      modifies x
      ensures SignedToUnsigned(old(x[..]), m).Failure? ==>
                r == Fail(SignedToUnsigned(old(x[..]), m).error) && x[..] == old(x[..])
      ensures SignedToUnsigned(old(x[..]), m).Success? ==>
                r == Pass && x[..] == SignedToUnsigned(old(x[..]), m).value
    {
      if x.Length == 0 {
        return Fail(EmptyReduction);
      }
      var hi, lo := MaxMin(x);
      if hi > l || lo < -l {
        return Fail(ValueOutOfRange);
      }
      // x[np.where(x < 0)] += m
      for i := 0 to x.Length
        invariant forall j :: 0 <= j < i ==> x[j] == (if old(x[j]) < 0 then old(x[j]) + m else old(x[j]))
        invariant forall j :: i <= j < x.Length ==> x[j] == old(x[j])
      {
        if x[i] < 0 {
          x[i] := x[i] + m;
        }
      }
      r := Pass;
    }

    /** un2si(x): in place, after checking every value lies in [0, m-1]. */
    method Un2Si(x: array<int>) returns (r: Outcome<ValueError>)
      requires m >= 2 && l == Half(m)
      modifies x
      ensures UnsignedToSigned(old(x[..]), m).Failure? ==>
                r == Fail(UnsignedToSigned(old(x[..]), m).error) && x[..] == old(x[..])
      ensures UnsignedToSigned(old(x[..]), m).Success? ==>
                r == Pass && x[..] == UnsignedToSigned(old(x[..]), m).value
    {
      if x.Length == 0 {
        return Fail(EmptyReduction);
      }
      var hi, lo := MaxMin(x);
      if hi > m - 1 || lo < 0 {
        return Fail(ValueOutOfRange);
      }
      // x[np.where(x > l)] -= m
      for i := 0 to x.Length
        invariant forall j :: 0 <= j < i ==> x[j] == (if old(x[j]) > l then old(x[j]) - m else old(x[j]))
        invariant forall j :: i <= j < x.Length ==> x[j] == old(x[j])
      {
        if x[i] > l {
          x[i] := x[i] - m;
        }
      }
      r := Pass;
    }
  }

  /** x.max() and x.min() of a nonempty array. */
  method MaxMin(x: array<int>) returns (hi: int, lo: int)
    requires x.Length > 0
    ensures forall j :: 0 <= j < x.Length ==> lo <= x[j] <= hi
    ensures (exists j :: 0 <= j < x.Length && x[j] == hi) && (exists j :: 0 <= j < x.Length && x[j] == lo)
  {
    hi, lo := x[0], x[0];
    for i := 1 to x.Length
      invariant forall j :: 0 <= j < i ==> lo <= x[j] <= hi
      invariant (exists j :: 0 <= j < i && x[j] == hi) && (exists j :: 0 <= j < i && x[j] == lo)
    {
      if x[i] > hi {
        hi := x[i];
      }
      if x[i] < lo {
        lo := x[i];
      }
    }
  }
}
