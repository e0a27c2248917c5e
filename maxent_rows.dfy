/** The rows of the Amari constraint matrix A of pyentropy/pyentropy/maxent.py,
    as the nested loops of `_recloop` enumerate them, and what each row
    holds. A row is one interaction cell: symbols alpha[j] (1 <= alpha[j] < m)
    at strictly increasing variable positions pos[j]. */
module MaxEntRows {
  import opened Combinatorics
  import opened Utils

  datatype Row = Row(alpha: seq<int>, pos: seq<int>)

  /** `pos_start` of _recloop: the first position the next loop may use. */
  function PosStart(pos: seq<int>): int
  {
    if |pos| == 0 then 0 else pos[|pos| - 1] + 1
  }

  /** Positions increase by at least one per step (so strictly). */
  ghost predicate Spaced(pos: seq<int>)
  {
    forall i, j :: 0 <= i < j < |pos| ==> pos[i] + (j - i) <= pos[j]
  }

  /** A partial assignment as _recloop carries it: nonzero symbols of the
      alphabet at spaced positions inside the word. */
  ghost predicate ValidPrefix(n: nat, m: nat, alpha: seq<int>, pos: seq<int>)
  {
    && |alpha| == |pos|
    && (forall j :: 0 <= j < |alpha| ==> 1 <= alpha[j] < m)
    && (forall j :: 0 <= j < |pos| ==> 0 <= pos[j] < n)
    && Spaced(pos)
  }

  /** A complete row of interaction order o. */
  ghost predicate ValidRow(n: nat, m: nat, o: nat, r: Row)
  {
    |r.alpha| == o && ValidPrefix(n, m, r.alpha, r.pos)
  }

  // ---------------------------------------------------------------------
  // The enumeration order of _recloop(order, depth, alpha, pos): for each
  // symbol ai in 1 .. m-1 (outer loop), for each position pi in
  // pos_start .. n-(order-depth)-1 (inner loop), either one row (depth ==
  // order) or the rows of the recursive call at depth + 1.

  function Rows(n: nat, m: nat, order: nat, depth: nat, alpha: seq<int>, pos: seq<int>): seq<Row>
    requires 1 <= depth <= order
    decreases order - depth, 2, 0
  {
    AlphaRows(n, m, order, depth, alpha, pos, m)
  }

  /** The rows of the symbol iterations ai = 1 .. a-1. */
  function AlphaRows(n: nat, m: nat, order: nat, depth: nat, alpha: seq<int>, pos: seq<int>, a: int): seq<Row>
    requires 1 <= depth <= order
    decreases order - depth, 1, a
  {
    if a <= 1 then []
    else AlphaRows(n, m, order, depth, alpha, pos, a - 1)
         + PosRows(n, m, order, depth, alpha + [a - 1], pos, n - (order - depth))
  }

  /** The rows of the position iterations pi = PosStart(pos) .. p-1, with the
      symbol list alphaNew already extended. */
  function PosRows(n: nat, m: nat, order: nat, depth: nat, alphaNew: seq<int>, pos: seq<int>, p: int): seq<Row>
    requires 1 <= depth <= order
    decreases order - depth, 0, p - PosStart(pos)
  {
    if p <= PosStart(pos) then []
    else PosRows(n, m, order, depth, alphaNew, pos, p - 1)
         + Leaf(n, m, order, depth, alphaNew, pos + [p - 1])
  }

  /** The body of the position loop for one position. */
  function Leaf(n: nat, m: nat, order: nat, depth: nat, alphaNew: seq<int>, posNew: seq<int>): seq<Row>
    requires 1 <= depth <= order
    decreases order - depth, 0, 0
  {
    if depth == order then [Row(alphaNew, posNew)]
    else Rows(n, m, order, depth + 1, alphaNew, posNew)
  }

  /** The rows of one interaction order: _recloop(order, 1, [], []). */
  function OrderRows(n: nat, m: nat, order: nat): seq<Row>
    requires order >= 1
  {
    Rows(n, m, order, 1, [], [])
  }

  // ---------------------------------------------------------------------
  // Row counts

  /** order_length[i] of _calculate_orders: rows of interaction order i + 1. */
  function OrderLength(n: nat, m: nat, i: nat): int
  {
    Choose(n, i + 1) * Pow(m - 1, i + 1)
  }

  /** order_idx[i] of _calculate_orders for i <= n: rows of orders below i + 1. */
  function OrderIdx(n: nat, m: nat, i: nat): int
  {
    if i == 0 then 0 else OrderIdx(n, m, i - 1) + OrderLength(n, m, i - 1)
  }

  lemma {:induction false} LeafCount(n: nat, m: nat, order: nat, depth: nat, alphaNew: seq<int>, pos: seq<int>, p: int)
    requires 1 <= depth <= order && m >= 1
    requires p >= 1 && PosStart(pos) <= p - 1 && p <= n - (order - depth)
    ensures |Leaf(n, m, order, depth, alphaNew, pos + [p - 1])|
            == Pow(m - 1, order - depth) * Choose(n - p, order - depth)
    decreases order - depth, 0
  {
    if depth < order {
      RowsCount(n, m, order, depth + 1, alphaNew, pos + [p - 1]);
    }
  }

  lemma {:induction false} PosRowsCount(n: nat, m: nat, order: nat, depth: nat, alphaNew: seq<int>, pos: seq<int>, p: int)
    requires 1 <= depth <= order && m >= 1
    requires 0 <= PosStart(pos) <= p <= n - (order - depth)
    ensures |PosRows(n, m, order, depth, alphaNew, pos, p)|
            == Pow(m - 1, order - depth)
               * (Choose(n - PosStart(pos), order - depth + 1) - Choose(n - p, order - depth + 1))
    decreases order - depth, 1, p - PosStart(pos)
  {
    var s := PosStart(pos);
    var r := order - depth;
    if p > s {
      PosRowsCount(n, m, order, depth, alphaNew, pos, p - 1);
      LeafCount(n, m, order, depth, alphaNew, pos, p);
      assert Choose(n - (p - 1), r + 1) == Choose(n - p, r) + Choose(n - p, r + 1);
      var w := Pow(m - 1, r);
      assert w * (Choose(n - s, r + 1) - Choose(n - (p - 1), r + 1)) + w * Choose(n - p, r)
          == w * (Choose(n - s, r + 1) - Choose(n - (p - 1), r + 1) + Choose(n - p, r));
    }
  }

  lemma {:induction false} AlphaRowsCount(n: nat, m: nat, order: nat, depth: nat, alpha: seq<int>, pos: seq<int>, a: int)
    requires 1 <= depth <= order && m >= 1 && 1 <= a
    requires 0 <= PosStart(pos) <= n
    ensures |AlphaRows(n, m, order, depth, alpha, pos, a)|
            == (a - 1) * (Pow(m - 1, order - depth) * Choose(n - PosStart(pos), order - depth + 1))
    decreases order - depth, 2, a
  {
    if a > 1 {
      AlphaRowsCount(n, m, order, depth, alpha, pos, a - 1);
      var s := PosStart(pos);
      var hi := n - (order - depth);
      var w := Pow(m - 1, order - depth) * Choose(n - s, order - depth + 1);
      if s <= hi {
        PosRowsCount(n, m, order, depth, alpha + [a - 1], pos, hi);
        ChooseBeyond(n - hi, order - depth + 1);
      } else {
        ChooseBeyond(n - s, order - depth + 1);
      }
      assert (a - 2) * w + w == (a - 1) * w;
    }
  }

  /** _recloop(order, depth, alpha, pos) emits (m-1)^(order-depth+1) times
      Choose(n - pos_start, order-depth+1) rows. */
  lemma {:induction false} RowsCount(n: nat, m: nat, order: nat, depth: nat, alpha: seq<int>, pos: seq<int>)
    requires 1 <= depth <= order && m >= 1
    requires 0 <= PosStart(pos) <= n
    ensures |Rows(n, m, order, depth, alpha, pos)|
            == Pow(m - 1, order - depth + 1) * Choose(n - PosStart(pos), order - depth + 1)
    decreases order - depth, 3
  {
    AlphaRowsCount(n, m, order, depth, alpha, pos, m);
    var c := Choose(n - PosStart(pos), order - depth + 1);
    var w := Pow(m - 1, order - depth);
    assert Pow(m - 1, order - depth + 1) == (m - 1) * w;
    MulAssoc(m - 1, w, c);
  }

  /** _recloop for order o emits exactly order_length[o-1] rows. */
  lemma OrderRowsCount(n: nat, m: nat, order: nat)
    requires order >= 1 && m >= 1
    ensures |OrderRows(n, m, order)| == OrderLength(n, m, order - 1)
  {
    RowsCount(n, m, order, 1, [], []);
    assert PosStart([]) == 0 && order - 1 + 1 == order;
    var a, b := Pow(m - 1, order), Choose(n, order);
    assert |OrderRows(n, m, order)| == a * b;
  }

  // ---------------------------------------------------------------------
  // Every emitted row is a valid (alpha, pos) pair of its order

  lemma {:induction false} LeafValid(n: nat, m: nat, order: nat, depth: nat, alphaNew: seq<int>, posNew: seq<int>)
    requires 1 <= depth <= order && |alphaNew| == depth && ValidPrefix(n, m, alphaNew, posNew)
    requires posNew[|posNew| - 1] < n - (order - depth)
    ensures forall r :: r in Leaf(n, m, order, depth, alphaNew, posNew) ==> ValidRow(n, m, order, r)
    decreases order - depth, 0, 0
  {
    if depth < order {
      RowsValid(n, m, order, depth + 1, alphaNew, posNew);
    }
  }

  lemma {:induction false} PosRowsValid(n: nat, m: nat, order: nat, depth: nat, alphaNew: seq<int>, pos: seq<int>, p: int)
    requires 1 <= depth <= order && |alphaNew| == depth && |pos| == depth - 1
    requires ValidPrefix(n, m, alphaNew[..depth - 1], pos) && 1 <= alphaNew[depth - 1] < m
    requires p <= n - (order - depth)
    ensures forall r :: r in PosRows(n, m, order, depth, alphaNew, pos, p) ==> ValidRow(n, m, order, r)
    decreases order - depth, 1, p - PosStart(pos)
  {
    if p > PosStart(pos) {
      PosRowsValid(n, m, order, depth, alphaNew, pos, p - 1);
      var posNew := pos + [p - 1];
      assert PosStart(pos) >= 0;
      forall j | 0 <= j < |alphaNew| ensures 1 <= alphaNew[j] < m {
        if j < depth - 1 { assert alphaNew[j] == alphaNew[..depth - 1][j]; }
      }
      forall i, j | 0 <= i < j < |posNew| ensures posNew[i] + (j - i) <= posNew[j] {
        if j == |pos| && i < |pos| {
          assert pos[i] + (|pos| - 1 - i) <= pos[|pos| - 1];
        }
      }
      LeafValid(n, m, order, depth, alphaNew, posNew);
    }
  }

  lemma {:induction false} AlphaRowsValid(n: nat, m: nat, order: nat, depth: nat, alpha: seq<int>, pos: seq<int>, a: int)
    requires 1 <= depth <= order && |alpha| == depth - 1 && ValidPrefix(n, m, alpha, pos)
    requires a <= m
    ensures forall r :: r in AlphaRows(n, m, order, depth, alpha, pos, a) ==> ValidRow(n, m, order, r)
    decreases order - depth, 2, a
  {
    if a > 1 {
      AlphaRowsValid(n, m, order, depth, alpha, pos, a - 1);
      assert (alpha + [a - 1])[..depth - 1] == alpha;
      PosRowsValid(n, m, order, depth, alpha + [a - 1], pos, n - (order - depth));
    }
  }

  lemma {:induction false} RowsValid(n: nat, m: nat, order: nat, depth: nat, alpha: seq<int>, pos: seq<int>)
    requires 1 <= depth <= order && |alpha| == depth - 1 && ValidPrefix(n, m, alpha, pos)
    ensures forall r :: r in Rows(n, m, order, depth, alpha, pos) ==> ValidRow(n, m, order, r)
    decreases order - depth, 3, 0
  {
    AlphaRowsValid(n, m, order, depth, alpha, pos, m);
  }

  /** Every row of order o has o nonzero symbols at strictly increasing positions in [0, n). */
  lemma OrderRowsValid(n: nat, m: nat, order: nat)
    requires order >= 1
    ensures forall r :: r in OrderRows(n, m, order) ==> ValidRow(n, m, order, r)
  {
    RowsValid(n, m, order, 1, [], []);
  }

  /** One more loop level: a symbol in 1 .. m-1 at a position from pos_start on. */
  lemma ExtendPrefix(n: nat, m: nat, alpha: seq<int>, pos: seq<int>, a: int, p: int)
    requires ValidPrefix(n, m, alpha, pos) && 1 <= a < m && PosStart(pos) <= p < n
    ensures ValidPrefix(n, m, alpha + [a], pos + [p]) && PosStart(pos + [p]) == p + 1
  {
    var posNew := pos + [p];
    assert PosStart(pos) >= 0;
    forall i, j | 0 <= i < j < |posNew| ensures posNew[i] + (j - i) <= posNew[j] {
      if j == |pos| && i < |pos| {
        assert pos[i] + (|pos| - 1 - i) <= pos[|pos| - 1];
      }
    }
  }

  lemma {:induction false} PosRowsMonotone(n: nat, m: nat, order: nat, depth: nat, alphaNew: seq<int>, pos: seq<int>, p: int, q: int)
    requires 1 <= depth <= order && p <= q
    ensures |PosRows(n, m, order, depth, alphaNew, pos, p)| <= |PosRows(n, m, order, depth, alphaNew, pos, q)|
    decreases q - p
  {
    if p < q && q > PosStart(pos) {
      PosRowsMonotone(n, m, order, depth, alphaNew, pos, p, q - 1);
    }
  }

  lemma {:induction false} AlphaRowsMonotone(n: nat, m: nat, order: nat, depth: nat, alpha: seq<int>, pos: seq<int>, a: int, b: int)
    requires 1 <= depth <= order && a <= b
    ensures |AlphaRows(n, m, order, depth, alpha, pos, a)| <= |AlphaRows(n, m, order, depth, alpha, pos, b)|
    decreases b - a
  {
    if a < b && b > 1 {
      AlphaRowsMonotone(n, m, order, depth, alpha, pos, a, b - 1);
    }
  }

  /** The rows up to symbol a + 1 count those up to a and those of a. */
  lemma AlphaStepCount(n: nat, m: nat, order: nat, depth: nat, alpha: seq<int>, pos: seq<int>, a: int)
    requires 1 <= depth <= order && 1 <= a
    ensures |AlphaRows(n, m, order, depth, alpha, pos, a + 1)|
            == |AlphaRows(n, m, order, depth, alpha, pos, a)|
               + |PosRows(n, m, order, depth, alpha + [a], pos, n - (order - depth))|
  {
  }

  /** The rows up to position p + 1 count those up to p and those of p. */
  lemma PosStepCount(n: nat, m: nat, order: nat, depth: nat, alphaNew: seq<int>, pos: seq<int>, p: int)
    requires 1 <= depth <= order && PosStart(pos) <= p
    ensures |PosRows(n, m, order, depth, alphaNew, pos, p + 1)|
            == |PosRows(n, m, order, depth, alphaNew, pos, p)| + |Leaf(n, m, order, depth, alphaNew, pos + [p])|
  {
  }

  // ---------------------------------------------------------------------
  // Every row is emitted exactly once: the enumeration has no repeats, and
  // every valid row of the order appears in it

  /** r continues the partial assignment (alpha, pos) of a loop level. */
  ghost predicate HasPrefix(r: Row, order: nat, alpha: seq<int>, pos: seq<int>)
  {
    && |r.alpha| == |r.pos| == order && |alpha| <= order && |pos| <= order
    && r.alpha[..|alpha|] == alpha && r.pos[..|pos|] == pos
  }

  /** No row occurs twice. */
  ghost predicate Distinct(rows: seq<Row>)
  {
    forall i, j :: 0 <= i < j < |rows| ==> rows[i] != rows[j]
  }

  lemma DistinctAppend(x: seq<Row>, y: seq<Row>)
    requires Distinct(x) && Distinct(y) && forall r :: r in x ==> r !in y
    ensures Distinct(x + y)
  {
    forall i, j | 0 <= i < j < |x + y| ensures (x + y)[i] != (x + y)[j] {
      if i < |x| && j >= |x| {
        assert (x + y)[i] in x && (x + y)[j] in y;
      } else if i >= |x| {
        assert (x + y)[i] == y[i - |x|] && (x + y)[j] == y[j - |x|];
      }
    }
  }

  lemma {:induction false} LeafPrefix(n: nat, m: nat, order: nat, depth: nat, alphaNew: seq<int>, posNew: seq<int>)
    requires 1 <= depth <= order && |alphaNew| == |posNew| == depth
    ensures forall r :: r in Leaf(n, m, order, depth, alphaNew, posNew) ==> HasPrefix(r, order, alphaNew, posNew)
    decreases order - depth, 0, 0
  {
    if depth < order {
      RowsPrefix(n, m, order, depth + 1, alphaNew, posNew);
      forall r | r in Rows(n, m, order, depth + 1, alphaNew, posNew)
        ensures HasPrefix(r, order, alphaNew, posNew)
      {
      }
    } else {
      assert alphaNew[..depth] == alphaNew && posNew[..depth] == posNew;
    }
  }

  lemma {:induction false} PosRowsPrefix(n: nat, m: nat, order: nat, depth: nat, alphaNew: seq<int>, pos: seq<int>, p: int)
    requires 1 <= depth <= order && |alphaNew| == depth && |pos| == depth - 1
    ensures forall r :: r in PosRows(n, m, order, depth, alphaNew, pos, p) ==>
              HasPrefix(r, order, alphaNew, pos) && r.pos[depth - 1] < p
    decreases order - depth, 1, p - PosStart(pos)
  {
    if p > PosStart(pos) {
      PosRowsPrefix(n, m, order, depth, alphaNew, pos, p - 1);
      var posNew := pos + [p - 1];
      LeafPrefix(n, m, order, depth, alphaNew, posNew);
      forall r | r in Leaf(n, m, order, depth, alphaNew, posNew)
        ensures HasPrefix(r, order, alphaNew, pos) && r.pos[depth - 1] == p - 1
      {
        assert r.pos[..depth - 1] == r.pos[..depth][..depth - 1] == pos;
        assert r.pos[depth - 1] == r.pos[..depth][depth - 1] == p - 1;
      }
    }
  }

  lemma {:induction false} AlphaRowsPrefix(n: nat, m: nat, order: nat, depth: nat, alpha: seq<int>, pos: seq<int>, a: int)
    requires 1 <= depth <= order && |alpha| == |pos| == depth - 1
    ensures forall r :: r in AlphaRows(n, m, order, depth, alpha, pos, a) ==>
              HasPrefix(r, order, alpha, pos) && r.alpha[depth - 1] < a
    decreases order - depth, 2, a
  {
    if a > 1 {
      AlphaRowsPrefix(n, m, order, depth, alpha, pos, a - 1);
      var alphaNew := alpha + [a - 1];
      PosRowsPrefix(n, m, order, depth, alphaNew, pos, n - (order - depth));
      forall r | r in PosRows(n, m, order, depth, alphaNew, pos, n - (order - depth))
        ensures HasPrefix(r, order, alpha, pos) && r.alpha[depth - 1] == a - 1
      {
        assert r.alpha[..depth - 1] == r.alpha[..depth][..depth - 1] == alpha;
        assert r.alpha[depth - 1] == r.alpha[..depth][depth - 1] == a - 1;
      }
    }
  }

  lemma {:induction false} RowsPrefix(n: nat, m: nat, order: nat, depth: nat, alpha: seq<int>, pos: seq<int>)
    requires 1 <= depth <= order && |alpha| == |pos| == depth - 1
    ensures forall r :: r in Rows(n, m, order, depth, alpha, pos) ==> HasPrefix(r, order, alpha, pos)
    decreases order - depth, 3, 0
  {
    AlphaRowsPrefix(n, m, order, depth, alpha, pos, m);
  }

  lemma {:induction false} LeafDistinct(n: nat, m: nat, order: nat, depth: nat, alphaNew: seq<int>, posNew: seq<int>)
    requires 1 <= depth <= order && |alphaNew| == |posNew| == depth
    ensures Distinct(Leaf(n, m, order, depth, alphaNew, posNew))
    decreases order - depth, 0, 0
  {
    if depth < order {
      RowsDistinct(n, m, order, depth + 1, alphaNew, posNew);
    }
  }

  lemma {:induction false} PosRowsDistinct(n: nat, m: nat, order: nat, depth: nat, alphaNew: seq<int>, pos: seq<int>, p: int)
    requires 1 <= depth <= order && |alphaNew| == depth && |pos| == depth - 1
    ensures Distinct(PosRows(n, m, order, depth, alphaNew, pos, p))
    decreases order - depth, 1, p - PosStart(pos)
  {
    if p > PosStart(pos) {
      var x := PosRows(n, m, order, depth, alphaNew, pos, p - 1);
      var y := Leaf(n, m, order, depth, alphaNew, pos + [p - 1]);
      PosRowsDistinct(n, m, order, depth, alphaNew, pos, p - 1);
      LeafDistinct(n, m, order, depth, alphaNew, pos + [p - 1]);
      // rows before position p - 1 have an earlier position at this level
      PosRowsPrefix(n, m, order, depth, alphaNew, pos, p - 1);
      LeafPrefix(n, m, order, depth, alphaNew, pos + [p - 1]);
      forall r | r in y ensures r.pos[depth - 1] == p - 1 {
        assert r.pos[depth - 1] == r.pos[..depth][depth - 1];
      }
      DistinctAppend(x, y);
    }
  }

  lemma {:induction false} AlphaRowsDistinct(n: nat, m: nat, order: nat, depth: nat, alpha: seq<int>, pos: seq<int>, a: int)
    requires 1 <= depth <= order && |alpha| == |pos| == depth - 1
    ensures Distinct(AlphaRows(n, m, order, depth, alpha, pos, a))
    decreases order - depth, 2, a
  {
    if a > 1 {
      var alphaNew := alpha + [a - 1];
      var hi := n - (order - depth);
      var x := AlphaRows(n, m, order, depth, alpha, pos, a - 1);
      var y := PosRows(n, m, order, depth, alphaNew, pos, hi);
      AlphaRowsDistinct(n, m, order, depth, alpha, pos, a - 1);
      PosRowsDistinct(n, m, order, depth, alphaNew, pos, hi);
      // rows of earlier symbols carry a smaller symbol at this level
      AlphaRowsPrefix(n, m, order, depth, alpha, pos, a - 1);
      PosRowsPrefix(n, m, order, depth, alphaNew, pos, hi);
      forall r | r in y ensures r.alpha[depth - 1] == a - 1 {
        assert r.alpha[depth - 1] == r.alpha[..depth][depth - 1];
      }
      DistinctAppend(x, y);
    }
  }

  lemma {:induction false} RowsDistinct(n: nat, m: nat, order: nat, depth: nat, alpha: seq<int>, pos: seq<int>)
    requires 1 <= depth <= order && |alpha| == |pos| == depth - 1
    ensures Distinct(Rows(n, m, order, depth, alpha, pos))
    decreases order - depth, 3, 0
  {
    AlphaRowsDistinct(n, m, order, depth, alpha, pos, m);
  }

  /** _recloop for order o never emits the same row twice. */
  lemma OrderRowsDistinct(n: nat, m: nat, order: nat)
    requires order >= 1
    ensures forall i, j :: 0 <= i < j < |OrderRows(n, m, order)| ==> OrderRows(n, m, order)[i] != OrderRows(n, m, order)[j]
  {
    RowsDistinct(n, m, order, 1, [], []);
  }

  /** A valid row's position at level depth is within the range of that
      level's position loop. */
  lemma PositionBound(n: nat, m: nat, order: nat, depth: nat, r: Row)
    requires 1 <= depth <= order && ValidRow(n, m, order, r)
    ensures r.pos[depth - 1] < n - (order - depth)
  {
    if depth < order {
      assert r.pos[depth - 1] + (order - 1 - (depth - 1)) <= r.pos[order - 1];
    }
  }

  lemma {:induction false} LeafComplete(n: nat, m: nat, order: nat, depth: nat, alphaNew: seq<int>, posNew: seq<int>, r: Row)
    requires 1 <= depth <= order && |alphaNew| == |posNew| == depth && ValidRow(n, m, order, r)
    requires r.alpha[..depth] == alphaNew && r.pos[..depth] == posNew
    ensures r in Leaf(n, m, order, depth, alphaNew, posNew)
    decreases order - depth, 0, 0
  {
    if depth == order {
      assert r.alpha == r.alpha[..depth] && r.pos == r.pos[..depth];
    } else {
      assert PosStart(posNew) == r.pos[depth - 1] + 1 <= r.pos[depth];
      RowsComplete(n, m, order, depth + 1, alphaNew, posNew, r);
    }
  }

  lemma {:induction false} PosRowsComplete(n: nat, m: nat, order: nat, depth: nat, alphaNew: seq<int>, pos: seq<int>, p: int, r: Row)
    requires 1 <= depth <= order && |alphaNew| == depth && |pos| == depth - 1 && ValidRow(n, m, order, r)
    requires r.alpha[..depth] == alphaNew && r.pos[..depth - 1] == pos
    requires PosStart(pos) <= r.pos[depth - 1] < p
    ensures r in PosRows(n, m, order, depth, alphaNew, pos, p)
    decreases order - depth, 1, p - PosStart(pos)
  {
    if r.pos[depth - 1] == p - 1 {
      assert r.pos[..depth] == r.pos[..depth - 1] + [r.pos[depth - 1]];
      LeafComplete(n, m, order, depth, alphaNew, pos + [p - 1], r);
    } else {
      PosRowsComplete(n, m, order, depth, alphaNew, pos, p - 1, r);
    }
  }

  lemma {:induction false} AlphaRowsComplete(n: nat, m: nat, order: nat, depth: nat, alpha: seq<int>, pos: seq<int>, a: int, r: Row)
    requires 1 <= depth <= order && |alpha| == |pos| == depth - 1 && ValidRow(n, m, order, r)
    requires r.alpha[..depth - 1] == alpha && r.pos[..depth - 1] == pos
    requires PosStart(pos) <= r.pos[depth - 1] && r.alpha[depth - 1] < a
    ensures r in AlphaRows(n, m, order, depth, alpha, pos, a)
    decreases order - depth, 2, a
  {
    if r.alpha[depth - 1] == a - 1 {
      assert r.alpha[..depth] == r.alpha[..depth - 1] + [r.alpha[depth - 1]];
      PositionBound(n, m, order, depth, r);
      PosRowsComplete(n, m, order, depth, alpha + [a - 1], pos, n - (order - depth), r);
    } else {
      AlphaRowsComplete(n, m, order, depth, alpha, pos, a - 1, r);
    }
  }

  lemma {:induction false} RowsComplete(n: nat, m: nat, order: nat, depth: nat, alpha: seq<int>, pos: seq<int>, r: Row)
    requires 1 <= depth <= order && |alpha| == |pos| == depth - 1 && ValidRow(n, m, order, r)
    requires r.alpha[..depth - 1] == alpha && r.pos[..depth - 1] == pos
    requires PosStart(pos) <= r.pos[depth - 1]
    ensures r in Rows(n, m, order, depth, alpha, pos)
    decreases order - depth, 3, 0
  {
    AlphaRowsComplete(n, m, order, depth, alpha, pos, m, r);
  }

  /** The rows _recloop emits for order o are exactly the valid rows of
      order o: every strictly increasing position tuple with every tuple
      of nonzero symbols. */
  lemma OrderRowsComplete(n: nat, m: nat, order: nat, r: Row)
    requires order >= 1
    ensures r in OrderRows(n, m, order) <==> ValidRow(n, m, order, r)
  {
    OrderRowsValid(n, m, order);
    if ValidRow(n, m, order, r) {
      RowsComplete(n, m, order, 1, [], [], r);
    }
  }
}
