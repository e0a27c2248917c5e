/** pyentropy/utils.py: base-m word encoding of discrete responses and the
    counting half of the probability estimate. Integer arrays are Mat values
    (numpy 2-D int arrays) or seq<int> (1-D arrays). */
module Utils {
  import opened Outcomes
  import opened Combinatorics

  /** A two-dimensional numpy integer array of shape (rows, cols), row by row. */
  datatype Mat = Mat(rows: nat, cols: nat, cells: seq<seq<int>>) {
    ghost predicate Valid() {
      |cells| == rows && forall i :: 0 <= i < |cells| ==> |cells[i]| == cols
    }
  }

  /** The numpy element kind that the source tests with `np.issubdtype`. */
  datatype DType = IntType | FloatType

  /** The `ValueError`s raised by this file (and by numpy on its behalf). */
  datatype ValueError =
    | NotColumnVector      // dec2base: input is not a [t, 1] array
    | ShapeMismatch        // decimalise: x.shape[0] != n
    | EmptyReduction       // numpy: max()/min() of a zero-size array
    | ValueOutOfRange      // decimalise: x.max() > m - 1
    | NegativeInBincount   // numpy: bincount of a negative value
    | NotIntegerType       // prob: input must be of integer type

  /** Column t of x. */
  function Column(x: Mat, t: nat): (c: seq<int>)
    requires x.Valid() && t < x.cols
    ensures |c| == x.rows
  {
    seq(x.rows, i requires 0 <= i < x.rows => x.cells[i][t])
  }

  /** x.T */
  function Transpose(x: Mat): (y: Mat)
    requires x.Valid()
    ensures y.Valid() && y.rows == x.cols && y.cols == x.rows
  {
    Mat(x.cols, x.rows, seq(x.cols, t requires 0 <= t < x.cols => Column(x, t)))
  }

  // ---------------------------------------------------------------------
  // Words and their values

  /** Every entry of w is a base-b digit. */
  ghost predicate IsDigits(w: seq<int>, b: int) {
    forall i :: 0 <= i < |w| ==> 0 <= w[i] < b
  }

  /** The value of the base-b word w, most significant digit first:
      the sum over j of w[j] * b^(|w| - 1 - j). */
  function WordValue(w: seq<int>, b: int): int
  {
    if |w| == 0 then 0 else w[0] * Pow(b, |w| - 1) + WordValue(w[1..], b)
  }

  /** Digit j (counted from the least significant end) of x as dec2base
      computes it: floor((x mod b^(j+1)) / b^j), with numpy's remainder,
      whose sign follows the (positive) divisor. */
  function Digit(x: int, b: int, j: nat): (r: int)
    requires b >= 1
    ensures 0 <= r < b
  {
    PowPositive(b, j);
    DigitRange(x, b, Pow(b, j));
    (x % (b * Pow(b, j))) / Pow(b, j)
  }

  lemma DigitRange(x: int, b: int, p: int)
    requires b >= 1 && p >= 1
    ensures b * p >= 1 && 0 <= (x % (b * p)) / p < b
  {
    MulAtLeast(b, p, 1, 1);
    var y := x % (b * p);
    var q := y / p;
    assert y == q * p + y % p;
    if q >= b {
      MulAtLeast(q, p, b, p);
    }
  }

  /** One row of dec2base(x, b, digits): `digits` digits of x, most
      significant first. */
  function Dec2BaseRow(x: int, b: int, digits: nat): (w: seq<int>)
    requires b >= 1
    ensures |w| == digits && IsDigits(w, b)
  {
    seq(digits, i requires 0 <= i < digits => Digit(x, b, digits - 1 - i))
  }

  /** The powers vector b^(len-1), ..., b^0 used by base2dec and decimalise. */
  function Powers(b: int, len: nat): (p: seq<int>)
    ensures |p| == len
  {
    seq(len, i requires 0 <= i < len => Pow(b, len - 1 - i))
  }

  /** np.dot of two vectors of equal length. */
  function Dot(v: seq<int>, p: seq<int>): int
    requires |v| == |p|
  {
    if |v| == 0 then 0 else v[0] * p[0] + Dot(v[1..], p[1..])
  }

  // ---------------------------------------------------------------------
  // The three conversions of utils.py

  /** dec2base(x, b, digits): x must be a [t, 1] column vector. */
  function Dec2Base(x: Mat, b: int, digits: nat): (r: Result<Mat, ValueError>)
    requires x.Valid() && b >= 1
    ensures r.Success? <==> x.cols == 1
    ensures r.Failure? ==> r.error == NotColumnVector
    ensures r.Success? ==> r.value.Valid() && r.value.rows == x.rows && r.value.cols == digits
    ensures r.Success? ==> forall t :: 0 <= t < x.rows ==> IsDigits(r.value.cells[t], b)
  {
    if x.cols != 1 then Failure(NotColumnVector)
    else Success(Mat(x.rows, digits,
                     seq(x.rows, t requires 0 <= t < x.rows => Dec2BaseRow(x.cells[t][0], b, digits))))
  }

  /** base2dec(x, b): the dot product of every row with b^(cols-1), ..., b^0. */
  function Base2Dec(x: Mat, b: int): (y: seq<int>)
    requires x.Valid()
    ensures |y| == x.rows
    ensures forall t :: 0 <= t < x.rows ==> y[t] == WordValue(x.cells[t], b)
  {
    DotPowersAll(x, b);
    seq(x.rows, t requires 0 <= t < x.rows => Dot(x.cells[t], Powers(b, x.cols)))
  }

  lemma DotPowersAll(x: Mat, b: int)
    requires x.Valid()
    ensures forall t :: 0 <= t < x.rows ==> Dot(x.cells[t], Powers(b, x.cols)) == WordValue(x.cells[t], b)
  {
    forall t | 0 <= t < x.rows
      ensures Dot(x.cells[t], Powers(b, x.cols)) == WordValue(x.cells[t], b)
    {
      DotPowers(x.cells[t], b);
    }
  }

  /** Some entry of x exceeds v. */
  predicate SomeAbove(x: Mat, v: int)
    requires x.Valid()
  {
    exists i, j | 0 <= i < x.rows && 0 <= j < x.cols :: x.cells[i][j] > v
  }

  /** decimalise(x, n, m): each column of the n x t array x is a length-n
      base-m word; the result holds the value of every column. */
  function Decimalise(x: Mat, n: int, m: int): (r: Result<seq<int>, ValueError>)
    requires x.Valid()
    ensures r.Success? <==> x.rows == n && x.rows * x.cols != 0 && !SomeAbove(x, m - 1)
    ensures r.Failure? && x.rows != n ==> r.error == ShapeMismatch
    ensures r.Success? ==> |r.value| == x.cols
    ensures r.Success? ==> forall t :: 0 <= t < x.cols ==> r.value[t] == WordValue(Column(x, t), m)
  {
    if x.rows != n then Failure(ShapeMismatch)
    else if x.rows * x.cols == 0 then Failure(EmptyReduction)
    else if SomeAbove(x, m - 1) then Failure(ValueOutOfRange)
    else
      var y := Transpose(x);
      DotPowersAll(y, m);
      Success(seq(y.rows, t requires 0 <= t < y.rows => Dot(y.cells[t], Powers(m, n))))
  }

  // ---------------------------------------------------------------------
  // Lemmas about words

  lemma {:induction false} DotPowers(w: seq<int>, b: int)
    ensures Dot(w, Powers(b, |w|)) == WordValue(w, b)
  {
    if |w| > 0 {
      assert Powers(b, |w|)[1..] == Powers(b, |w| - 1);
      DotPowers(w[1..], b);
    }
  }

  /** Dropping the leading digit of a dec2base row leaves the shorter row. */
  lemma Dec2BaseRowCons(x: int, b: int, d: nat)
    requires b >= 1
    ensures Dec2BaseRow(x, b, d + 1) == [Digit(x, b, d)] + Dec2BaseRow(x, b, d)
  {
    assert Dec2BaseRow(x, b, d + 1)[1..] == Dec2BaseRow(x, b, d);
  }

  /** x mod b^(d+1) splits into its leading digit and x mod b^d. */
  lemma DigitPeel(x: int, b: int, d: nat)
    requires b >= 1
    ensures Pow(b, d) >= 1
    ensures x % Pow(b, d + 1) == Digit(x, b, d) * Pow(b, d) + x % Pow(b, d)
  {
    var p := Pow(b, d);
    PowPositive(b, d);
    ModMod(x, p, b);
    assert p * b == b * p;
    var y := x % (b * p);
    assert y == (y / p) * p + y % p;
  }

  /** The value of a dec2base row is x mod b^digits, for every integer x. */
  lemma {:induction false} WordValueOfDec2Base(x: int, b: int, d: nat)
    requires b >= 1
    ensures Pow(b, d) >= 1
    ensures WordValue(Dec2BaseRow(x, b, d), b) == x % Pow(b, d)
  {
    PowPositive(b, d);
    if d == 0 {
      assert Dec2BaseRow(x, b, 0) == [];
      DivModUnique(x, 1, x, 0);
    } else {
      WordValueOfDec2Base(x, b, d - 1);
      Dec2BaseRowCons(x, b, d - 1);
      DigitPeel(x, b, d - 1);
      assert Dec2BaseRow(x, b, d)[1..] == Dec2BaseRow(x, b, d - 1);
    }
  }

  /** base2dec(dec2base(x, b, d), b) == x on one value, 0 <= x < b^d. */
  lemma Dec2BaseRoundTrip(x: int, b: int, d: nat)
    requires b >= 1 && 0 <= x < Pow(b, d)
    ensures WordValue(Dec2BaseRow(x, b, d), b) == x
  {
    WordValueOfDec2Base(x, b, d);
    DivModUnique(x, Pow(b, d), 0, x);
  }

  lemma {:induction false} WordValueRange(w: seq<int>, b: int)
    requires b >= 1 && IsDigits(w, b)
    ensures 0 <= WordValue(w, b) < Pow(b, |w|)
  {
    if |w| > 0 {
      WordValueRange(w[1..], b);
      var p := Pow(b, |w| - 1);
      PowPositive(b, |w| - 1);
      MulAtLeast(b - 1, p, w[0], p);
      MulAtLeast(w[0], p, 0, 0);
      assert (b - 1) * p + p == b * p;
    }
  }

  lemma {:induction false} WordValueNonneg(w: seq<int>, b: int)
    requires b >= 1 && forall i :: 0 <= i < |w| ==> w[i] >= 0
    ensures WordValue(w, b) >= 0
  {
    if |w| > 0 {
      WordValueNonneg(w[1..], b);
      PowPositive(b, |w| - 1);
      MulAtLeast(w[0], Pow(b, |w| - 1), 0, 0);
    }
  }

  /** A word of non-negative digits with a nonzero digit has a positive value. */
  lemma {:induction false} WordValuePositive(w: seq<int>, b: int, i: nat)
    requires b >= 1 && forall j :: 0 <= j < |w| ==> w[j] >= 0
    requires i < |w| && w[i] >= 1
    ensures WordValue(w, b) >= 1
  {
    WordValueNonneg(w[1..], b);
    PowPositive(b, |w| - 1);
    if i == 0 {
      MulAtLeast(w[0], Pow(b, |w| - 1), 1, 1);
    } else {
      WordValuePositive(w[1..], b, i - 1);
      MulAtLeast(w[0], Pow(b, |w| - 1), 0, 0);
    }
  }

  /** Base-b representations of a fixed length are unique. */
  lemma {:induction false} WordValueInjective(w1: seq<int>, w2: seq<int>, b: int)
    requires b >= 1 && |w1| == |w2| && IsDigits(w1, b) && IsDigits(w2, b)
    requires WordValue(w1, b) == WordValue(w2, b)
    ensures w1 == w2
  {
    if |w1| > 0 {
      var p := Pow(b, |w1| - 1);
      PowPositive(b, |w1| - 1);
      WordValueRange(w1[1..], b);
      WordValueRange(w2[1..], b);
      DivModUnique(WordValue(w1, b), p, w1[0], WordValue(w1[1..], b));
      DivModUnique(WordValue(w2, b), p, w2[0], WordValue(w2[1..], b));
      WordValueInjective(w1[1..], w2[1..], b);
      assert w1 == [w1[0]] + w1[1..];
      assert w2 == [w2[0]] + w2[1..];
    }
  }

  /** dec2base(base2dec(w, b), b, |w|) == w for a word of base-b digits. */
  lemma Base2DecRoundTrip(w: seq<int>, b: int)
    requires b >= 1 && IsDigits(w, b)
    ensures Dec2BaseRow(WordValue(w, b), b, |w|) == w
  {
    WordValueRange(w, b);
    Dec2BaseRoundTrip(WordValue(w, b), b, |w|);
    WordValueInjective(Dec2BaseRow(WordValue(w, b), b, |w|), w, b);
  }

  /** base2dec(dec2base(x, b, d), b) == x for a column vector of values in [0, b^d). */
  lemma Base2DecOfDec2Base(x: Mat, b: int, d: nat)
    requires x.Valid() && b >= 1 && x.cols == 1
    requires forall t :: 0 <= t < x.rows ==> 0 <= x.cells[t][0] < Pow(b, d)
    ensures Base2Dec(Dec2Base(x, b, d).value, b) == Column(x, 0)
  {
    var y := Base2Dec(Dec2Base(x, b, d).value, b);
    forall t | 0 <= t < x.rows
      ensures y[t] == Column(x, 0)[t]
    {
      Dec2BaseRoundTrip(x.cells[t][0], b, d);
    }
  }

  /** Without a value above b - 1 (and none below 0), every base2dec value is below b^cols. */
  lemma Base2DecBound(x: Mat, b: int)
    requires x.Valid() && b >= 1
    requires forall t :: 0 <= t < x.rows ==> IsDigits(x.cells[t], b)
    ensures forall t :: 0 <= t < x.rows ==> 0 <= Base2Dec(x, b)[t] < Pow(b, x.cols)
  {
    forall t | 0 <= t < x.rows
      ensures 0 <= Base2Dec(x, b)[t] < Pow(b, x.cols)
    {
      WordValueRange(x.cells[t], b);
    }
  }

  /** decimalise(x, n, m) is base2dec of the transpose. */
  lemma DecimaliseIsBase2DecOfTranspose(x: Mat, n: int, m: int)
    requires x.Valid() && Decimalise(x, n, m).Success?
    ensures Decimalise(x, n, m).value == Base2Dec(Transpose(x), m)
  {
  }

  // ---------------------------------------------------------------------
  // The counting half of prob

  /** Number of occurrences of v in x. */
  function Count(x: seq<int>, v: int): nat
  {
    if |x| == 0 then 0 else Count(x[..|x| - 1], v) + (if x[|x| - 1] == v then 1 else 0)
  }

  function SeqMax(x: seq<int>): (r: int)
    requires |x| > 0
    ensures forall i :: 0 <= i < |x| ==> x[i] <= r
    ensures exists i :: 0 <= i < |x| && x[i] == r
  {
    if |x| == 1 then x[0]
    else
      var r := SeqMax(x[..|x| - 1]);
      assert forall i :: 0 <= i < |x| - 1 ==> x[..|x| - 1][i] == x[i];
      if x[|x| - 1] > r then x[|x| - 1] else r
  }

  function Sum(s: seq<nat>): nat
  {
    if |s| == 0 then 0 else Sum(s[..|s| - 1]) + s[|s| - 1]
  }

  /** np.bincount(x), resized with zeros to n bins when it is shorter (the
      `r < n` branch of prob). numpy rejects negative values. */
  function Histogram(x: seq<int>, n: int): (r: Result<seq<nat>, ValueError>)
    ensures r.Success? <==> forall i :: 0 <= i < |x| ==> x[i] >= 0
    ensures r.Failure? ==> r.error == NegativeInBincount
    ensures r.Success? ==> |r.value| >= n
    ensures r.Success? ==> forall i :: 0 <= i < |x| ==> x[i] < |r.value|
    ensures r.Success? && |x| > 0 ==> |r.value| == if SeqMax(x) + 1 < n then n else SeqMax(x) + 1
    ensures r.Success? ==> forall v :: 0 <= v < |r.value| ==> r.value[v] == Count(x, v)
  {
    if exists i | 0 <= i < |x| :: x[i] < 0 then Failure(NegativeInBincount)
    else
      var bins := if |x| == 0 then 0 else SeqMax(x) + 1;
      var len := if bins < n then n else bins;
      Success(seq(len, v requires 0 <= v < len => Count(x, v)))
  }

  /** The integer-type test that opens prob, followed by the histogram. */
  function CountBins(x: seq<int>, dtype: DType, n: int): (r: Result<seq<nat>, ValueError>)
    ensures dtype == FloatType ==> r == Failure(NotIntegerType)
    ensures dtype == IntType ==> r == Histogram(x, n)
  {
    if dtype != IntType then Failure(NotIntegerType) else Histogram(x, n)
  }

  /** The counts of the bins below len; adding one sample adds one to it
      exactly when the sample lies below len. */
  function CountsBelow(x: seq<int>, len: nat): nat
  {
    if len == 0 then 0 else CountsBelow(x, len - 1) + Count(x, len - 1)
  }

  lemma {:induction false} CountsBelowSnoc(x: seq<int>, e: int, len: nat)
    ensures CountsBelow(x + [e], len) == CountsBelow(x, len) + (if 0 <= e < len then 1 else 0)
  {
    if len > 0 {
      CountsBelowSnoc(x, e, len - 1);
      assert (x + [e])[..|x + [e]| - 1] == x;
    }
  }

  lemma {:induction false} CountsBelowTotal(x: seq<int>, len: nat)
    requires forall i :: 0 <= i < |x| ==> 0 <= x[i] < len
    ensures CountsBelow(x, len) == |x|
  {
    if |x| == 0 {
      CountsBelowEmpty(len);
    } else {
      var y := x[..|x| - 1];
      assert x == y + [x[|x| - 1]];
      CountsBelowTotal(y, len);
      CountsBelowSnoc(y, x[|x| - 1], len);
    }
  }

  lemma {:induction false} CountsBelowEmpty(len: nat)
    ensures CountsBelow([], len) == 0
  {
    if len > 0 { CountsBelowEmpty(len - 1); }
  }

  lemma {:induction false} SumOfCounts(x: seq<int>, len: nat)
    ensures Sum(seq(len, v requires 0 <= v < len => Count(x, v))) == CountsBelow(x, len)
  {
    if len > 0 {
      SumOfCounts(x, len - 1);
      assert seq(len, v requires 0 <= v < len => Count(x, v))[..len - 1]
          == seq(len - 1, v requires 0 <= v < len - 1 => Count(x, v));
    }
  }

  /** The histogram accounts for every sample: its counts add up to x.size. */
  lemma HistogramTotal(x: seq<int>, n: int)
    requires Histogram(x, n).Success?
    ensures Sum(Histogram(x, n).value) == |x|
  {
    var c := Histogram(x, n).value;
    assert c == seq(|c|, v requires 0 <= v < |c| => Count(x, v));
    SumOfCounts(x, |c|);
    CountsBelowTotal(x, |c|);
  }

  // ---------------------------------------------------------------------
  // The 'naive' estimate of utils.prob, which divides by the bin count

  /** C / N elementwise, over exact reals. */
  function Normalise(c: seq<nat>, total: nat): (p: seq<real>)
    requires total > 0
    ensures |p| == |c| && forall i :: 0 <= i < |c| ==> p[i] == c[i] as real / total as real
  {
    seq(|c|, i requires 0 <= i < |c| => c[i] as real / total as real)
  }

  function RealSum(s: seq<real>): real
  {
    if |s| == 0 then 0.0 else RealSum(s[..|s| - 1]) + s[|s| - 1]
  }

  lemma {:induction false} NormaliseSum(c: seq<nat>, total: nat)
    requires total > 0
    ensures RealSum(Normalise(c, total)) == Sum(c) as real / total as real
  {
    if |c| > 0 {
      var k := |c| - 1;
      var a, b, t := Sum(c[..k]) as real, c[k] as real, total as real;
      assert a / t + b / t == (a + b) / t;
      assert Normalise(c, total)[..k] == Normalise(c[..k], total);
      NormaliseSum(c[..k], total);
      assert Sum(c) == Sum(c[..k]) + c[k];
    }
  }

  /** prob(x, n, 'naive') of utils.py as written: the counts are handed to
      _probcount with N = n, the number of bins. */
  function ProbNaive(x: seq<int>, dtype: DType, n: nat): (r: Result<seq<real>, ValueError>)
    requires n > 0
    ensures r.Success? <==> CountBins(x, dtype, n).Success?
    ensures r.Success? ==> r.value == Normalise(CountBins(x, dtype, n).value, n)
  {
    match CountBins(x, dtype, n)
    case Failure(e) => Failure(e)
    case Success(c) => Success(Normalise(c, n))
  }

  /** As written, the naive estimate of utils.prob adds up to x.size / n,
      which is 1 only when there are exactly as many samples as bins. */
  lemma ProbNaiveTotal(x: seq<int>, dtype: DType, n: nat)
    requires n > 0 && ProbNaive(x, dtype, n).Success?
    ensures RealSum(ProbNaive(x, dtype, n).value) == |x| as real / n as real
  {
    HistogramTotal(x, n);
    NormaliseSum(CountBins(x, dtype, n).value, n);
  }

  /** One sample and two bins: the estimate adds up to 1/2, not 1. */
  lemma ProbNaiveNotNormalised()
    ensures ProbNaive([0], IntType, 2).Success?
    ensures RealSum(ProbNaive([0], IntType, 2).value) == 0.5
  {
    ProbNaiveTotal([0], IntType, 2);
  }
}
