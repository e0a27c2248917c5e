/** The trial bookkeeping of DiscreteSystem and SortedDiscreteSystem in
    pyentropy/pyentropy/pyentropy.py: the input checks of the constructors,
    the preparation for quadratic extrapolation (shuffle, trim), the
    per-stimulus blocks of a sorted system and the subsampled instances.
    Trials are the columns of the n x t arrays X and Y. */
module DiscreteSystems {
  import opened Outcomes
  import opened Combinatorics
  import opened Utils
  import PyEntropy

  // ---------------------------------------------------------------------
  // Input checks

  datatype InputError =
    | NotInteger        // "Inputs must be of integer type"
    | EmptyArray        // numpy: max() of a zero-size array
    | XOutOfRange       // "X values must be in [0, X_m)"
    | YOutOfRange       // "Y values must be in [0, Y_m)"
    | XRowsMismatch     // "X.shape[0] must equal X_n"
    | YRowsMismatch     // "Y.shape[0] must equal Y_n"
    | TrialsMismatch    // "X and Y must contain same number of trials"
    | NyLengthMismatch  // "Ny must contain Y_m elements"
    | NyTotalMismatch   // "Ny.sum() must equal number of X input trials"

  predicate IsEmpty(x: Mat)
  {
    x.rows == 0 || x.cols == 0
  }

  /** Every entry lies in [0, hi). */
  predicate ValuesBelow(x: Mat, hi: int)
    requires x.Valid()
  {
    forall i, j | 0 <= i < x.rows && 0 <= j < x.cols :: 0 <= x.cells[i][j] < hi
  }

  /** `x.max() >= hi or x.min() < 0`, where numpy's max of an empty array
      fails first. */
  function CheckRange(x: Mat, hi: int, err: InputError): (r: Outcome<InputError>)
    requires x.Valid()
    ensures r == Pass <==> !IsEmpty(x) && ValuesBelow(x, hi)
    ensures r.Fail? ==> r.error == (if IsEmpty(x) then EmptyArray else err)
  {
    if IsEmpty(x) then Fail(EmptyArray)
    else if !ValuesBelow(x, hi) then Fail(err)
    else Pass
  }

  /** DiscreteSystem._check_inputs(X, Y), the checks taken in order. */
  function CheckInputs(x: Mat, xType: DType, y: Mat, yType: DType, xn: nat, xm: nat, yn: nat, ym: nat)
    : (r: Outcome<InputError>)
    requires x.Valid() && y.Valid()
    ensures r == Pass <==>
              && xType == IntType && yType == IntType
              && !IsEmpty(x) && ValuesBelow(x, xm) && !IsEmpty(y) && ValuesBelow(y, ym)
              && x.rows == xn && y.rows == yn && x.cols == y.cols
    ensures r == Fail(NotInteger) <==> xType != IntType || yType != IntType
    ensures r == Fail(XRowsMismatch) || r == Fail(YRowsMismatch) || r == Fail(TrialsMismatch) ==>
              ValuesBelow(x, xm) && ValuesBelow(y, ym)
  {
    if xType != IntType || yType != IntType then Fail(NotInteger)
    else if CheckRange(x, xm, XOutOfRange).Fail? then CheckRange(x, xm, XOutOfRange)
    else if CheckRange(y, ym, YOutOfRange).Fail? then CheckRange(y, ym, YOutOfRange)
    else if x.rows != xn then Fail(XRowsMismatch)
    else if y.rows != yn then Fail(YRowsMismatch)
    else if y.cols != x.cols then Fail(TrialsMismatch)
    else Pass
  }

  /** Accepted X words decimalise into [0, X_dim), so the histogram of the
      decimalised trials has exactly X_dim bins. */
  lemma AcceptedWordsFit(x: Mat, xn: nat, xm: nat)
    requires x.Valid() && x.rows == xn && !IsEmpty(x) && ValuesBelow(x, xm)
    ensures PyEntropy.Decimalise(x, xn, xm).Success?
    ensures var d := PyEntropy.Decimalise(x, xn, xm).value;
            && (forall t :: 0 <= t < |d| ==> 0 <= d[t] < Pow(xm, xn))
            && Histogram(d, Pow(xm, xn)).Success?
            && |Histogram(d, Pow(xm, xn)).value| == Pow(xm, xn)
  {
    var d := PyEntropy.Decimalise(x, xn, xm).value;
    forall t | 0 <= t < |d| ensures 0 <= d[t] < Pow(xm, xn) {
      var c := Column(x, t);
      assert IsDigits(c, xm) by {
        forall i | 0 <= i < |c| ensures 0 <= c[i] < xm {
          assert c[i] == x.cells[i][t];
        }
      }
      WordValueRange(c, xm);
    }
  }

  /** SortedDiscreteSystem._check_inputs(), the checks taken in order. */
  function CheckSortedInputs(x: Mat, xType: DType, xn: nat, xm: nat, ym: nat, ny: seq<int>)
    : (r: Outcome<InputError>)
    requires x.Valid()
    ensures r == Pass <==>
              && xType == IntType && !IsEmpty(x) && ValuesBelow(x, xm) && x.rows == xn
              && |ny| == ym && Total(ny) == x.cols
    ensures r == Fail(NotInteger) <==> xType != IntType
    ensures r == Fail(NyTotalMismatch) ==> |ny| == ym && ValuesBelow(x, xm) && x.rows == xn
  {
    if xType != IntType then Fail(NotInteger)
    else if CheckRange(x, xm, XOutOfRange).Fail? then CheckRange(x, xm, XOutOfRange)
    else if x.rows != xn then Fail(XRowsMismatch)
    else if |ny| != ym then Fail(NyLengthMismatch)
    else if Total(ny) != x.cols then Fail(NyTotalMismatch)
    else Pass
  }

  // ---------------------------------------------------------------------
  // Column selections

  /** x[:, idx]. */
  function SelectColumns(x: Mat, idx: seq<int>): (y: Mat)
    requires x.Valid() && forall j :: 0 <= j < |idx| ==> 0 <= idx[j] < x.cols
    ensures y.Valid() && y.rows == x.rows && y.cols == |idx|
    ensures forall i, j :: 0 <= i < x.rows && 0 <= j < |idx| ==> y.cells[i][j] == x.cells[i][idx[j]]
  {
    Mat(x.rows, |idx|, seq(x.rows, i requires 0 <= i < x.rows =>
                            seq(|idx|, j requires 0 <= j < |idx| => x.cells[i][idx[j]])))
  }

  /** Selecting columns keeps every value in range. */
  lemma SelectKeepsRange(x: Mat, idx: seq<int>, hi: int)
    requires x.Valid() && forall j :: 0 <= j < |idx| ==> 0 <= idx[j] < x.cols
    requires ValuesBelow(x, hi)
    ensures ValuesBelow(SelectColumns(x, idx), hi)
  {
    var y := SelectColumns(x, idx);
    forall i, j | 0 <= i < y.rows && 0 <= j < y.cols ensures 0 <= y.cells[i][j] < hi {
      assert y.cells[i][j] == x.cells[i][idx[j]];
    }
  }

  /** lo, lo + 1, ..., hi - 1: np.arange(lo, hi), empty when hi <= lo. */
  function Range(lo: int, hi: int): (s: seq<int>)
    ensures |s| == if lo <= hi then hi - lo else 0
    ensures forall j :: 0 <= j < |s| ==> s[j] == lo + j
  {
    if lo <= hi then seq(hi - lo, j requires 0 <= j < hi - lo => lo + j) else []
  }

  /** A permutation of 0 .. n-1, as np.random.permutation(n) returns one
      (for a negative n numpy returns an empty array; this predicate
      admits none, and the sorted _qe_prep is modelled for nonnegative counts). */
  ghost predicate IsPermutation(p: seq<int>, n: int)
  {
    && |p| == n
    && (forall j :: 0 <= j < |p| ==> 0 <= p[j] < n)
    && (forall i, j :: 0 <= i < j < |p| ==> p[i] != p[j])
  }

  // ---------------------------------------------------------------------
  // Subsampling of an unsorted system

  /** The interval sub = (df, s) of _subsampled_instance: trials
      s * N/df .. (s+1) * N/df, the float bounds cut to integers. */
  function SubsampleSlice(n: nat, df: nat, s: nat): (sl: (int, int))
    requires df >= 1 && s < df
    ensures 0 <= sl.0 <= sl.1 <= n
  {
    MulAtLeast(df, n, s + 1, n);
    DivBounds(s * n, (s + 1) * n, df * n, df);
    (s * n / df, (s + 1) * n / df)
  }

  /** floor(a/d) <= floor(b/d) <= floor(c/d) for a <= b <= c. */
  lemma DivBounds(a: nat, b: nat, c: nat, d: nat)
    requires d >= 1 && a <= b <= c
    ensures 0 <= a / d <= b / d <= c / d
  {
    DivMonotone(a, b, d);
    DivMonotone(b, c, d);
  }

  lemma DivMonotone(a: nat, b: nat, d: nat)
    requires d >= 1 && a <= b
    ensures a / d <= b / d
  {
    if a / d > b / d {
      assert d * (a / d) >= d * (b / d + 1) by {
        MulAtLeast(d, a / d, d, b / d + 1);
      }
      assert false;
    }
  }

  /** The df intervals cover the trials in order: the first starts at 0,
      each ends where the next begins, the last ends at N. */
  lemma SubsampleSlicesTile(n: nat, df: nat, s: nat)
    requires df >= 1 && s < df
    ensures SubsampleSlice(n, df, 0).0 == 0
    ensures SubsampleSlice(n, df, df - 1).1 == n
    ensures s + 1 < df ==> SubsampleSlice(n, df, s).1 == SubsampleSlice(n, df, s + 1).0
  {
    assert (df - 1 + 1) * n == df * n;
    MulDivCancel(n, df);
  }

  lemma MulDivCancel(n: nat, d: nat)
    requires d >= 1
    ensures d * n / d == n
  {
    DivModUnique(d * n, d, n, 0);
  }

  /** When df divides N (after _qe_prep, N is a multiple of 4), every
      interval holds exactly N/df trials. */
  lemma SubsampleSliceExact(n: nat, df: nat, s: nat)
    requires df >= 1 && s < df && n % df == 0
    ensures SubsampleSlice(n, df, s).1 - SubsampleSlice(n, df, s).0 == n / df
  {
    var q := n / df;
    assert n == df * q;
    assert s * n == df * (s * q);
    assert (s + 1) * n == df * ((s + 1) * q);
    MulDivCancel(s * q, df);
    MulDivCancel((s + 1) * q, df);
  }

  // ---------------------------------------------------------------------
  // The stimulus blocks of a sorted system

  /** Ny.sum(). */
  function Total(s: seq<int>): int
  {
    Start(s, |s|)
  }

  /** The first trial of stimulus i: the sum of Ny[j] for j < i. */
  function Start(ny: seq<int>, i: nat): int
    requires i <= |ny|
  {
    if i == 0 then 0 else Start(ny, i - 1) + ny[i - 1]
  }

  lemma StartStep(ny: seq<int>, i: nat)
    requires i < |ny|
    ensures Start(ny, i + 1) == Start(ny, i) + ny[i]
  {
  }

  lemma StartEnds(ny: seq<int>)
    ensures Start(ny, 0) == 0 && Start(ny, |ny|) == Total(ny)
  {
  }

  ghost predicate NonNegative(ny: seq<int>)
  {
    forall i :: 0 <= i < |ny| ==> ny[i] >= 0
  }

  lemma {:induction false} StartMonotone(ny: seq<int>, i: nat, j: nat)
    requires NonNegative(ny) && i <= j <= |ny|
    ensures Start(ny, i) <= Start(ny, j)
    decreases j - i
  {
    if i < j {
      StartMonotone(ny, i, j - 1);
      StartStep(ny, j - 1);
    }
  }

  /** The stimulus whose block holds trial t. */
  function BlockOf(ny: seq<int>, t: int): (i: nat)
    requires NonNegative(ny) && 0 <= t < Total(ny)
    ensures i < |ny| && Start(ny, i) <= t < Start(ny, i + 1)
  {
    BlockBelow(ny, t, |ny| - 1)
  }

  /** The last block among 0 .. k that starts at or before t. */
  function BlockBelow(ny: seq<int>, t: int, k: nat): (i: nat)
    requires 0 <= t && k < |ny| && t < Start(ny, k + 1)
    ensures i <= k && Start(ny, i) <= t < Start(ny, i + 1)
  {
    if k == 0 || Start(ny, k) <= t then k else BlockBelow(ny, t, k - 1)
  }

  /** A trial lies in one block only: the blocks partition 0 .. N-1. */
  lemma BlocksDisjoint(ny: seq<int>, t: int, i: nat, j: nat)
    requires NonNegative(ny) && i < |ny| && j < |ny|
    requires Start(ny, i) <= t < Start(ny, i + 1) && Start(ny, j) <= t < Start(ny, j + 1)
    ensures i == j
  {
    if i < j {
      StartMonotone(ny, i + 1, j);
    } else if j < i {
      StartMonotone(ny, j + 1, i);
    }
  }

  /** Where _qe_prep of a sorted system takes trial t from: the shuffle of
      t's own block. */
  ghost function Source(ny: seq<int>, perms: seq<seq<int>>, t: int): (u: int)
    requires NonNegative(ny) && 0 <= t < Total(ny)
    requires |perms| == |ny| && forall i :: 0 <= i < |ny| ==> IsPermutation(perms[i], ny[i])
    ensures Start(ny, BlockOf(ny, t)) <= u < Start(ny, BlockOf(ny, t) + 1)
    ensures 0 <= u < Total(ny)
  {
    var i := BlockOf(ny, t);
    StartStep(ny, i);
    BlockWithin(ny, i);
    assert IsPermutation(perms[i], ny[i]);
    var j := t - Start(ny, i);
    assert 0 <= j < |perms[i]|;
    assert 0 <= perms[i][j] < ny[i];
    Start(ny, i) + perms[i][j]
  }

  /** Within block k, trial t is taken from offset perms[k][t - start]. */
  lemma SourceOfBlock(ny: seq<int>, perms: seq<seq<int>>, t: int, k: nat)
    requires NonNegative(ny) && 0 <= t < Total(ny) && k < |ny|
    requires |perms| == |ny| && forall i :: 0 <= i < |ny| ==> IsPermutation(perms[i], ny[i])
    requires Start(ny, k) <= t < Start(ny, k + 1)
    ensures t - Start(ny, k) < |perms[k]|
    ensures Source(ny, perms, t) == Start(ny, k) + perms[k][t - Start(ny, k)]
  {
    BlocksDisjoint(ny, t, k, BlockOf(ny, t));
    StartStep(ny, k);
    assert IsPermutation(perms[k], ny[k]);
  }

  /** Different trials are taken from different trials: the shuffle of
      _qe_prep is a permutation that keeps every trial in its block. */
  lemma SourceInjective(ny: seq<int>, perms: seq<seq<int>>, t1: int, t2: int)
    requires NonNegative(ny) && 0 <= t1 < Total(ny) && 0 <= t2 < Total(ny)
    requires |perms| == |ny| && forall i :: 0 <= i < |ny| ==> IsPermutation(perms[i], ny[i])
    requires Source(ny, perms, t1) == Source(ny, perms, t2)
    ensures t1 == t2
  {
    var i1, i2 := BlockOf(ny, t1), BlockOf(ny, t2);
    var u := Source(ny, perms, t1);
    assert Start(ny, i1) <= u < Start(ny, i1 + 1);
    assert Start(ny, i2) <= u < Start(ny, i2 + 1);
    BlocksDisjoint(ny, u, i1, i2);
    StartStep(ny, i1);
    assert IsPermutation(perms[i1], ny[i1]);
    assert u == Start(ny, i1) + perms[i1][t1 - Start(ny, i1)];
    assert u == Start(ny, i1) + perms[i1][t2 - Start(ny, i1)];
    PermutationInjective(perms[i1], ny[i1], t1 - Start(ny, i1), t2 - Start(ny, i1));
  }

  lemma PermutationInjective(p: seq<int>, n: int, j1: int, j2: int)
    requires IsPermutation(p, n) && 0 <= j1 < n && 0 <= j2 < n && p[j1] == p[j2]
    ensures j1 == j2
  {
  }

  /** Nonnegative counts give every block a place inside 0 .. N. */
  lemma BlockWithin(ny: seq<int>, i: nat)
    requires NonNegative(ny) && i < |ny|
    ensures 0 <= Start(ny, i) <= Start(ny, i + 1) <= Total(ny)
  {
    StartEnds(ny);
    StartMonotone(ny, 0, i);
    StartMonotone(ny, i, i + 1);
    StartMonotone(ny, i + 1, |ny|);
  }

  // ---------------------------------------------------------------------
  // Subsampling of a sorted system

  /** The slice of stimulus i in _subsampled_instance((df, s)):
      Ny_new[i] = floor(Ny[i] / df) trials from offset s * Ny_new[i] of
      block i. */
  function SortedSlice(ny: seq<int>, df: nat, s: nat, i: nat): (sl: (int, int))
    requires df >= 1 && i < |ny|
  {
    (Start(ny, i) + s * (ny[i] / df), Start(ny, i) + (s + 1) * (ny[i] / df))
  }

  /** Ny_new: np.floor(Ny / df) (Dafny's division floors for df > 0). */
  function Reduced(ny: seq<int>, df: nat): (r: seq<int>)
    requires df >= 1
    ensures |r| == |ny| && forall i :: 0 <= i < |ny| ==> r[i] == ny[i] / df
  {
    seq(|ny|, i requires 0 <= i < |ny| => ny[i] / df)
  }

  /** The slice for interval s lies inside block i and holds Ny_new[i]
      trials. */
  lemma SortedSliceInBlock(ny: seq<int>, df: nat, s: nat, i: nat)
    requires NonNegative(ny) && df >= 1 && s < df && i < |ny|
    ensures var sl := SortedSlice(ny, df, s, i);
            Start(ny, i) <= sl.0 <= sl.1 <= Start(ny, i + 1) && sl.1 - sl.0 == ny[i] / df
  {
    StartStep(ny, i);
    var q := ny[i] / df;
    assert ny[i] == df * q + ny[i] % df;
    MulAtLeast(df, q, s + 1, q);
    assert (s + 1) * q - s * q == q;
  }

  /** The slices of two different intervals of one block do not overlap. */
  lemma SortedSlicesDisjoint(ny: seq<int>, df: nat, s1: nat, s2: nat, i: nat)
    requires NonNegative(ny) && df >= 1 && s1 < s2 < df && i < |ny|
    ensures SortedSlice(ny, df, s1, i).1 <= SortedSlice(ny, df, s2, i).0
  {
    var q := ny[i] / df;
    MulAtLeast(s2, q, s1 + 1, q);
  }

  /** The slices of every stimulus, in stimulus order. */
  function SortedSlices(ny: seq<int>, df: nat, s: nat): (sl: seq<(int, int)>)
    requires df >= 1
    ensures |sl| == |ny| && forall i :: 0 <= i < |ny| ==> sl[i] == SortedSlice(ny, df, s, i)
  {
    seq(|ny|, i requires 0 <= i < |ny| => SortedSlice(ny, df, s, i))
  }

  /** np.r_[tuple(slices)]: the trials of all slices, stimulus by stimulus. */
  function Indices(slices: seq<(int, int)>): (idx: seq<int>)
  {
    IndicesUpTo(slices, |slices|)
  }

  /** The trials of the first k slices. */
  function IndicesUpTo(slices: seq<(int, int)>, k: nat): (idx: seq<int>)
    requires k <= |slices|
  {
    if k == 0 then [] else IndicesUpTo(slices, k - 1) + Range(slices[k - 1].0, slices[k - 1].1)
  }

  /** The selected trials are inside 0 .. N-1 and there are sum(Ny_new) of
      them, so the subsampled system passes its own Ny.sum() == N check. */
  lemma {:induction false} IndicesOfSlices(ny: seq<int>, df: nat, s: nat, k: nat, slices: seq<(int, int)>)
    requires NonNegative(ny) && df >= 1 && s < df && k <= |ny|
    requires |slices| == |ny| && forall i :: 0 <= i < |ny| ==> slices[i] == SortedSlice(ny, df, s, i)
    ensures |IndicesUpTo(slices, k)| == Start(Reduced(ny, df), k)
    ensures forall j :: 0 <= j < |IndicesUpTo(slices, k)| ==> 0 <= IndicesUpTo(slices, k)[j] < Total(ny)
  {
    IndicesCount(ny, df, s, k, slices);
    IndicesBelow(ny, df, s, k, slices);
  }

  lemma {:induction false} IndicesCount(ny: seq<int>, df: nat, s: nat, k: nat, slices: seq<(int, int)>)
    requires NonNegative(ny) && df >= 1 && s < df && k <= |ny|
    requires |slices| == |ny| && forall i :: 0 <= i < |ny| ==> slices[i] == SortedSlice(ny, df, s, i)
    ensures |IndicesUpTo(slices, k)| == Start(Reduced(ny, df), k)
  {
    if k > 0 {
      IndicesCount(ny, df, s, k - 1, slices);
      SortedSliceInBlock(ny, df, s, k - 1);
      var sl := slices[k - 1];
      assert |Range(sl.0, sl.1)| == Reduced(ny, df)[k - 1];
    }
  }

  lemma {:induction false} IndicesBelow(ny: seq<int>, df: nat, s: nat, k: nat, slices: seq<(int, int)>)
    requires NonNegative(ny) && df >= 1 && s < df && k <= |ny|
    requires |slices| == |ny| && forall i :: 0 <= i < |ny| ==> slices[i] == SortedSlice(ny, df, s, i)
    ensures forall j :: 0 <= j < |IndicesUpTo(slices, k)| ==> 0 <= IndicesUpTo(slices, k)[j] < Total(ny)
  {
    if k > 0 {
      IndicesBelow(ny, df, s, k - 1, slices);
      SortedSliceInBlock(ny, df, s, k - 1);
      BlockWithin(ny, k - 1);
      AppendBelow(IndicesUpTo(slices, k - 1), slices[k - 1].0, slices[k - 1].1, Total(ny));
    }
  }

  /** Appending lo .. hi-1 to a list below bound keeps it below bound. */
  lemma AppendBelow(pre: seq<int>, lo: int, hi: int, bound: int)
    requires 0 <= lo <= hi <= bound && forall j :: 0 <= j < |pre| ==> 0 <= pre[j] < bound
    ensures forall j :: 0 <= j < |pre + Range(lo, hi)| ==> 0 <= (pre + Range(lo, hi))[j] < bound
  {
    var idx := pre + Range(lo, hi);
    forall j | 0 <= j < |idx| ensures 0 <= idx[j] < bound {
      if j >= |pre| {
        assert idx[j] == Range(lo, hi)[j - |pre|];
      }
    }
  }

  // ---------------------------------------------------------------------
  // The systems

  /** DiscreteSystem(X, X_dims, Y, Y_dims, qe_shuffle) after its checks. */
  class DiscreteSystem {
    const xn: nat
    const xm: nat
    const yn: nat
    const ym: nat
    const qeShuffle: bool
    var X: Mat
    var Y: Mat
    var N: int

    /** X and Y hold N trials of in-range words of the declared lengths. */
    ghost predicate Valid()
      reads this
    {
      && X.Valid() && Y.Valid() && X.rows == xn && Y.rows == yn
      && X.cols == N && Y.cols == N
      && ValuesBelow(X, xm) && ValuesBelow(Y, ym)
    }

    /** The assignments of __init__, reached only when _check_inputs passes. */
    constructor (x: Mat, xDims: (nat, nat), y: Mat, yDims: (nat, nat), qeShuffle: bool)
      requires x.Valid() && y.Valid()
      requires CheckInputs(x, IntType, y, IntType, xDims.0, xDims.1, yDims.0, yDims.1) == Pass
      ensures Valid() && N > 0
      ensures X == x && Y == y && N == x.cols && this.qeShuffle == qeShuffle
      ensures xn == xDims.0 && xm == xDims.1 && yn == yDims.0 && ym == yDims.1
    {
      xn, xm, yn, ym := xDims.0, xDims.1, yDims.0, yDims.1;
      this.qeShuffle := qeShuffle;
      X, Y := x, y;
      N := x.cols;
    }

    /** _qe_prep: optionally shuffle the trials by the caller's permutation,
        then keep the leading N - N mod 4 of them. */
    method QePrep(shuffle: seq<int>)
      requires Valid() && (qeShuffle ==> IsPermutation(shuffle, N))
      modifies this`X, this`Y, this`N
      ensures Valid()
      ensures N == old(N) - old(N) % 4 && N % 4 == 0
      ensures forall i, t :: 0 <= i < xn && 0 <= t < N ==>
                X.cells[i][t] == old(X).cells[i][if qeShuffle then shuffle[t] else t]
      ensures forall i, t :: 0 <= i < yn && 0 <= t < N ==>
                Y.cells[i][t] == old(Y).cells[i][if qeShuffle then shuffle[t] else t]
    {
      if qeShuffle {
        SelectKeepsRange(X, shuffle, xm);
        SelectKeepsRange(Y, shuffle, ym);
        X := SelectColumns(X, shuffle);
        Y := SelectColumns(Y, shuffle);
      }
      var rem := X.cols % 4;
      if rem != 0 {
        var keep := Range(0, X.cols - rem);
        SelectKeepsRange(X, keep, xm);
        SelectKeepsRange(Y, keep, ym);
        X := SelectColumns(X, keep);
        Y := SelectColumns(Y, keep);
      }
      N := X.cols;
    }

    /** _subsampled_instance((df, s)): a new system of the trials of interval
        s out of df; its constructor's checks fail only on an empty slice. */
    method SubsampledInstance(df: nat, s: nat) returns (r: Result<DiscreteSystem, InputError>)
      requires Valid() && df >= 1 && s < df
      ensures var sl := SubsampleSlice(N, df, s);
              && (r.Success? <==> xn > 0 && yn > 0 && sl.0 < sl.1)
              && (r.Failure? ==> r.error == EmptyArray)
              && (r.Success? ==>
                    && fresh(r.value) && r.value.Valid()
                    && r.value.N == sl.1 - sl.0
                    && r.value.xn == xn && r.value.xm == xm && r.value.yn == yn && r.value.ym == ym
                    && r.value.qeShuffle
                    && r.value.X == SelectColumns(X, Range(sl.0, sl.1))
                    && r.value.Y == SelectColumns(Y, Range(sl.0, sl.1)))
    {
      var sl := SubsampleSlice(N, df, s);
      var keep := Range(sl.0, sl.1);
      var x := SelectColumns(X, keep);
      var y := SelectColumns(Y, keep);
      SelectKeepsRange(X, keep, xm);
      SelectKeepsRange(Y, keep, ym);
      if CheckInputs(x, IntType, y, IntType, xn, xm, yn, ym) != Pass {
        return Failure(EmptyArray);
      }
      var sys := new DiscreteSystem(x, (xn, xm), y, (yn, ym), true);
      r := Success(sys);
    }
  }

  /** SortedDiscreteSystem(X, X_dims, Y_m, Ny) after its checks: the trials
      of X come sorted by stimulus, Ny[i] of them for stimulus i. */
  class SortedDiscreteSystem {
    const xn: nat
    const xm: nat
    const ym: nat
    var X: Mat
    var Ny: seq<int>
    var N: int

    ghost predicate Valid()
      reads this
    {
      && X.Valid() && X.rows == xn && X.cols == N && ValuesBelow(X, xm)
      && |Ny| == ym && Total(Ny) == N
    }

    /** The assignments of __init__, reached only when _check_inputs passes. */
    constructor (x: Mat, xDims: (nat, nat), ym: nat, ny: seq<int>)
      requires x.Valid() && CheckSortedInputs(x, IntType, xDims.0, xDims.1, ym, ny) == Pass
      ensures Valid() && N > 0
      ensures X == x && Ny == ny && N == x.cols
      ensures xn == xDims.0 && xm == xDims.1 && this.ym == ym
    {
      xn, xm, this.ym := xDims.0, xDims.1, ym;
      X, Ny := x, ny;
      N := x.cols;
    }

    /** The walk over the stimuli in sample(): stimulus i owns the trials
        sstart .. send - 1 with send = sstart + Ny[i]. */
    method StimulusBlocks() returns (blocks: seq<(int, int)>)
      requires Valid()
      ensures |blocks| == |Ny|
      ensures forall i :: 0 <= i < |Ny| ==> blocks[i] == (Start(Ny, i), Start(Ny, i + 1))
    {
      var sstart := 0;
      blocks := [];
      for i := 0 to |Ny|
        invariant |blocks| == i && sstart == Start(Ny, i)
        invariant forall j :: 0 <= j < i ==> blocks[j] == (Start(Ny, j), Start(Ny, j + 1))
      {
        var send := sstart + Ny[i];
        StartStep(Ny, i);
        blocks := blocks + [(sstart, send)];
        sstart := send;
      }
    }

    /** _qe_prep: each stimulus block is shuffled by the caller's
        permutation of its own trials; nothing moves between blocks. */
    method QePrep(perms: seq<seq<int>>)
      requires Valid() && NonNegative(Ny)
      requires |perms| == |Ny| && forall i :: 0 <= i < |Ny| ==> IsPermutation(perms[i], Ny[i])
      modifies this`X
      ensures Valid() && X.rows == old(X).rows && X.cols == old(X).cols
      ensures forall r, t :: 0 <= r < xn && 0 <= t < N ==> X.cells[r][t] == old(X).cells[r][Source(Ny, perms, t)]
    {
      ghost var x0 := X;
      var sstart := 0;
      StartEnds(Ny);
      for i := 0 to |Ny|
        invariant sstart == Start(Ny, i) && 0 <= Start(Ny, i) <= N
        invariant ShuffledUpTo(Ny, perms, x0, X, i)
      {
        BlockWithin(Ny, i);
        StartStep(Ny, i);
        var send := sstart + Ny[i];
        ghost var prev := X;
        X := ShuffleBlock(X, sstart, perms[i]);
        ShuffleStep(Ny, perms, x0, prev, i);
        sstart := send;
      }
      ShuffledInRange(Ny, perms, x0, X, xm);
    }

    /** _subsampled_instance((df, s)): from every block the slice of interval
        s, with Ny_new = floor(Ny / df); the new system's checks fail only
        when no trial is selected. */
    method SubsampledInstance(df: nat, s: nat) returns (r: Result<SortedDiscreteSystem, InputError>)
      requires Valid() && NonNegative(Ny) && df >= 1 && s < df
      ensures var idx := Indices(SortedSlices(Ny, df, s));
              && |idx| == Total(Reduced(Ny, df))
              && (forall j :: 0 <= j < |idx| ==> 0 <= idx[j] < N)
              && (r.Success? <==> xn > 0 && |idx| > 0)
              && (r.Failure? ==> r.error == EmptyArray)
              && (r.Success? ==>
                    && fresh(r.value) && r.value.Valid()
                    && r.value.Ny == Reduced(Ny, df)
                    && r.value.xn == xn && r.value.xm == xm && r.value.ym == ym
                    && r.value.X == SelectColumns(X, idx))
    {
      var nyNew := Reduced(Ny, df);
      var slices := BlockSlices(Ny, df, s);
      IndicesOfSlices(Ny, df, s, |Ny|, slices);
      var idx := Indices(slices);
      SelectKeepsRange(X, idx, xm);
      var x := SelectColumns(X, idx);
      if CheckSortedInputs(x, IntType, xn, xm, ym, nyNew) != Pass {
        return Failure(EmptyArray);
      }
      var sys := new SortedDiscreteSystem(x, (xn, xm), ym, nyNew);
      r := Success(sys);
    }
  }

  /** The loop of _subsampled_instance of a sorted system: for each
      stimulus the slice of interval s of its block. */
  method BlockSlices(ny: seq<int>, df: nat, s: nat) returns (slices: seq<(int, int)>)
    requires df >= 1
    ensures slices == SortedSlices(ny, df, s)
  {
    var nyNew := Reduced(ny, df);
    slices := [];
    var sstart := 0;
    for i := 0 to |ny|
      invariant |slices| == i && sstart == Start(ny, i)
      invariant forall j :: 0 <= j < i ==> slices[j] == SortedSlice(ny, df, s, j)
    {
      var send := sstart + ny[i];
      slices := slices + [(sstart + s * nyNew[i], sstart + (s + 1) * nyNew[i])];
      sstart := send;
    }
  }

  /** x is x0 with the blocks of stimuli 0 .. k-1 shuffled by _qe_prep. */
  ghost predicate ShuffledUpTo(ny: seq<int>, perms: seq<seq<int>>, x0: Mat, x: Mat, k: nat)
  {
    && NonNegative(ny) && k <= |ny|
    && |perms| == |ny| && (forall i :: 0 <= i < |ny| ==> IsPermutation(perms[i], ny[i]))
    && x0.Valid() && x.Valid() && x.rows == x0.rows && x.cols == x0.cols && x0.cols == Total(ny)
    && (forall r, t :: 0 <= r < x.rows && 0 <= Start(ny, k) <= t < x.cols ==> x.cells[r][t] == x0.cells[r][t])
    && (forall r, t :: 0 <= r < x.rows && 0 <= t < Start(ny, k) <= Total(ny) ==>
          x.cells[r][t] == x0.cells[r][Source(ny, perms, t)])
  }

  /** Shuffling block k extends the shuffled prefix by that block. */
  lemma ShuffleStep(ny: seq<int>, perms: seq<seq<int>>, x0: Mat, x: Mat, k: nat)
    requires ShuffledUpTo(ny, perms, x0, x, k) && k < |ny|
    requires 0 <= Start(ny, k) && Start(ny, k) + |perms[k]| <= x.cols
    requires forall j :: 0 <= j < |perms[k]| ==> 0 <= perms[k][j] < |perms[k]|
    ensures ShuffledUpTo(ny, perms, x0, ShuffleBlock(x, Start(ny, k), perms[k]), k + 1)
  {
    BlockWithin(ny, k);
    ShuffleKeepsRest(ny, perms, x0, x, k);
    ShuffleKeepsPrefix(ny, perms, x0, x, k);
    ShuffleFillsBlock(ny, perms, x0, x, k);
  }

  /** The trials behind block k are still untouched. */
  lemma ShuffleKeepsRest(ny: seq<int>, perms: seq<seq<int>>, x0: Mat, x: Mat, k: nat)
    requires ShuffledUpTo(ny, perms, x0, x, k) && k < |ny|
    requires 0 <= Start(ny, k) && Start(ny, k) + |perms[k]| <= x.cols
    requires forall j :: 0 <= j < |perms[k]| ==> 0 <= perms[k][j] < |perms[k]|
    ensures var y := ShuffleBlock(x, Start(ny, k), perms[k]);
            forall r, t :: 0 <= r < y.rows && 0 <= Start(ny, k + 1) <= t < y.cols ==> y.cells[r][t] == x0.cells[r][t]
  {
    var y := ShuffleBlock(x, Start(ny, k), perms[k]);
    forall r, t | 0 <= r < y.rows && 0 <= Start(ny, k + 1) <= t < y.cols ensures y.cells[r][t] == x0.cells[r][t] {
      assert y.cells[r][t] == x.cells[r][t];
    }
  }

  /** The blocks before k keep their shuffle. */
  lemma ShuffleKeepsPrefix(ny: seq<int>, perms: seq<seq<int>>, x0: Mat, x: Mat, k: nat)
    requires ShuffledUpTo(ny, perms, x0, x, k) && k < |ny|
    requires 0 <= Start(ny, k) && Start(ny, k) + |perms[k]| <= x.cols
    requires forall j :: 0 <= j < |perms[k]| ==> 0 <= perms[k][j] < |perms[k]|
    ensures var y := ShuffleBlock(x, Start(ny, k), perms[k]);
            forall r, t :: 0 <= r < y.rows && 0 <= t < Start(ny, k) ==> y.cells[r][t] == x0.cells[r][Source(ny, perms, t)]
  {
    var y := ShuffleBlock(x, Start(ny, k), perms[k]);
    forall r, t | 0 <= r < y.rows && 0 <= t < Start(ny, k) ensures y.cells[r][t] == x0.cells[r][Source(ny, perms, t)] {
      assert y.cells[r][t] == x.cells[r][t];
    }
  }

  /** Block k now holds its trials in the order perms[k] gives. */
  lemma ShuffleFillsBlock(ny: seq<int>, perms: seq<seq<int>>, x0: Mat, x: Mat, k: nat)
    requires ShuffledUpTo(ny, perms, x0, x, k) && k < |ny|
    requires 0 <= Start(ny, k) && Start(ny, k) + |perms[k]| <= x.cols
    requires forall j :: 0 <= j < |perms[k]| ==> 0 <= perms[k][j] < |perms[k]|
    ensures var y := ShuffleBlock(x, Start(ny, k), perms[k]);
            forall r, t :: 0 <= r < y.rows && Start(ny, k) <= t < Start(ny, k + 1) ==>
              y.cells[r][t] == x0.cells[r][Source(ny, perms, t)]
  {
    var y := ShuffleBlock(x, Start(ny, k), perms[k]);
    forall r, t | 0 <= r < y.rows && Start(ny, k) <= t < Start(ny, k + 1)
      ensures y.cells[r][t] == x0.cells[r][Source(ny, perms, t)]
    {
      ShuffledCell(ny, perms, x0, x, k, r, t);
    }
  }

  lemma ShuffledCell(ny: seq<int>, perms: seq<seq<int>>, x0: Mat, x: Mat, k: nat, r: int, t: int)
    requires ShuffledUpTo(ny, perms, x0, x, k) && k < |ny|
    requires 0 <= Start(ny, k) && Start(ny, k) + |perms[k]| <= x.cols
    requires forall j :: 0 <= j < |perms[k]| ==> 0 <= perms[k][j] < |perms[k]|
    requires 0 <= r < x.rows && Start(ny, k) <= t < Start(ny, k + 1)
    ensures ShuffleBlock(x, Start(ny, k), perms[k]).cells[r][t] == x0.cells[r][Source(ny, perms, t)]
  {
    var st := Start(ny, k);
    BlockWithin(ny, k);
    SourceOfBlock(ny, perms, t, k);
    var u := st + perms[k][t - st];
    assert ShuffleBlock(x, st, perms[k]).cells[r][t] == x.cells[r][u];
    assert x.cells[r][u] == x0.cells[r][u];
  }

  /** Shuffling every block keeps the values in range. */
  lemma ShuffledInRange(ny: seq<int>, perms: seq<seq<int>>, x0: Mat, x: Mat, hi: int)
    requires ShuffledUpTo(ny, perms, x0, x, |ny|) && ValuesBelow(x0, hi)
    ensures ValuesBelow(x, hi)
    ensures forall r, t :: 0 <= r < x.rows && 0 <= t < x.cols ==> x.cells[r][t] == x0.cells[r][Source(ny, perms, t)]
  {
    StartEnds(ny);
    forall r, t | 0 <= r < x.rows && 0 <= t < x.cols ensures 0 <= x.cells[r][t] < hi {
      assert x.cells[r][t] == x0.cells[r][Source(ny, perms, t)];
    }
  }

  /** X[:, sstart:sstart+|p|] = X[:, sstart + p]. */
  function ShuffleBlock(x: Mat, start: int, p: seq<int>): (y: Mat)
    requires x.Valid() && 0 <= start && start + |p| <= x.cols
    requires forall j :: 0 <= j < |p| ==> 0 <= p[j] < |p|
    ensures y.Valid() && y.rows == x.rows && y.cols == x.cols
    ensures forall i, t :: 0 <= i < x.rows && 0 <= t < x.cols ==>
              y.cells[i][t] == if start <= t < start + |p| then x.cells[i][start + p[t - start]] else x.cells[i][t]
  {
    Mat(x.rows, x.cols, seq(x.rows, i requires 0 <= i < x.rows =>
      seq(x.cols, t requires 0 <= t < x.cols =>
        if start <= t < start + |p| then x.cells[i][start + p[t - start]] else x.cells[i][t])))
  }

  /** __init__ of DiscreteSystem: the checks, then the instance. */
  method NewDiscreteSystem(x: Mat, xType: DType, xDims: (nat, nat), y: Mat, yType: DType, yDims: (nat, nat),
                           qeShuffle: bool)
    returns (r: Result<DiscreteSystem, InputError>)
    requires x.Valid() && y.Valid()
    ensures var c := CheckInputs(x, xType, y, yType, xDims.0, xDims.1, yDims.0, yDims.1);
            && (r.Failure? <==> c.Fail?)
            && (r.Failure? ==> r.error == c.error)
            && (r.Success? ==>
                  && fresh(r.value) && r.value.Valid() && r.value.X == x && r.value.Y == y
                  && r.value.xn == xDims.0 && r.value.xm == xDims.1 && r.value.yn == yDims.0 && r.value.ym == yDims.1
                  && r.value.qeShuffle == qeShuffle && r.value.N == x.cols)
  {
    var c := CheckInputs(x, xType, y, yType, xDims.0, xDims.1, yDims.0, yDims.1);
    if c.Fail? {
      return Failure(c.error);
    }
    var sys := new DiscreteSystem(x, xDims, y, yDims, qeShuffle);
    r := Success(sys);
  }

  /** __init__ of SortedDiscreteSystem: the checks, then the instance. */
  method NewSortedDiscreteSystem(x: Mat, xType: DType, xDims: (nat, nat), ym: nat, ny: seq<int>)
    returns (r: Result<SortedDiscreteSystem, InputError>)
    requires x.Valid()
    ensures var c := CheckSortedInputs(x, xType, xDims.0, xDims.1, ym, ny);
            && (r.Failure? <==> c.Fail?)
            && (r.Failure? ==> r.error == c.error)
            && (r.Success? ==>
                  && fresh(r.value) && r.value.Valid() && r.value.X == x && r.value.Ny == ny
                  && r.value.xn == xDims.0 && r.value.xm == xDims.1 && r.value.ym == ym && r.value.N == x.cols)
  {
    var c := CheckSortedInputs(x, xType, xDims.0, xDims.1, ym, ny);
    if c.Fail? {
      return Failure(c.error);
    }
    var sys := new SortedDiscreteSystem(x, xDims, ym, ny);
    r := Success(sys);
  }
}
