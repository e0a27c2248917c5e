/** The module-level helpers of pyentropy/pyentropy/pyentropy.py (its own
    copies of decimalise, dec2base and prob) and the bookkeeping of
    BaseSystem: the choice of bias correction in calculate_entropies and
    the information breakdowns I, Ish and pola_decomp. */
module PyEntropy {
  import opened Outcomes
  import opened Combinatorics
  import opened Utils

  // ---------------------------------------------------------------------
  // decimalise and dec2base

  /** The [t, 1] column vector holding v. */
  function ColumnVector(v: seq<int>): (x: Mat)
    ensures x.Valid() && x.rows == |v| && x.cols == 1
    ensures forall t :: 0 <= t < |v| ==> x.cells[t] == [v[t]]
  {
    Mat(|v|, 1, seq(|v|, t requires 0 <= t < |v| => [v[t]]))
  }

  /** decimalise(x, n, m) of this file: np.dot(x.T, m^(n-1), ..., m^0) with
      no test of the digits. The only failure is numpy's shape test of the
      dot product, when x does not have n rows. */
  function Decimalise(x: Mat, n: nat, m: int): (r: Result<seq<int>, ValueError>)
    requires x.Valid()
    ensures r.Success? <==> x.rows == n
    ensures r.Failure? ==> r.error == ShapeMismatch
    ensures r.Success? ==> |r.value| == x.cols
    ensures r.Success? ==> forall t :: 0 <= t < x.cols ==> r.value[t] == WordValue(Column(x, t), m)
  {
    if x.rows != n then Failure(ShapeMismatch)
    else
      var y := Transpose(x);
      DotPowersAll(y, m);
      Success(seq(y.rows, t requires 0 <= t < y.rows => Dot(y.cells[t], Powers(m, n))))
  }

  /** The words dec2base produces, one per column, are decimalised back to
      the values they came from. */
  lemma DecimaliseOfDec2Base(v: seq<int>, m: int, n: nat)
    requires m >= 1 && forall t :: 0 <= t < |v| ==> 0 <= v[t] < Pow(m, n)
    ensures Decimalise(Transpose(Dec2Base(ColumnVector(v), m, n).value), n, m) == Success(v)
  {
    var w := Dec2Base(ColumnVector(v), m, n).value;
    var d := Decimalise(Transpose(w), n, m).value;
    forall t | 0 <= t < |v| ensures d[t] == v[t] {
      assert Column(Transpose(w), t) == w.cells[t];
      Dec2BaseRoundTrip(v[t], m, n);
    }
    assert d == v;
  }

  /** On in-range digits dec2base rebuilds the words decimalise was given. */
  lemma Dec2BaseOfDecimalise(x: Mat, n: nat, m: int)
    requires x.Valid() && x.rows == n && m >= 1
    requires forall i, t :: 0 <= i < x.rows && 0 <= t < x.cols ==> 0 <= x.cells[i][t] < m
    ensures Dec2Base(ColumnVector(Decimalise(x, n, m).value), m, n).value == Transpose(x)
  {
    var d := Decimalise(x, n, m).value;
    var w := Dec2Base(ColumnVector(d), m, n).value;
    var y := Transpose(x);
    forall t | 0 <= t < x.cols ensures w.cells[t] == y.cells[t] {
      var c := Column(x, t);
      assert IsDigits(c, m) by {
        forall i | 0 <= i < |c| ensures 0 <= c[i] < m {
          assert c[i] == x.cells[i][t];
        }
      }
      Base2DecRoundTrip(c, m);
    }
  }

  /** Without the digit test two different 2 x 1 binary arrays decimalise to
      the same value, while decimalise of utils.py rejects the out-of-range
      one. */
  lemma DecimaliseUncheckedAliases()
    ensures Decimalise(Mat(2, 1, [[0], [2]]), 2, 2) == Success([2])
    ensures Decimalise(Mat(2, 1, [[1], [0]]), 2, 2) == Success([2])
    ensures Utils.Decimalise(Mat(2, 1, [[0], [2]]), 2, 2) == Failure(ValueOutOfRange)
  {
    var x := Mat(2, 1, [[0], [2]]);
    assert Column(x, 0) == [0, 2];
    assert WordValue([0, 2], 2) == 2;
    var y := Mat(2, 1, [[1], [0]]);
    assert Column(y, 0) == [1, 0];
    assert WordValue([1, 0], 2) == 2;
    assert x.cells[1][0] > 1;
    var dx := Decimalise(x, 2, 2).value;
    assert |dx| == 1 && dx[0] == 2;
    assert dx == [2];
    var dy := Decimalise(y, 2, 2).value;
    assert |dy| == 1 && dy[0] == 2;
    assert dy == [2];
  }

  // ---------------------------------------------------------------------
  // prob

  /** prob(x, n, 'naive') of this file: the histogram of x padded to n bins,
      divided by x.size. For an empty x numpy's 0/0 leaves every entry NaN,
      which is modelled as None. */
  function Prob(x: seq<int>, dtype: DType, n: int): (r: Result<Option<seq<real>>, ValueError>)
    ensures r.Success? <==> dtype == IntType && forall i :: 0 <= i < |x| ==> x[i] >= 0
    ensures dtype == FloatType ==> r == Failure(NotIntegerType)
    ensures r.Failure? && dtype == IntType ==> r.error == NegativeInBincount
    ensures r.Success? ==> (r.value.Some? <==> |x| > 0)
    ensures r.Success? && r.value.Some? ==>
              && |r.value.value| >= n
              && (forall i :: 0 <= i < |x| ==> x[i] < |r.value.value|)
              && forall v :: 0 <= v < |r.value.value| ==> r.value.value[v] == Count(x, v) as real / |x| as real
  {
    match CountBins(x, dtype, n)
    case Failure(e) => Failure(e)
    case Success(c) => if |x| == 0 then Success(None) else Success(Some(Normalise(c, |x|)))
  }

  /** Normalising by x.size makes the naive estimate a distribution. */
  lemma ProbSumsToOne(x: seq<int>, dtype: DType, n: int)
    requires Prob(x, dtype, n).Success? && |x| > 0
    ensures RealSum(Prob(x, dtype, n).value.value) == 1.0
  {
    var total := |x| as real;
    assert total / total == 1.0;
    var c := Histogram(x, n).value;
    assert CountBins(x, dtype, n) == Histogram(x, n);
    assert Prob(x, dtype, n).value.value == Normalise(c, |x|);
    HistogramTotal(x, n);
    NormaliseSum(c, |x|);
    assert Sum(c) == |x|;
    assert RealSum(Normalise(c, |x|)) == total / total;
  }

  // ---------------------------------------------------------------------
  // The choice of bias correction in calculate_entropies

  /** The corrections calculate_entropies accepts. */
  const Corrections: set<string> := {"plugin", "pt", "qe", "nsb"}

  /** What calculate_entropies goes on to do: quadratic extrapolation with an
      inner correction, or the direct calculation (_calc_ents). */
  datatype Estimation = Direct | Extrapolated(inner: string)

  datatype MethodError =
    | UnknownMethod(name: string)   // "Unknown correction method : ..."
    | QeInsideQe                    // "Can't use qe for qe_method!"

  /** The qe_method keyword, 'plugin' when absent. */
  function QeMethod(qeMethod: Option<string>): string
  {
    if qeMethod.Some? then qeMethod.value else "plugin"
  }

  /** The correction checks of calculate_entropies: every name of
      extra + [correction] must be a known correction, tried in order; when
      'qe' is among them the inner qe_method may not be 'qe' itself. */
  method ChooseEstimation(correction: string, extra: seq<string>, qeMethod: Option<string>)
    returns (r: Result<Estimation, MethodError>)
    ensures r.Success? <==>
              (forall s :: s in extra + [correction] ==> s in Corrections)
              && !((correction == "qe" || "qe" in extra) && QeMethod(qeMethod) == "qe")
    ensures r.Failure? && r.error.UnknownMethod? ==>
              exists i :: 0 <= i < |extra + [correction]|
                && (extra + [correction])[i] == r.error.name && r.error.name !in Corrections
                && forall j :: 0 <= j < i ==> (extra + [correction])[j] in Corrections
    ensures r.Failure? && r.error.QeInsideQe? ==> forall s :: s in extra + [correction] ==> s in Corrections
    ensures r.Success? ==> (r.value.Extrapolated? <==> correction == "qe" || "qe" in extra)
    ensures r.Success? && r.value.Extrapolated? ==> r.value.inner == QeMethod(qeMethod)
  {
    var names := extra + [correction];
    for i := 0 to |names|
      invariant forall j :: 0 <= j < i ==> names[j] in Corrections
    {
      if names[i] !in Corrections {
        return Failure(UnknownMethod(names[i]));
      }
    }
    assert forall s :: s in names ==> s in Corrections by {
      forall s | s in names ensures s in Corrections {
        var j :| 0 <= j < |names| && names[j] == s;
      }
    }
    if correction == "qe" || "qe" in extra {
      var inner := QeMethod(qeMethod);
      if inner == "qe" {
        return Failure(QeInsideQe);
      }
      return Success(Extrapolated(inner));
    }
    return Success(Direct);
  }

  /** Only the outer names are checked: an unknown qe_method passes. */
  lemma InnerMethodUnchecked()
    ensures "qe" in Corrections && "bogus" !in Corrections
    ensures QeMethod(Some("bogus")) == "bogus" && QeMethod(None) == "plugin"
  {
    assert "bogus" != "plugin" && "bogus" != "pt" && "bogus" != "qe" && "bogus" != "nsb";
  }

  // ---------------------------------------------------------------------
  // Information breakdowns over the table H of computed entropies

  /** self.H: entropy name to value, over exact reals. */
  type Table = map<string, real>

  /** I(): HX - HXY, or None (after a message) when either is missing. */
  function MutualInformation(h: Table): (r: Option<real>)
    ensures r.Some? <==> "HX" in h && "HXY" in h
  {
    if "HX" in h && "HXY" in h then Some(h["HX"] - h["HXY"]) else None
  }

  /** Ish(): the shuffle-corrected estimate HX - HiXY + HshXY - HXY. */
  function ShuffledInformation(h: Table): (r: Option<real>)
    ensures r.Some? <==> "HX" in h && "HiXY" in h && "HshXY" in h && "HXY" in h
  {
    if "HX" in h && "HiXY" in h && "HshXY" in h && "HXY" in h
    then Some(h["HX"] - h["HiXY"] + h["HshXY"] - h["HXY"])
    else None
  }

  /** Ish() differs from I() exactly by the shuffle correction HshXY - HiXY. */
  lemma ShuffleCorrection(h: Table)
    requires ShuffledInformation(h).Some?
    ensures MutualInformation(h).Some?
    ensures ShuffledInformation(h).value == MutualInformation(h).value + (h["HshXY"] - h["HiXY"])
  {
  }

  datatype PolaError = NoneArithmetic   // TypeError: None - float

  /** The entries of pola_decomp up to the first missing entropy: each of
      lin, sig-sim, cor-ind is present only when all before it are. */
  function PolaPrefix(h: Table): (r: Table)
    ensures "lin" in r <==> "SiHXi" in h && "HiXY" in h
    ensures "sig-sim" in r <==> "lin" in r && "HiX" in h
    ensures "cor-ind" in r <==> "sig-sim" in r && "ChiX" in h
    ensures r.Keys <= {"lin", "sig-sim", "cor-ind"}
  {
    if !("SiHXi" in h && "HiXY" in h) then map[]
    else
      var i1 := map["lin" := h["SiHXi"] - h["HiXY"]];
      if "HiX" !in h then i1
      else
        var i2 := i1["sig-sim" := h["HiX"] - h["SiHXi"]];
        if "ChiX" !in h then i2
        else i2["cor-ind" := -h["HiX"] + h["ChiX"]]
  }

  /** pola_decomp() as written: a missing entry raises KeyError, which is
      caught and leaves the breakdown so far; but when Ish() returns None the
      cor-dep line subtracts from None, a TypeError that is not caught. */
  function PolaDecompAsWritten(h: Table): (r: Result<Table, PolaError>)
    ensures r.Failure? <==> "cor-ind" in PolaPrefix(h) && ShuffledInformation(h).None?
    ensures r.Success? && "cor-ind" !in PolaPrefix(h) ==> r.value == PolaPrefix(h)
  {
    var pre := PolaPrefix(h);
    if "cor-ind" !in pre then Success(pre)
    else match ShuffledInformation(h)
      case None => Failure(NoneArithmetic)
      case Some(ish) => Success(pre["cor-dep" := ish - h["ChiX"] + h["HiXY"]])
  }

  /** With every term but the mutual information computed, pola_decomp
      fails: Ish() is None for want of HX. */
  lemma PolaDecompCrashes()
    ensures PolaDecompAsWritten(map["SiHXi" := 1.0, "HiXY" := 0.5, "HiX" := 1.0, "ChiX" := 1.0])
            == Failure(NoneArithmetic)
  {
    var h := map["SiHXi" := 1.0, "HiXY" := 0.5, "HiX" := 1.0, "ChiX" := 1.0];
    assert "HX" !in h;
    assert "cor-ind" in PolaPrefix(h);
  }

  /** pola_decomp() with the missing Ish() reported like a missing entry:
      the breakdown so far is returned. */
  function PolaDecomp(h: Table): (r: Table)
    ensures "cor-dep" in r <==> "cor-ind" in r && ShuffledInformation(h).Some?
    ensures r.Keys <= {"lin", "sig-sim", "cor-ind", "cor-dep"}
    ensures forall key :: key != "cor-dep" ==> (key in r <==> key in PolaPrefix(h))
    ensures PolaDecompAsWritten(h).Success? ==> r == PolaDecompAsWritten(h).value
  {
    var pre := PolaPrefix(h);
    if "cor-ind" !in pre then pre
    else match ShuffledInformation(h)
      case None => pre
      case Some(ish) => pre["cor-dep" := ish - h["ChiX"] + h["HiXY"]]
  }

  /** The four terms of the breakdown add up to Ish(). */
  lemma PolaTelescopes(h: Table)
    requires "cor-dep" in PolaDecomp(h)
    ensures ShuffledInformation(h).Some?
    ensures var p := PolaDecomp(h);
            p["lin"] + p["sig-sim"] + p["cor-ind"] + p["cor-dep"] == ShuffledInformation(h).value
  {
  }

  /** All four terms are there exactly when every entropy they use is. */
  lemma PolaComplete(h: Table)
    ensures "cor-dep" in PolaDecomp(h) <==>
              forall key :: key in ["SiHXi", "HiXY", "HiX", "ChiX", "HX", "HshXY", "HXY"] ==> key in h
  {
  }
}
