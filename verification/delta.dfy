/**
  delta_cepstrum: for each coefficient i < cutpoint, the slope of the
  regression through the origin of the coefficient against the frame
  number, sum_k k * c_k[i] / sum_k k^2.
*/
module Delta {
  import opened Wrappers
  import opened Faults
  import opened Arith

  /** sum over k < n of k^2, the loop's k_std. */
  function SumSquares(n: nat): nat
  {
    if n == 0 then 0 else SumSquares(n - 1) + (n - 1) * (n - 1)
  }

  /** Every frame holds coefficient i. */
  predicate HasCoefficient(frames: seq<seq<real>>, i: nat)
  {
    forall k :: 0 <= k < |frames| ==> i < |frames[k]|
  }

  /** Coefficient i of every frame, in frame order. */
  function Column(frames: seq<seq<real>>, i: nat): (col: seq<real>)
    requires HasCoefficient(frames, i)
    ensures |col| == |frames|
    ensures forall k :: 0 <= k < |frames| ==> col[k] == frames[k][i]
  {
    seq(|frames|, k requires 0 <= k < |frames| => frames[k][i])
  }

  /** sum over k < n of k * col[k], the loop's cov. */
  function WeightedSum(col: seq<real>, n: nat): real
    requires n <= |col|
  {
    if n == 0 then 0.0 else WeightedSum(col, n - 1) + (n - 1) as real * col[n - 1]
  }

  /**
    One pass of the outer loop from coefficient i on. Reading coefficient i
    of a frame that is too short is an IndexError; with no frame the sums
    are the integers 0 and 0 / 0 is a ZeroDivisionError; with one frame
    cov is a NumPy 0.0 and 0.0 / 0 is raised as an error.
  */
  function DeltaFrom(frames: seq<seq<real>>, cutpoint: nat, i: nat): (r: Result<seq<real>, Fault>)
    requires i <= cutpoint
    ensures r.Success? ==> |r.value| == cutpoint - i
    ensures r.Success? ==> forall j :: i <= j < cutpoint ==>
              HasCoefficient(frames, j) && SumSquares(|frames|) > 0
              && r.value[j - i] == WeightedSum(Column(frames, j), |frames|) / SumSquares(|frames|) as real
    decreases cutpoint - i
  {
    if i == cutpoint then Success([])
    else if !HasCoefficient(frames, i) then Failure(IndexOutOfRange)
    else if |frames| == 0 then Failure(ZeroDivision)
    else if SumSquares(|frames|) == 0 then Failure(FloatDivideByZero)
    else
      var rest :- DeltaFrom(frames, cutpoint, i + 1);
      Success([WeightedSum(Column(frames, i), |frames|) / SumSquares(|frames|) as real] + rest)
  }

  /** Two or more frames give a positive k_std; fewer give 0. */
  lemma SumSquaresPositive(n: nat)
    ensures SumSquares(n) > 0 <==> n >= 2
  {
    if n >= 2 {
      SumSquaresMonotone(2, n);
    }
  }

  lemma {:induction false} SumSquaresMonotone(m: nat, n: nat)
    requires m <= n
    ensures SumSquares(m) <= SumSquares(n)
    decreases n - m
  {
    if m < n {
      SumSquaresMonotone(m, n - 1);
    }
  }

  /** Frames of at least `cutpoint` coefficients each. */
  predicate AllLongEnough(frames: seq<seq<real>>, cutpoint: nat)
  {
    forall k :: 0 <= k < |frames| ==> |frames[k]| >= cutpoint
  }

  /**
    delta_cepstrum(mfcc_list, cutpoint): with no coefficient to compute the
    result is empty; otherwise no frame is a ZeroDivisionError, one frame a
    division error (or an IndexError when that frame is empty), and from two
    frames on the result exists exactly when every frame is long enough.
  */
  function DeltaCepstrum(frames: seq<seq<real>>, cutpoint: nat): (r: Result<seq<real>, Fault>)
    ensures cutpoint == 0 ==> r == Success([])
    ensures cutpoint > 0 && |frames| == 0 ==> r == Failure(ZeroDivision)
    ensures cutpoint > 0 && |frames| == 1 ==>
              r == Failure(if |frames[0]| == 0 then IndexOutOfRange else FloatDivideByZero)
    ensures |frames| >= 2 ==> (r.Success? <==> AllLongEnough(frames, cutpoint))
    ensures |frames| >= 2 && r.Failure? ==> r.error == IndexOutOfRange
    ensures r.Success? ==> |r.value| == cutpoint
    ensures r.Success? ==> forall i :: 0 <= i < cutpoint ==>
              HasCoefficient(frames, i) && SumSquares(|frames|) > 0
              && r.value[i] == WeightedSum(Column(frames, i), |frames|) / SumSquares(|frames|) as real
  {
    SumSquaresPositive(|frames|);
    if |frames| >= 2 then
      DeltaFromSucceeds(frames, cutpoint, 0);
      DeltaFrom(frames, cutpoint, 0)
    else
      DeltaFrom(frames, cutpoint, 0)
  }

  /** From two frames on, the pass from i succeeds exactly when the frames hold coefficients i .. cutpoint - 1. */
  lemma {:induction false} DeltaFromSucceeds(frames: seq<seq<real>>, cutpoint: nat, i: nat)
    requires i <= cutpoint && |frames| >= 2
    ensures DeltaFrom(frames, cutpoint, i).Success? <==> forall j :: i <= j < cutpoint ==> HasCoefficient(frames, j)
    ensures DeltaFrom(frames, cutpoint, i).Failure? ==> DeltaFrom(frames, cutpoint, i).error == IndexOutOfRange
    ensures (forall j :: i <= j < cutpoint ==> HasCoefficient(frames, j)) <==>
              (i == cutpoint || AllLongEnough(frames, cutpoint))
    decreases cutpoint - i
  {
    SumSquaresPositive(|frames|);
    if i < cutpoint {
      DeltaFromSucceeds(frames, cutpoint, i + 1);
      if AllLongEnough(frames, cutpoint) {
        forall j | i <= j < cutpoint
          ensures HasCoefficient(frames, j)
        {
        }
      }
      if forall j :: i <= j < cutpoint ==> HasCoefficient(frames, j) {
        assert HasCoefficient(frames, cutpoint - 1);
      }
    }
  }

  /** 6 * sum_{k<n} k^2 == (n - 1) * n * (2n - 1). */
  lemma {:induction false} SumSquaresClosedForm(n: nat)
    ensures 6 * SumSquares(n) == (n - 1) * n * (2 * n - 1)
  {
    if n > 0 {
      SumSquaresClosedForm(n - 1);
      ClosedFormStep(n - 1);
    }
  }

  /** The closed form grows by 6 m^2 from m to m + 1. */
  lemma ClosedFormStep(m: int)
    ensures (m - 1) * m * (2 * m - 1) + 6 * m * m == m * (m + 1) * (2 * m + 1)
  {
  }

  /** Frame 0 carries weight 0: its coefficients never change the weighted sum. */
  lemma {:induction false} WeightedSumIgnoresFirst(col: seq<real>, x: real, n: nat)
    requires 1 <= n <= |col|
    ensures WeightedSum(col[0 := x], n) == WeightedSum(col, n)
  {
    if n > 1 {
      WeightedSumIgnoresFirst(col, x, n - 1);
    }
  }

  /** Replacing frame 0 by any frame of the same length leaves the delta cepstrum unchanged. */
  lemma DeltaIgnoresFirstFrame(frames: seq<seq<real>>, f: seq<real>, cutpoint: nat)
    requires |frames| >= 1 && |f| == |frames[0]|
    ensures DeltaCepstrum(frames[0 := f], cutpoint) == DeltaCepstrum(frames, cutpoint)
  {
    var g := frames[0 := f];
    var r, s := DeltaCepstrum(g, cutpoint), DeltaCepstrum(frames, cutpoint);
    assert forall k :: 0 <= k < |frames| ==> |g[k]| == |frames[k]|;
    assert AllLongEnough(g, cutpoint) <==> AllLongEnough(frames, cutpoint);
    if r.Success? && s.Success? {
      forall i | 0 <= i < cutpoint
        ensures r.value[i] == s.value[i]
      {
        assert Column(g, i) == Column(frames, i)[0 := f[i]];
        WeightedSumIgnoresFirst(Column(frames, i), f[i], |frames|);
      }
      assert r.value == s.value;
    }
  }

  /** col[k] == a * k at every frame k. */
  predicate IsLine(col: seq<real>, a: real)
  {
    forall k :: 0 <= k < |col| ==> col[k] == a * k as real
  }

  /** A column that grows linearly, col[k] == a * k, has weighted sum a * sum k^2. */
  lemma {:induction false} WeightedSumOfLine(col: seq<real>, a: real, n: nat)
    requires n <= |col| && IsLine(col, a)
    ensures WeightedSum(col, n) == a * SumSquaresReal(n)
  {
    if n > 0 {
      WeightedSumOfLine(col, a, n - 1);
      LineStep(WeightedSum(col, n - 1), SumSquaresReal(n - 1), a, (n - 1) as real, col[n - 1]);
    }
  }

  /** One more point on the line keeps W == a * S. */
  lemma LineStep(w: real, s: real, a: real, k: real, c: real)
    requires w == a * s && c == a * k
    ensures w + k * c == a * (s + k * k)
  {
  }

  /** If coefficient i grows linearly with slope a across two or more frames, its delta is a. */
  lemma DeltaOfLine(frames: seq<seq<real>>, cutpoint: nat, i: nat, a: real)
    requires |frames| >= 2 && AllLongEnough(frames, cutpoint) && i < cutpoint
    requires HasCoefficient(frames, i) && IsLine(Column(frames, i), a)
    ensures DeltaCepstrum(frames, cutpoint).Success?
    ensures DeltaCepstrum(frames, cutpoint).value[i] == a
  {
    SlopeOfLine(Column(frames, i), a, |frames|);
  }

  /** The regression slope of two or more points on a line through the origin is the line's slope. */
  lemma SlopeOfLine(col: seq<real>, a: real, n: nat)
    requires 2 <= n <= |col| && IsLine(col, a)
    ensures SumSquares(n) > 0
    ensures WeightedSum(col, n) / SumSquares(n) as real == a
  {
    SumSquaresPositive(n);
    WeightedSumOfLine(col, a, n);
    SumSquaresAsReal(n);
    DivCancel(WeightedSum(col, n), a, SumSquares(n), SumSquaresReal(n));
  }

  /** w / s == a when w == a * s and s != 0, with s given both as a nat and as a real. */
  lemma DivCancel(w: real, a: real, s: nat, sr: real)
    requires s > 0 && s as real == sr && w == a * sr
    ensures w / s as real == a
  {
  }

  /** sum_{k<n} (col[k] - b * k)^2: how far the line through the origin with slope b misses the column. */
  function SquaredError(col: seq<real>, b: real, n: nat): real
    requires n <= |col|
  {
    if n == 0 then 0.0
    else
      var e := col[n - 1] - b * (n - 1) as real;
      SquaredError(col, b, n - 1) + e * e
  }

  /** sum_{k<n} col[k]^2. */
  function Energy(col: seq<real>, n: nat): real
    requires n <= |col|
  {
    if n == 0 then 0.0 else Energy(col, n - 1) + col[n - 1] * col[n - 1]
  }

  /** The quadratic E - 2 b W + b^2 S in the slope b. */
  function Quadratic(e: real, w: real, s: real, b: real): real
  {
    e - 2.0 * b * w + b * b * s
  }

  /** sum_{k<n} (b * k) * col[k]: the column against the line with slope b. */
  function Cross(col: seq<real>, b: real, n: nat): real
    requires n <= |col|
  {
    if n == 0 then 0.0 else Cross(col, b, n - 1) + (b * (n - 1) as real) * col[n - 1]
  }

  /** sum_{k<n} (b * k)^2: the energy of the line with slope b. */
  function LineEnergy(b: real, n: nat): real
  {
    if n == 0 then 0.0 else LineEnergy(b, n - 1) + (b * (n - 1) as real) * (b * (n - 1) as real)
  }

  /** Squaring each residual splits the error into the column's energy, the cross term and the line's energy. */
  lemma {:induction false} SplitSquares(col: seq<real>, b: real, n: nat)
    requires n <= |col|
    ensures SquaredError(col, b, n) == Energy(col, n) - 2.0 * Cross(col, b, n) + LineEnergy(b, n)
  {
    if n > 0 {
      SplitSquares(col, b, n - 1);
      SquareDiff(col[n - 1], b * (n - 1) as real);
    }
  }

  /** (c - t)^2 == c^2 - 2 t c + t^2. */
  lemma SquareDiff(c: real, t: real)
    ensures (c - t) * (c - t) == c * c - 2.0 * (t * c) + t * t
  {
  }

  /** The cross term is b times the weighted sum. */
  lemma {:induction false} CrossScales(col: seq<real>, b: real, n: nat)
    requires n <= |col|
    ensures Cross(col, b, n) == b * WeightedSum(col, n)
  {
    if n > 0 {
      CrossScales(col, b, n - 1);
      MulAdd(b, WeightedSum(col, n - 1), (n - 1) as real, col[n - 1]);
    }
  }

  /** b (w + k c) == b w + (b k) c. */
  lemma MulAdd(b: real, w: real, k: real, c: real)
    ensures b * (w + k * c) == b * w + (b * k) * c
  {
  }

  /** The line's energy is b^2 times the sum of squared frame numbers. */
  lemma {:induction false} LineEnergyScales(b: real, n: nat)
    ensures LineEnergy(b, n) == b * b * SumSquaresReal(n)
  {
    if n > 0 {
      LineEnergyScales(b, n - 1);
      MulAddSquare(b, SumSquaresReal(n - 1), (n - 1) as real);
    }
  }

  /** b^2 (s + k^2) == b^2 s + (b k)^2. */
  lemma MulAddSquare(b: real, s: real, k: real)
    ensures b * b * (s + k * k) == b * b * s + (b * k) * (b * k)
  {
  }

  /** sum over k < n of k^2, computed in the reals. */
  function SumSquaresReal(n: nat): real
  {
    if n == 0 then 0.0 else SumSquaresReal(n - 1) + (n - 1) as real * (n - 1) as real
  }

  /** The integer k_std, cast to real, is the real sum of squares. */
  lemma {:induction false} SumSquaresAsReal(n: nat)
    ensures SumSquares(n) as real == SumSquaresReal(n)
  {
    if n > 0 {
      SumSquaresAsReal(n - 1);
      CastSquare(n - 1);
    }
  }

  /** Squaring commutes with the cast to real. */
  lemma CastSquare(m: nat)
    ensures (m * m) as real == m as real * m as real
  {
  }

  /** The squared error is a quadratic in b whose coefficients are the column's sums. */
  lemma SquaredErrorExpanded(col: seq<real>, b: real, n: nat)
    requires n <= |col|
    ensures SquaredError(col, b, n)
            == Quadratic(Energy(col, n), WeightedSum(col, n), SumSquaresReal(n), b)
  {
    SplitSquares(col, b, n);
    CrossScales(col, b, n);
    LineEnergyScales(b, n);
  }

  /** A quadratic with S > 0 is smallest at b == W / S. */
  lemma QuadraticMinimum(e: real, w: real, s: real, b: real, d: real)
    requires s > 0.0 && d == w / s
    ensures Quadratic(e, w, s, d) <= Quadratic(e, w, s, b)
  {
    assert w == d * s;
    assert Quadratic(e, w, s, b) - Quadratic(e, w, s, d) == s * ((b - d) * (b - d));
    NonNegativeProduct(s, (b - d) * (b - d));
  }

  /** The regression slope W / S minimises the squared error of a column. */
  lemma ColumnLeastSquares(col: seq<real>, n: nat, b: real)
    requires n <= |col| && SumSquares(n) > 0
    ensures SquaredError(col, WeightedSum(col, n) / SumSquares(n) as real, n) <= SquaredError(col, b, n)
  {
    var s := SumSquares(n) as real;
    var w := WeightedSum(col, n);
    var d := w / s;
    SumSquaresAsReal(n);
    SquaredErrorExpanded(col, b, n);
    SquaredErrorExpanded(col, d, n);
    QuadraticMinimum(Energy(col, n), w, s, b, d);
  }

  /**
    The delta is the least-squares slope: among all lines through the
    origin, the one with slope delta[i] fits coefficient i over the frames
    best.
  */
  lemma DeltaIsLeastSquares(frames: seq<seq<real>>, cutpoint: nat, i: nat, b: real)
    requires DeltaCepstrum(frames, cutpoint).Success? && i < cutpoint
    ensures HasCoefficient(frames, i)
    ensures SquaredError(Column(frames, i), DeltaCepstrum(frames, cutpoint).value[i], |frames|)
            <= SquaredError(Column(frames, i), b, |frames|)
  {
    ColumnLeastSquares(Column(frames, i), |frames|, b);
  }
}
