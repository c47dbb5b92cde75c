/**
  SepFrame's docstring gives the number of frames as
  int(1 + (N / nframe - 1) / (1 - ov)).  This module proves that the
  segmenter agrees with that formula when the signal holds at least one
  frame (N >= nframe) and the shift is a whole number of samples that
  divides the frame length, that for N < nframe the formula gives at most 0
  while the segmenter returns no frame, and exhibits a case where the two
  disagree although N >= nframe.
*/
module FrameCount {
  import opened Wrappers
  import opened Faults
  import opened Framing
  import opened Arith

  /** The frame count the docstring promises for a signal of n samples. */
  function DocstringCount(n: nat, nframe: nat, ov: real): int
    requires nframe > 0 && ov != 1.0
  {
    Trunc(1.0 + (n as real / nframe as real - 1.0) / (1.0 - ov))
  }

  /** With a whole-number shift h the offsets are exactly h * i. */
  lemma WholeShiftOffset(h: nat, i: nat)
    ensures ShiftTimes(h as real, i) == (h * i) as real
    ensures Offset(h as real, i) == h * i
  {
    ShiftTimesIsProduct(h as real, i);
    assert h as real * i as real == (h * i) as real;
  }

  /** Integer division is the unique k with h * k <= n < h * (k + 1). */
  lemma DivUnique(n: nat, h: nat, k: int)
    requires h > 0 && h * k <= n < h * (k + 1)
    ensures k == n / h
  {
    var q := n / h;
    assert h * q <= n < h * (q + 1);
    if k < q {
      ScaleMonotoneInt(h, k + 1, q);
    } else if k > q {
      ScaleMonotoneInt(h, q + 1, k);
    }
  }

  /** With a whole-number shift h the last generated offset has index n / h. */
  lemma WholeShiftLastIndex(h: nat, n: nat)
    requires h > 0
    ensures LastIndex(h as real, n) == n / h
  {
    var r := GetStartWindow(h as real, n);
    var k := |r| - 1;
    assert r[k] == Offset(h as real, k);
    WholeShiftOffset(h, k);
    WholeShiftOffset(h, k + 1);
    assert h * (k + 1) == h * k + h;
    DivUnique(n, h, k);
  }

  /** With a whole-number shift h, window j fits before the last offset iff h * j + nframe <= h * (n / h). */
  lemma FitsWholeShift(h: nat, n: nat, nframe: nat, j: nat)
    requires h > 0
    ensures FitsBeforeLast(h as real, n, nframe, j) <==> h * j + nframe <= h * (n / h)
  {
    WholeShiftLastIndex(h, n);
    WholeShiftOffset(h, n / h);
    WholeShiftOffset(h, j);
  }

  /** h * (n / h) <= n < h * (n / h) + h. */
  lemma DivBounds(n: nat, h: nat)
    requires h > 0
    ensures h * (n / h) <= n < h * (n / h) + h
  {
  }

  /**
    With a whole-number shift h and nframe = m * h, the longest prefix of
    fitting windows over n >= nframe samples has floor(n / h) - m + 1 entries.
  */
  lemma FittingPrefixWholeShift(n: nat, nframe: nat, h: nat, m: nat, c: nat)
    requires h >= 1 && m >= 1 && nframe == m * h && n >= nframe
    requires LongestFittingPrefix(c, h as real, n, nframe)
    ensures c == n / h - m + 1
  {
    var k := n / h;
    WholeShiftLastIndex(h, n);
    assert c <= k + 1;
    if c > 0 {
      assert FitsBeforeLast(h as real, n, nframe, c - 1);
      FitsWholeShift(h, n, nframe, c - 1);
    }
    if c <= k {
      assert !FitsBeforeLast(h as real, n, nframe, c);
      FitsWholeShift(h, n, nframe, c);
    }
    DivBounds(n, h);
    PrefixCount(n, nframe, h, m, k, c);
  }

  /** FittingPrefixWholeShift's facts restated over the integers. */
  lemma PrefixCount(n: nat, nframe: nat, h: nat, m: nat, k: nat, c: nat)
    requires h >= 1 && m >= 1 && nframe == m * h && n >= nframe
    requires h * k <= n < h * k + h && c <= k + 1
    requires c > 0 ==> h * (c - 1) + nframe <= h * k
    requires c <= k ==> h * c + nframe > h * k
    ensures c == k - m + 1
  {
    PrefixArith(h, m, k, c);
  }

  /** The integer core of FittingPrefixWholeShift. */
  lemma PrefixArith(h: nat, m: nat, k: nat, c: nat)
    requires h >= 1 && m >= 1 && c <= k + 1
    requires h * m <= h * k + h - 1
    requires c > 0 ==> h * (c - 1) + m * h <= h * k
    requires c <= k ==> h * c + m * h > h * k
    ensures c == k - m + 1
  {
    PrefixAtMost(h, m, k, c);
    PrefixAtLeast(h, m, k, c);
  }

  /** The windows that fit give c <= k - m + 1. */
  lemma PrefixAtMost(h: nat, m: nat, k: nat, c: nat)
    requires h >= 1
    requires h * m <= h * k + h - 1
    requires c > 0 ==> h * (c - 1) + m * h <= h * k
    ensures c <= k - m + 1
  {
    if c > 0 {
      assert h * (c - 1) + m * h == h * (c - 1 + m);
      ScaleMonotoneInt(h, c - 1 + m, k);
    } else if m > k + 1 {
      assert h * (k + 1) == h * k + h;
      ScaleMonotoneInt(h, k + 1, m);
    }
  }

  /** The first window that does not fit gives c >= k - m + 1. */
  lemma PrefixAtLeast(h: nat, m: nat, k: nat, c: nat)
    requires h >= 1 && m >= 1 && c <= k + 1
    requires c <= k ==> h * c + m * h > h * k
    ensures c >= k - m + 1
  {
    if c <= k {
      assert h * c + m * h == h * (c + m);
      ScaleMonotoneInt(h, c + m, k);
    }
  }

  /** Under the same assumptions the docstring formula reduces to floor(n / h) - m + 1. */
  lemma DocstringFormulaWholeShift(n: nat, nframe: nat, ov: real, h: nat, m: nat)
    requires 0.0 <= ov < 1.0
    requires h >= 1 && m >= 1 && nframe == m * h && n >= nframe
    requires Shift(nframe, ov) == h as real
    ensures DocstringCount(n, nframe, ov) == n / h - m + 1
  {
    var a, mr, hr, f := n as real, m as real, h as real, nframe as real;
    CastProduct(m, h);
    FormulaReduces(a, f, mr, hr, 1.0 - ov);
    WholeQuotientFloor(n, h);
    TruncShifted(a / hr, m);
  }

  /** With f == m * h and f * d == h, (a / f - 1) / d == a / h - m, and a / h >= m when a >= f. */
  lemma FormulaReduces(a: real, f: real, mr: real, hr: real, d: real)
    requires mr >= 1.0 && hr >= 1.0 && f == mr * hr && f * d == hr && a >= f
    ensures (a / f - 1.0) / d == a / hr - mr
    ensures a / hr >= mr
  {
    OverlapFraction(f, mr, hr, d);
    FormulaTerm(a, mr, hr);
    ScaleMonotone(mr, a / hr, hr);
  }

  /** For y >= m, int(1 + (y - m)) == floor(y) + 1 - m. */
  lemma TruncShifted(y: real, m: int)
    requires y >= m as real
    ensures Trunc(1.0 + (y - m as real)) == y.Floor + 1 - m
  {
  }

  /** nframe * (1 - ov) == h with nframe = m * h forces 1 - ov == 1 / m. */
  lemma OverlapFraction(f: real, mr: real, hr: real, d: real)
    requires mr > 0.0 && hr > 0.0 && f == mr * hr
    requires f * d == hr
    ensures d == 1.0 / mr
  {
    assert (mr * d) * hr == 1.0 * hr;
    assert mr * d == 1.0;
  }

  /** (a / (m * h) - 1) / (1 / m) == a / h - m. */
  lemma FormulaTerm(a: real, mr: real, hr: real)
    requires mr > 0.0 && hr > 0.0
    ensures (a / (mr * hr) - 1.0) / (1.0 / mr) == a / hr - mr
  {
    assert (a / (mr * hr) - 1.0) / (1.0 / mr) == (a / (mr * hr) - 1.0) * mr;
    assert a / (mr * hr) * mr == a / hr;
  }

  /** floor(n / h) over the reals is the integer quotient. */
  lemma WholeQuotientFloor(n: nat, h: nat)
    requires h >= 1
    ensures (n as real / h as real).Floor == n / h
  {
    var q, r := n / h, n % h;
    CastProduct(h, q);
    assert n as real == h as real * q as real + r as real;
    DivisionWithRemainder(n as real, h as real, q as real, r as real);
  }

  /**
    When the shift is a whole number h that divides nframe (nframe = m * h)
    and the signal holds at least one frame, SepFrame returns exactly the
    number of frames the docstring formula gives: floor(N / h) - m + 1.
  */
  lemma DocstringCountWhenShiftDividesFrame(data: seq<real>, nframe: nat, ov: real, h: nat, m: nat)
    requires 0.0 <= ov < 1.0
    requires h >= 1 && m >= 1 && nframe == m * h
    requires Shift(nframe, ov) == h as real
    requires |data| >= nframe
    ensures SepFrame(data, nframe, ov).Success?
    ensures |SepFrame(data, nframe, ov).value| == DocstringCount(|data|, nframe, ov)
    ensures DocstringCount(|data|, nframe, ov) == |data| / h - m + 1
  {
    FittingPrefixWholeShift(|data|, nframe, h, m, |SepFrame(data, nframe, ov).value|);
    DocstringFormulaWholeShift(|data|, nframe, ov, h, m);
  }

  /** The docstring's example: 1000 samples, 256-sample frames, ov = 0.75 give 12 frames. */
  lemma DocstringExample(data: seq<real>)
    requires |data| == 1000
    ensures SepFrame(data, 256, 0.75).Success?
    ensures |SepFrame(data, 256, 0.75).value| == 12
  {
    DocstringCountWhenShiftDividesFrame(data, 256, 0.75, 64, 4);
  }

  /**
    Without divisibility the formula can be wrong: 4-sample frames with
    ov = 0.25 (shift 3) over a 4-sample signal give offsets 0 and 3, and the
    window [0, 4) ends after the last offset, so SepFrame returns no frame
    although the signal holds one and the formula promises one.
  */
  lemma DocstringCountCounterexample(data: seq<real>)
    requires |data| == 4
    ensures SepFrame(data, 4, 0.25) == Success([])
    ensures DocstringCount(4, 4, 0.25) == 1
  {
    var r := SepFrame(data, 4, 0.25);
    assert Shift(4, 0.25) == 3.0;
    assert LastIndex(3.0, 4) == 1;
    assert Offset(3.0, 1) == 3;
    assert Offset(3.0, 0) == 0;
    assert !FitsBeforeLast(3.0, 4, 4, 0);
    assert |r.value| == 0;
  }

  /**
    A signal shorter than one frame: SepFrame returns no frame and the
    formula gives at most 0 (for 100 samples at 256/0.75 it gives -1).
  */
  lemma DocstringCountShortData(data: seq<real>, nframe: nat, ov: real)
    requires 0.0 <= ov < 1.0 && nframe > 0 && |data| < nframe
    ensures SepFrame(data, nframe, ov) == Success([])
    ensures DocstringCount(|data|, nframe, ov) <= 0
  {
    var x, d := |data| as real / nframe as real - 1.0, 1.0 - ov;
    assert |data| as real / nframe as real < 1.0 by {
      QuotientBounded(nframe as real, |data| as real, 1.0);
      assert |data| as real / nframe as real != 1.0;
    }
    var q := x / d;
    assert q * d == x;
    assert q < 0.0 by {
      if q >= 0.0 {
        NonNegativeProduct(q, d);
      }
    }
  }
}
