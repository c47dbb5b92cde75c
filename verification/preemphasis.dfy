/**
  The pre-emphasis filter of MFCCclass: scipy's lfilter with numerator
  [1, -p], denominator 1 and zero initial state, i.e. a first-order FIR
  high-pass y[k] = x[k] - p * x[k - 1].
*/
module PreEmphasis {

  /** Sample n of x, or 0 before the start and past the end (zero initial state). */
  function Tap(x: seq<real>, n: int): real
  {
    if 0 <= n < |x| then x[n] else 0.0
  }

  /** sum over k >= from of b[k] * x[n - k]. */
  function FirSum(b: seq<real>, x: seq<real>, n: int, from: nat): real
    decreases |b| - from
  {
    if from >= |b| then 0.0 else b[from] * Tap(x, n - from) + FirSum(b, x, n, from + 1)
  }

  /** lfilter(b, 1, x): each output sample is the numerator taps applied to the input history. */
  function LFilterFir(b: seq<real>, x: seq<real>): (y: seq<real>)
    ensures |y| == |x|
    ensures forall n :: 0 <= n < |y| ==> y[n] == FirSum(b, x, n, 0)
  {
    seq(|x|, n requires 0 <= n < |x| => FirSum(b, x, n, 0))
  }

  /** The two-tap numerator [1, -p] gives x[n] - p * x[n - 1]. */
  lemma TwoTaps(p: real, x: seq<real>, n: int)
    ensures FirSum([1.0, -p], x, n, 0) == Tap(x, n) - p * Tap(x, n - 1)
  {
    assert FirSum([1.0, -p], x, n, 2) == 0.0;
  }

  /** The two-tap filter's output, sample by sample. */
  lemma TwoTapFilter(p: real, x: seq<real>)
    ensures |x| > 0 ==> LFilterFir([1.0, -p], x)[0] == x[0]
    ensures forall k :: 1 <= k < |x| ==> LFilterFir([1.0, -p], x)[k] == x[k] - p * x[k - 1]
  {
    var y := LFilterFir([1.0, -p], x);
    if |x| > 0 {
      TwoTaps(p, x, 0);
    }
    forall k | 1 <= k < |x|
      ensures y[k] == x[k] - p * x[k - 1]
    {
      TwoTaps(p, x, k);
    }
  }

  /**
    PreEmphasisFilter / get_preEmphasis(signals, p): the same length as the
    input, the first sample passes through, and every later sample is the
    difference equation y[k] = x[k] - p * x[k - 1].
  */
  function PreEmphasisFilter(x: seq<real>, p: real): (y: seq<real>)
    ensures |y| == |x|
    ensures |x| > 0 ==> y[0] == x[0]
    ensures forall k :: 1 <= k < |x| ==> y[k] == x[k] - p * x[k - 1]
  {
    TwoTapFilter(p, x);
    LFilterFir([1.0, -p], x)
  }

  /** The filter is causal: output k depends only on inputs up to k. */
  lemma PreEmphasisCausal(x: seq<real>, p: real, k: nat)
    requires k <= |x|
    ensures PreEmphasisFilter(x[..k], p) == PreEmphasisFilter(x, p)[..k]
  {
    var a, b := PreEmphasisFilter(x[..k], p), PreEmphasisFilter(x, p)[..k];
    forall j | 0 <= j < k
      ensures a[j] == b[j]
    {
      if j > 0 {
        assert a[j] == x[j] - p * x[j - 1];
      }
    }
  }

  /** Sample k of the de-emphasised signal: d[0] = y[0] and d[k] = y[k] + p * d[k - 1]. */
  function DeEmphasisAt(y: seq<real>, p: real, k: nat): real
    requires k < |y|
  {
    if k == 0 then y[0] else y[k] + p * DeEmphasisAt(y, p, k - 1)
  }

  /**
    The inverse (de-emphasis) IIR filter lfilter([1], [1, -p], y). It is
    not part of the program; it serves as the reference that pins down what
    pre-emphasis computes.
  */
  function DeEmphasis(y: seq<real>, p: real): (d: seq<real>)
    ensures |d| == |y|
    ensures |y| > 0 ==> d[0] == y[0]
    ensures forall k :: 1 <= k < |y| ==> d[k] == y[k] + p * d[k - 1]
  {
    seq(|y|, k requires 0 <= k < |y| => DeEmphasisAt(y, p, k))
  }

  /** De-emphasis recovers each input sample from the pre-emphasised signal. */
  lemma {:induction false} DeEmphasisUndoesPreEmphasisAt(x: seq<real>, p: real, k: nat)
    requires k < |x|
    ensures DeEmphasisAt(PreEmphasisFilter(x, p), p, k) == x[k]
    decreases k
  {
    if k > 0 {
      DeEmphasisUndoesPreEmphasisAt(x, p, k - 1);
    }
  }

  /** De-emphasis undoes pre-emphasis. */
  lemma DeEmphasisUndoesPreEmphasis(x: seq<real>, p: real)
    ensures DeEmphasis(PreEmphasisFilter(x, p), p) == x
  {
    forall k | 0 <= k < |x|
      ensures DeEmphasis(PreEmphasisFilter(x, p), p)[k] == x[k]
    {
      DeEmphasisUndoesPreEmphasisAt(x, p, k);
    }
  }

  /** Pre-emphasis undoes de-emphasis, so the filter is a bijection on signals. */
  lemma PreEmphasisUndoesDeEmphasis(y: seq<real>, p: real)
    ensures PreEmphasisFilter(DeEmphasis(y, p), p) == y
  {
    var d := DeEmphasis(y, p);
    var z := PreEmphasisFilter(d, p);
    forall k | 1 <= k < |y|
      ensures z[k] == y[k]
    {
      assert d[k] == y[k] + p * d[k - 1];
    }
  }
}
