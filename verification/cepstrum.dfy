/**
  The exact-arithmetic steps of MFCCclass.mfcc: projecting a magnitude
  spectrum onto the filterbank, repairing zero filter energies, guarding
  log10 against non-positive energies, and keeping coefficients
  1 .. cutpoint of the cepstrum.  log10 and the DCT are parameters.
*/
module Cepstrum {
  import opened Wrappers
  import opened Faults
  import opened MelFilterBank
  import opened Arith

  /** Inner product of two vectors of equal length. */
  function Dot(u: seq<real>, v: seq<real>): real
    requires |u| == |v|
  {
    if |u| == 0 then 0.0 else u[0] * v[0] + Dot(u[1..], v[1..])
  }

  /** np.dot(fft_data, filterbank.T): one filter energy per filterbank row. */
  function Project(spectrum: seq<real>, bank: seq<seq<real>>): (r: seq<real>)
    requires forall c :: 0 <= c < |bank| ==> |bank[c]| == |spectrum|
    ensures |r| == |bank|
    ensures forall c :: 0 <= c < |r| ==> r[c] == Dot(spectrum, bank[c])
  {
    seq(|bank|, c requires 0 <= c < |bank| => Dot(spectrum, bank[c]))
  }

  /** All entries are at least 0. */
  predicate NonNegative(v: seq<real>)
  {
    forall i :: 0 <= i < |v| ==> v[i] >= 0.0
  }

  /** The inner product of two non-negative vectors is non-negative. */
  lemma {:induction false} DotNonNegative(u: seq<real>, v: seq<real>)
    requires |u| == |v| && NonNegative(u) && NonNegative(v)
    ensures Dot(u, v) >= 0.0
    decreases |u|
  {
    if |u| > 0 {
      DotNonNegative(u[1..], v[1..]);
      assert u[0] * v[0] >= 0.0;
    }
  }

  /** A magnitude spectrum projected on a non-negative bank gives non-negative energies. */
  lemma ProjectNonNegative(spectrum: seq<real>, bank: seq<seq<real>>)
    requires forall c :: 0 <= c < |bank| ==> |bank[c]| == |spectrum|
    requires NonNegative(spectrum)
    requires forall c :: 0 <= c < |bank| ==> NonNegative(bank[c])
    ensures NonNegative(Project(spectrum, bank))
  {
    forall c | 0 <= c < |bank|
      ensures Dot(spectrum, bank[c]) >= 0.0
    {
      DotNonNegative(spectrum, bank[c]);
    }
  }

  /** Every row of a successfully built filterbank is non-negative. */
  lemma FilterBankNonNegative(centers: seq<int>, nmax: nat)
    requires CentersInRange(centers, nmax) && FilterBank(centers, nmax).Success?
    ensures forall c :: 0 <= c < |centers| ==> NonNegative(FilterBank(centers, nmax).value[c])
  {
    var bank := FilterBank(centers, nmax).value;
    var starts, stops := StartBins(centers), StopBins(centers, nmax);
    forall c, i | 0 <= c < |centers| && 0 <= i < |bank[c]|
      ensures bank[c][i] >= 0.0
    {
      assert RampsNonDegenerate(centers, nmax, c);
      TriangleBounded(starts[c], centers[c], stops[c], i);
    }
  }

  /** [i for i in range(len(array)) if array[i] != 0], built left to right. */
  function NonZeroIndices(a: seq<real>): (r: seq<nat>)
    ensures forall j :: 0 <= j < |r| ==> r[j] < |a| && a[r[j]] != 0.0
    ensures forall i :: 0 <= i < |a| && a[i] != 0.0 ==> i in r
    ensures forall j, k :: 0 <= j < k < |r| ==> r[j] < r[k]
  {
    if |a| == 0 then []
    else
      var n := |a| - 1;
      NonZeroIndices(a[..n]) + (if a[n] != 0.0 then [n] else [])
  }

  /** Sum of a list of indices. */
  function Sum(xs: seq<nat>): nat
  {
    if |xs| == 0 then 0 else xs[0] + Sum(xs[1..])
  }

  /** get_mean(array): sum(array) / len(array), a ZeroDivisionError on the empty list. */
  function GetMean(xs: seq<nat>): (r: Result<real, Fault>)
    ensures r.Failure? <==> |xs| == 0
    ensures r.Failure? ==> r.error == ZeroDivision
    ensures r.Success? ==> r.value == Sum(xs) as real / |xs| as real
  {
    if |xs| == 0 then Failure(ZeroDivision) else Success(Sum(xs) as real / |xs| as real)
  }

  /** Number of non-zero entries of a, counted from position i on. */
  function NonZeroCount(a: seq<real>, i: nat): nat
    requires i <= |a|
    decreases |a| - i
  {
    if i == |a| then 0 else (if a[i] != 0.0 then 1 else 0) + NonZeroCount(a, i + 1)
  }

  /** Sum of the positions j >= i of a that hold a non-zero entry. */
  function NonZeroIndexSum(a: seq<real>, i: nat): nat
    requires i <= |a|
    decreases |a| - i
  {
    if i == |a| then 0 else (if a[i] != 0.0 then i else 0) + NonZeroIndexSum(a, i + 1)
  }

  /** Sum distributes over concatenation. */
  lemma {:induction false} SumAppend(xs: seq<nat>, ys: seq<nat>)
    ensures Sum(xs + ys) == Sum(xs) + Sum(ys)
    decreases |xs|
  {
    if |xs| == 0 {
      assert xs + ys == ys;
    } else {
      assert (xs + ys)[1..] == xs[1..] + ys;
      SumAppend(xs[1..], ys);
    }
  }

  /** The counters over a prefix of a, extended by one position. */
  lemma {:induction false} CountersSnoc(a: seq<real>, n: nat, i: nat)
    requires i <= n < |a|
    ensures NonZeroCount(a[..n + 1], i) == NonZeroCount(a[..n], i) + (if a[n] != 0.0 then 1 else 0)
    ensures NonZeroIndexSum(a[..n + 1], i) == NonZeroIndexSum(a[..n], i) + (if a[n] != 0.0 then n else 0)
    decreases n - i
  {
    if i < n {
      CountersSnoc(a, n, i + 1);
    }
  }

  /** The list comprehension agrees with the independent counters. */
  lemma {:induction false} NonZeroIndicesCounted(a: seq<real>)
    ensures |NonZeroIndices(a)| == NonZeroCount(a, 0)
    ensures Sum(NonZeroIndices(a)) == NonZeroIndexSum(a, 0)
    decreases |a|
  {
    if |a| > 0 {
      var n := |a| - 1;
      NonZeroIndicesCounted(a[..n]);
      var tail: seq<nat> := if a[n] != 0.0 then [n] else [];
      SumAppend(NonZeroIndices(a[..n]), tail);
      assert Sum(tail) == if a[n] != 0.0 then n else 0;
      CountersSnoc(a, n, 0);
      assert a[..n + 1] == a;
    }
  }

  /** No entry is zero. */
  predicate NoZeros(a: seq<real>)
  {
    forall i :: 0 <= i < |a| ==> a[i] != 0.0
  }

  /** Some entry is non-zero. */
  predicate HasNonZero(a: seq<real>)
  {
    exists i :: 0 <= i < |a| && a[i] != 0.0
  }

  /** Some entry is non-zero exactly when the non-zero counter is positive. */
  lemma {:induction false} CountPositive(a: seq<real>, i: nat)
    requires i <= |a|
    ensures NonZeroCount(a, i) > 0 <==> exists j :: i <= j < |a| && a[j] != 0.0
    decreases |a| - i
  {
    if i < |a| {
      CountPositive(a, i + 1);
      if exists j :: i <= j < |a| && a[j] != 0.0 {
        var j :| i <= j < |a| && a[j] != 0.0;
        if j > i {
          assert i + 1 <= j < |a| && a[j] != 0.0;
        }
      }
    }
  }

  /**
    The mean of the positions of the non-zero entries, from the counters:
    the value the repair writes into every zero entry.
  */
  function IndexMean(a: seq<real>): real
    requires HasNonZero(a)
  {
    CountPositive(a, 0);
    NonZeroIndexSum(a, 0) as real / NonZeroCount(a, 0) as real
  }

  /** Replace every zero entry of a by v. */
  function FillZeros(a: seq<real>, v: real): (r: seq<real>)
    ensures |r| == |a|
    ensures forall i :: 0 <= i < |a| ==> r[i] == if a[i] == 0.0 then v else a[i]
  {
    seq(|a|, i requires 0 <= i < |a| => if a[i] == 0.0 then v else a[i])
  }

  /** What the list comprehension and get_mean compute, in terms of the counters. */
  lemma RepairFacts(a: seq<real>)
    ensures |NonZeroIndices(a)| == 0 <==> !HasNonZero(a)
    ensures GetMean(NonZeroIndices(a)).Success? ==> GetMean(NonZeroIndices(a)).value == IndexMean(a)
  {
    var idx := NonZeroIndices(a);
    NonZeroIndicesCounted(a);
    CountPositive(a, 0);
  }

  /**
    assign_mean_to_zero(array): every zero entry is replaced by the mean of
    the positions of the non-zero entries, and the others are kept; with no
    non-zero entry get_mean divides by zero.
  */
  function AssignMeanToZero(a: seq<real>): (r: Result<seq<real>, Fault>)
    ensures r.Failure? <==> !HasNonZero(a)
    ensures r.Failure? ==> r.error == ZeroDivision
    ensures r.Success? ==> |r.value| == |a|
    ensures r.Success? ==> forall i :: 0 <= i < |a| && a[i] != 0.0 ==> r.value[i] == a[i]
    ensures r.Success? ==> forall i :: 0 <= i < |a| && a[i] == 0.0 ==> r.value[i] == IndexMean(a)
  {
    RepairFacts(a);
    var mean :- GetMean(NonZeroIndices(a));
    Success(FillZeros(a, mean))
  }

  /** The counters are bounded by the array: NonZeroIndexSum <= NonZeroCount * (|a| - 1). */
  lemma {:induction false} IndexSumBounded(a: seq<real>, i: nat)
    requires i <= |a|
    ensures NonZeroIndexSum(a, i) <= NonZeroCount(a, i) * (|a| - 1)
    decreases |a| - i
  {
    if i < |a| {
      IndexSumBounded(a, i + 1);
    }
  }

  /** The mean written into zero entries lies between 0 and the last position. */
  lemma MeanBounds(a: seq<real>)
    requires HasNonZero(a)
    ensures 0.0 <= IndexMean(a) <= (|a| - 1) as real
  {
    var c, s, last := NonZeroCount(a, 0), NonZeroIndexSum(a, 0), |a| - 1;
    CountPositive(a, 0);
    IndexSumBounded(a, 0);
    CastProduct(c, last);
    QuotientBounded(c as real, s as real, last as real);
  }

  /** An array without zeros passes through unchanged. */
  lemma NoZerosUnchanged(a: seq<real>)
    requires |a| > 0 && NoZeros(a)
    ensures AssignMeanToZero(a) == Success(a)
  {
    assert a[0] != 0.0;
    var r := AssignMeanToZero(a);
    assert r.value == a;
  }

  /** The repair is idempotent: repairing a repaired array changes nothing. */
  lemma AssignMeanToZeroIdempotent(a: seq<real>)
    requires AssignMeanToZero(a).Success?
    ensures AssignMeanToZero(AssignMeanToZero(a).value) == AssignMeanToZero(a)
  {
    var r := AssignMeanToZero(a).value;
    if NoZeros(r) {
      NoZerosUnchanged(r);
    } else {
      var j :| 0 <= j < |r| && r[j] == 0.0;
      assert a[j] == 0.0;
      assert IndexMean(a) == 0.0;
      assert r == a;
    }
  }

  /** The sum of non-zero positions is positive exactly when some position >= 1 is non-zero. */
  lemma {:induction false} IndexSumPositive(a: seq<real>, i: nat)
    requires i <= |a|
    ensures NonZeroIndexSum(a, i) > 0 <==> exists j :: i <= j < |a| && j >= 1 && a[j] != 0.0
    decreases |a| - i
  {
    if i < |a| {
      IndexSumPositive(a, i + 1);
      if exists j :: i <= j < |a| && j >= 1 && a[j] != 0.0 {
        var j :| i <= j < |a| && j >= 1 && a[j] != 0.0;
        if j > i {
          assert i + 1 <= j < |a| && j >= 1 && a[j] != 0.0;
        }
      }
    }
  }

  /** The mean of the non-zero positions is positive exactly when one of them is >= 1. */
  lemma IndexMeanPositive(a: seq<real>)
    requires HasNonZero(a)
    ensures IndexMean(a) > 0.0 <==> exists j :: 1 <= j < |a| && a[j] != 0.0
  {
    CountPositive(a, 0);
    IndexSumPositive(a, 0);
    PositiveQuotient(NonZeroCount(a, 0) as real, NonZeroIndexSum(a, 0) as real);
  }

  /** For c > 0 and s >= 0, s / c > 0 exactly when s > 0. */
  lemma PositiveQuotient(c: real, s: real)
    requires c > 0.0 && s >= 0.0
    ensures s / c > 0.0 <==> s > 0.0
  {
    assert (s / c) * c == s;
  }

  /**
    For non-negative energies the repaired array is positive everywhere
    (so log10 succeeds) exactly when there was no zero entry or some
    position >= 1 holds a non-zero entry; when only position 0 is non-zero
    the mean is 0 and the zeros stay.
  */
  lemma RepairedPositiveIff(a: seq<real>)
    requires NonNegative(a) && AssignMeanToZero(a).Success?
    ensures (forall i :: 0 <= i < |a| ==> AssignMeanToZero(a).value[i] > 0.0)
            <==> NoZeros(a) || exists j :: 1 <= j < |a| && a[j] != 0.0
  {
    var r := AssignMeanToZero(a).value;
    IndexMeanPositive(a);
    if !NoZeros(a) {
      var z :| 0 <= z < |a| && a[z] == 0.0;
      assert r[z] == IndexMean(a);
    }
  }

  /**
    np.log10 applied entrywise. A zero entry divides by zero and a
    negative one is an invalid value; both warnings are raised as errors.
  */
  function Log10All(x: seq<real>, log10: real -> real): (r: Result<seq<real>, Fault>)
    ensures r.Failure? <==> exists i :: 0 <= i < |x| && x[i] <= 0.0
    ensures r.Failure? ==> r.error == LogOfNonPositive
    ensures r.Success? ==> |r.value| == |x| && forall i :: 0 <= i < |x| ==> r.value[i] == log10(x[i])
  {
    if exists i :: 0 <= i < |x| && x[i] <= 0.0 then Failure(LogOfNonPositive)
    else Success(seq(|x|, i requires 0 <= i < |x| => log10(x[i])))
  }

  /** MFCCclass's default number of kept coefficients. */
  const DefaultCutpoint: nat := 12

  /**
    ceps[1:cutpoint + 1]: Python slicing clamps both bounds to the length,
    so the result holds coefficients 1 .. cutpoint, or as many as exist.
  */
  function KeepCoefficients(ceps: seq<real>, cutpoint: nat): (r: seq<real>)
    ensures |r| == Min(cutpoint, if |ceps| == 0 then 0 else |ceps| - 1)
    ensures forall j :: 0 <= j < |r| ==> r[j] == ceps[j + 1]
  {
    var lo := Min(1, |ceps|);
    var hi := Min(cutpoint + 1, |ceps|);
    if hi <= lo then [] else ceps[lo..hi]
  }

  /** MFCCclass's default number of filterbank channels. */
  const DefaultChannels: nat := 20

  /**
    With the defaults, 20 channels and cutpoint 12, the DCT of the 20 log
    energies keeps exactly coefficients 1 .. 12, dropping the 0th.
  */
  lemma DefaultCoefficientsKept(ceps: seq<real>)
    requires |ceps| == DefaultChannels
    ensures |KeepCoefficients(ceps, DefaultCutpoint)| == 12
    ensures KeepCoefficients(ceps, DefaultCutpoint) == ceps[1..13]
  {
    KeepCoefficientsCount(ceps, DefaultCutpoint);
  }

  /** With more channels than the cutpoint exactly cutpoint coefficients are kept. */
  lemma KeepCoefficientsCount(ceps: seq<real>, cutpoint: nat)
    requires |ceps| > cutpoint
    ensures |KeepCoefficients(ceps, cutpoint)| == cutpoint
    ensures KeepCoefficients(ceps, cutpoint) == ceps[1..cutpoint + 1]
  {
  }

  /**
    The exact-arithmetic skeleton of mfcc(): from the magnitude spectrum
    and the centre bins to the kept cepstral coefficients.  log10 and the
    orthonormal DCT-II are parameters.
  */
  function CepstrumFromSpectrum(spectrum: seq<real>, centers: seq<int>, nmax: nat,
                                log10: real -> real, dct: seq<real> -> seq<real>,
                                cutpoint: nat): (r: Result<seq<real>, Fault>)
    requires CentersInRange(centers, nmax) && |spectrum| == nmax
    ensures FilterBank(centers, nmax).Failure? ==> r == Failure(FloatDivideByZero)
    ensures r.Success? ==> |r.value| <= cutpoint
  {
    var bank :- FilterBank(centers, nmax);
    FilterBankRowLengths(centers, nmax);
    CepstrumFromEnergies(Project(spectrum, bank), log10, dct, cutpoint)
  }

  /** The steps of mfcc() after the projection: repair, log10, DCT and the slice. */
  function CepstrumFromEnergies(energies: seq<real>, log10: real -> real,
                                dct: seq<real> -> seq<real>, cutpoint: nat): (r: Result<seq<real>, Fault>)
    ensures r.Failure? ==> r.error == ZeroDivision || r.error == LogOfNonPositive
    ensures r.Success? ==> |r.value| <= cutpoint
  {
    var repaired :- AssignMeanToZero(energies);
    var mspec :- Log10All(repaired, log10);
    Success(KeepCoefficients(dct(mspec), cutpoint))
  }

  /**
    With a length-preserving DCT and more energies than the cutpoint, a
    successful cepstrum holds exactly coefficients 1 .. cutpoint of the DCT.
  */
  lemma CepstrumFromEnergiesLength(energies: seq<real>, log10: real -> real,
                                   dct: seq<real> -> seq<real>, cutpoint: nat)
    requires forall v :: |dct(v)| == |v|
    requires |energies| > cutpoint
    ensures CepstrumFromEnergies(energies, log10, dct, cutpoint).Success? ==>
              |CepstrumFromEnergies(energies, log10, dct, cutpoint).value| == cutpoint
  {
    var repaired := AssignMeanToZero(energies);
    if repaired.Success? {
      var mspec := Log10All(repaired.value, log10);
      if mspec.Success? {
        KeepCoefficientsCount(dct(mspec.value), cutpoint);
      }
    }
  }

  /**
    With a length-preserving DCT and more filterbank channels than the
    cutpoint, a successful mfcc() returns exactly cutpoint coefficients.
  */
  lemma CepstrumFromSpectrumLength(spectrum: seq<real>, centers: seq<int>, nmax: nat,
                                   log10: real -> real, dct: seq<real> -> seq<real>,
                                   cutpoint: nat)
    requires CentersInRange(centers, nmax) && |spectrum| == nmax
    requires forall v :: |dct(v)| == |v|
    requires |centers| > cutpoint
    ensures CepstrumFromSpectrum(spectrum, centers, nmax, log10, dct, cutpoint).Success? ==>
              |CepstrumFromSpectrum(spectrum, centers, nmax, log10, dct, cutpoint).value| == cutpoint
  {
    var bank := FilterBank(centers, nmax);
    if bank.Success? {
      FilterBankRowLengths(centers, nmax);
      CepstrumFromEnergiesLength(Project(spectrum, bank.value), log10, dct, cutpoint);
    }
  }

  /**
    Once the filterbank is built, the pipeline fails with get_mean's
    division by zero exactly when every filter energy is zero.
  */
  lemma MeanStepFailsIff(spectrum: seq<real>, centers: seq<int>, nmax: nat,
                         log10: real -> real, dct: seq<real> -> seq<real>, cutpoint: nat)
    requires CentersInRange(centers, nmax) && |spectrum| == nmax
    requires FilterBank(centers, nmax).Success?
    ensures CepstrumFromSpectrum(spectrum, centers, nmax, log10, dct, cutpoint) == Failure(ZeroDivision)
            <==> !HasNonZero(Project(spectrum, FilterBank(centers, nmax).value))
  {
  }

  /** A silent frame (all-zero spectrum) makes every energy zero, so get_mean divides by zero. */
  lemma SilentFrameFails(spectrum: seq<real>, centers: seq<int>, nmax: nat,
                         log10: real -> real, dct: seq<real> -> seq<real>, cutpoint: nat)
    requires CentersInRange(centers, nmax) && |spectrum| == nmax
    requires FilterBank(centers, nmax).Success?
    requires forall i :: 0 <= i < |spectrum| ==> spectrum[i] == 0.0
    ensures CepstrumFromSpectrum(spectrum, centers, nmax, log10, dct, cutpoint) == Failure(ZeroDivision)
  {
    var bank := FilterBank(centers, nmax).value;
    var energies := Project(spectrum, bank);
    forall c | 0 <= c < |bank|
      ensures energies[c] == 0.0
    {
      DotZero(spectrum, bank[c]);
    }
  }

  /** The inner product with the zero vector is zero. */
  lemma {:induction false} DotZero(u: seq<real>, v: seq<real>)
    requires |u| == |v| && forall i :: 0 <= i < |u| ==> u[i] == 0.0
    ensures Dot(u, v) == 0.0
    decreases |u|
  {
    if |u| > 0 {
      DotZero(u[1..], v[1..]);
    }
  }

  /**
    For non-negative energies with some non-zero entry, log10 of the
    repaired energies succeeds exactly when there was no zero energy or
    some energy at position >= 1 is non-zero.
  */
  lemma LogStepSucceedsIff(energies: seq<real>, log10: real -> real)
    requires NonNegative(energies) && HasNonZero(energies)
    ensures Log10All(AssignMeanToZero(energies).value, log10).Success?
            <==> NoZeros(energies) || exists j :: 1 <= j < |energies| && energies[j] != 0.0
  {
    var r := AssignMeanToZero(energies).value;
    RepairedPositiveIff(energies);
    if exists i :: 0 <= i < |r| && r[i] <= 0.0 {
      var i :| 0 <= i < |r| && r[i] <= 0.0;
      assert !(r[i] > 0.0);
    }
  }
}
