# MFCC feature extraction — a verified Dafny model

This project models the numeric core of an MFCC (mel-frequency cepstral
coefficient) feature extractor for machine learning. The core is:

- `SepFrame`, which cuts a signal into overlapping frames;
- `ChoiceFeature` and `TransformMLFormat`, which assemble the labelled
  feature record;
- the `MFCCclass` pieces that are pure arithmetic: the pre-emphasis FIR
  filter, the triangular mel filterbank, the zero-energy repair
  (`assign_mean_to_zero`) and the coefficient slice `ceps[1:cutpoint+1]`;
- the module-level function `delta_cepstrum`, which computes the delta
  cepstrum from a list of MFCC vectors.

All arithmetic is exact (`real` and `int`). Each Python exit path is a
`Result` failure whose `Fault` names the cause:

| Fault | cause |
|---|---|
| `InvalidOverlap` | `sys.exit()` on an overlap outside [0, 1] |
| `Diverges` | `GetStartWindow`'s loop never ends when the shift is 0 |
| `ZeroDivision` | `get_mean` of an empty list, or `delta_cepstrum` on no frames |
| `FloatDivideByZero` | a NumPy floating-point warning from dividing by zero (`1.0 / 0` or `0.0 / 0`), which `warnings.filterwarnings('error')` turns into an exception |
| `LogOfNonPositive` | `np.log10` of an entry that is zero or negative |
| `IndexOutOfRange` | a frame too short for the coefficient index |
| `UnknownFeatureMode` | `ChoiceFeature`'s `sys.exit()` |

Modules:

- `Wrappers`, `Faults`: the `Option`/`Result` types and the fault kinds.
- `Framing`: `SepFrame` and its helpers, written close to the code. The
  contracts characterise the frames as the longest prefix of the offsets
  `int(shift * j)` whose window ends by the last offset. Each frame is the
  slice `data[offset .. offset + nframe]`.
- `FrameCount`: the docstring's frame-count formula set against what the
  code computes.
- `Features`: `TransformMLFormat` (a left fold of concatenations) and
  `ChoiceFeature`.
- `PreEmphasis`: `lfilter([1, -p], 1, x)`. The de-emphasis IIR filter is
  the reference inverse used to pin it down.
- `MelFilterBank`: the index and triangle part of `melFilterBank`, as a
  function and as the two-loop method that fills each row.
- `Cepstrum`: the projection onto the bank, the zero repair, `log10`, and
  the slice of the kept coefficients.
- `Delta`: `delta_cepstrum`. The contracts show it is the least-squares
  slope through the origin of each coefficient over the frame index.

How the code and its documentation differ:

- `SepFrame`'s error message says `0 < ov < 1`, but the code only rejects
  `ov < 0` and `ov > 1`. So `ov = 0` works, and `ov = 1` loops forever.
- The docstring's count `int(1 + ((N / nframe) - 1) / (1 - ov))` is exact
  when `N >= nframe` and the shift is a whole number that divides
  `nframe`. This covers the defaults: 1000 samples at 256/0.75 give 12
  frames.
- For `N < nframe` the code returns no frame while the formula gives at
  most 0. For example, 100 samples at 256/0.75 give -1.
- With `N >= nframe` the count is still not exact in general. With 4 samples, frame 4
  and overlap 0.25, the formula says 1 but the code returns no frame,
  because a window must end at or before the last start offset, not at the
  end of the data (`FrameCount.DocstringCountCounterexample`).
- For non-negative energies with some non-zero entry, `log10` after the
  repair succeeds exactly when either condition holds:
  - there was no zero energy at all;
  - a non-zero energy sits at a position of at least 1.

  The repair writes the mean of the non-zero positions into the zero
  entries. When only position 0 is non-zero, that mean is 0 and the zeros
  stay.

## Model

| member | source | states |
|---|---|---|
| Framing.ShiftSign | script/run_mfcc.py:110-114 | an accepted overlap gives a shift `nframe * (1 - ov)` that is non-negative, and zero exactly when `ov = 1` or `nframe = 0` |
| Framing.GetStartWindow | script/run_mfcc.py:64-73 | the start offsets begin at 0, offset j is `int(shift * j)` with `shift * j <= N`, and the next multiple of the shift exceeds `N` |
| Framing.StartWindowCount | script/run_mfcc.py:64-73 | there are exactly `floor(N / shift) + 1` start offsets |
| Framing.StartWindowMonotone | script/run_mfcc.py:64-73 | the start offsets never decrease |
| Framing.StartWindowBounds | script/run_mfcc.py:64-73 | every start offset lies in [0, N] |
| Framing.OffsetIndexBound | script/run_mfcc.py:70 | the loop guard `shift * i <= N` holds exactly for `i <= floor(N / shift)` |
| Framing.OffsetIsTrunc | script/run_mfcc.py:71 | for a non-negative shift, the offset taken as a floor equals Python's `int()` of `shift * i`, which truncates toward zero |
| Framing.GetCombforWindow | script/run_mfcc.py:75-90 | the windows are `(s, s + nframe)` for the longest prefix of offsets whose window ends by the last offset; the first one that does not fit stops the scan |
| Framing.ScanWindow | script/run_mfcc.py:96-106 | the inner scan collects the part of the data inside the window, and appends nothing for empty data |
| Framing.GetWindowData | script/run_mfcc.py:92-107 | for non-empty data there is one clipped slice per window; for empty data there are none |
| Framing.ClipInside | script/run_mfcc.py:101-103 | a window inside the data clips to exactly `data[start..stop]` |
| Framing.FramesAreSlices | script/run_mfcc.py:116-118 | every frame produced is a full slice `data[s..s + nframe]` |
| Framing.FramesAreLongestPrefix | script/run_mfcc.py:116-118 | the frames are the longest fitting prefix of the offsets, and there are none when the data is shorter than a frame |
| Framing.SepFrame | script/run_mfcc.py:53-120 | the overlap is rejected iff it is outside [0, 1]; it diverges iff `ov = 1` or `nframe = 0`; otherwise it succeeds with the longest fitting prefix of full-length slices at offsets `int(shift * j)`, and with no frame when the data is shorter than a frame |
| FrameCount.FittingPrefixWholeShift | script/run_mfcc.py:56 | when `N >= nframe` and a whole shift h divides `nframe = m * h`, the longest fitting prefix has `N / h - m + 1` frames |
| FrameCount.DocstringFormulaWholeShift | script/run_mfcc.py:56 | under the same conditions (`N >= nframe`, whole shift h dividing `nframe = m * h`) the docstring formula also evaluates to `N / h - m + 1` |
| FrameCount.DocstringCountWhenShiftDividesFrame | script/run_mfcc.py:53-120 | when the data holds at least one frame and the shift is a whole number dividing the frame length, SepFrame returns exactly the docstring's number of frames |
| FrameCount.DocstringCountShortData | script/run_mfcc.py:53-120 | for data shorter than a frame, SepFrame returns no frame while the docstring formula gives at most 0 |
| FrameCount.DocstringExample | script/run_mfcc.py:53-56 | 1000 samples with the default frame 256 and overlap 0.75 give 12 frames |
| FrameCount.DocstringCountCounterexample | script/run_mfcc.py:56 | 4 samples, frame 4, overlap 0.25: SepFrame returns no frame while the docstring formula gives 1 |
| Features.Concat | script/run_mfcc.py:32-34 | the folded feature's length is the sum of the argument lengths |
| Features.ConcatPlacement | script/run_mfcc.py:33-34 | argument a occupies the slice that starts at the total length of the arguments before it |
| Features.ConcatAppend | script/run_mfcc.py:33-34 | folding two argument lists in a row is concatenating their results |
| Features.TransformMLFormat | script/run_mfcc.py:28-37 | the label is kept, the feature's length is the sum of the argument lengths, and each argument appears unchanged at its place in argument order |
| Features.TransformTwo | script/run_mfcc.py:145 | with two arguments the feature is `mfcc + delta` |
| Features.ChoiceFeature | script/run_mfcc.py:138-155 | an unknown mode fails; each known mode yields the label with exactly its vectors joined; the MFCC's failure is reported before the delta's |
| Features.ChoiceFeatureCombines | script/run_mfcc.py:142-151 | the combined mode's feature is the MFCC mode's feature followed by the delta mode's |
| PreEmphasis.LFilterFir | script/mfcc/mfcc.py:46 | `lfilter(b, 1, x)` keeps the length, and sample n is the numerator taps applied to the input history with zero initial state. This is a reference definition; `PreEmphasis.TwoTapFilter` and the two de-emphasis round trips give it meaning |
| PreEmphasis.TwoTapFilter | script/mfcc/mfcc.py:44-46 | with numerator `[1, -p]` the first sample passes through and sample k is `x[k] - p * x[k-1]` |
| PreEmphasis.PreEmphasisFilter | script/mfcc/mfcc.py:38-49 | the output has the input's length, its first sample passes through, and each later sample is `x[k] - p * x[k-1]` |
| PreEmphasis.PreEmphasisCausal | script/mfcc/mfcc.py:38-49 | filtering a prefix gives the prefix of the filtered signal |
| PreEmphasis.DeEmphasisUndoesPreEmphasis | script/mfcc/mfcc.py:38-49 | the IIR inverse `d[k] = y[k] + p * d[k-1]` recovers the input from the pre-emphasised signal |
| PreEmphasis.PreEmphasisUndoesDeEmphasis | script/mfcc/mfcc.py:38-49 | pre-emphasis of the de-emphasised signal gives the signal back, so the filter is a bijection for every p |
| MelFilterBank.StartBins | script/mfcc/mfcc.py:87 | the start bins are 0 followed by every centre but the last |
| MelFilterBank.StopBins | script/mfcc/mfcc.py:90 | the stop bins are every centre but the first, followed by nmax |
| MelFilterBank.BinsOrdered | script/mfcc/mfcc.py:87-90 | for in-range centres, `0 <= start[c] <= center[c] <= stop[c] <= nmax` |
| MelFilterBank.TriangleRow | script/mfcc/mfcc.py:92-101 | a row has nmax entries and entry i is the triangle weight at bin i. This is a reference definition; `MelFilterBank.TriangleCorners`, `MelFilterBank.TriangleBounded` and `MelFilterBank.TriangleSupport` give it meaning |
| MelFilterBank.FilterBank | script/mfcc/mfcc.py:84-101 | the bank builds iff no ramp has zero width, otherwise it fails with a division by zero; row c is the triangle over `(start[c], center[c], stop[c])`. This is the reference bank; `MelFilterBank.BuildFilterBank` proves the source's loops equal to it, and `MelFilterBank.FilterBankSucceedsIff` characterises when it builds |
| MelFilterBank.FilterBankSucceedsIff | script/mfcc/mfcc.py:95-99 | the bank builds iff the centres are strictly increasing, the first is above 0 and the last is below nmax |
| MelFilterBank.FillRow | script/mfcc/mfcc.py:93-101 | the two ramp loops succeed iff both ramps have positive width, and then fill exactly the triangle row |
| MelFilterBank.RisingRamp | script/mfcc/mfcc.py:95-97 | the rising loop leaves the row holding the triangle on `[start, center)` and zeros elsewhere |
| MelFilterBank.FallingRamp | script/mfcc/mfcc.py:99-101 | the falling loop extends that to the whole triangle on `[start, stop)` with zeros elsewhere |
| MelFilterBank.FilterBankRowLengths | script/mfcc/mfcc.py:92 | every row of a built bank has nmax entries, as `np.zeros((numChannels, nmax))` allocates |
| MelFilterBank.RisingSample | script/mfcc/mfcc.py:95-97 | `(i - start) * increment` is the rising triangle weight |
| MelFilterBank.FallingSample | script/mfcc/mfcc.py:99-101 | `1 - (i - center) * decrement` is the falling triangle weight |
| MelFilterBank.BuildFilterBank | script/mfcc/mfcc.py:92-103 | the loop over the channels returns exactly FilterBank's outcome: the same rows, or the same failure |
| MelFilterBank.TriangleCorners | script/mfcc/mfcc.py:96-101 | each triangle is 0 at its start bin and 1 at its centre bin |
| MelFilterBank.TriangleBounded | script/mfcc/mfcc.py:96-101 | every triangle weight lies in [0, 1] |
| MelFilterBank.TriangleSupport | script/mfcc/mfcc.py:92-101 | a triangle is 0 outside [start, stop) |
| MelFilterBank.AdjacentFiltersSumToOne | script/mfcc/mfcc.py:87-101 | between two neighbouring centres, the falling ramp of one filter and the rising ramp of the next add to 1 |
| Cepstrum.Project | script/mfcc/mfcc.py:181 | `np.dot(fft_data, filterbank.T)` has one energy per filter, the inner product of the spectrum with that row. This is a reference definition; `Cepstrum.ProjectNonNegative` gives it meaning |
| Cepstrum.ProjectNonNegative | script/mfcc/mfcc.py:181 | a non-negative spectrum and bank give non-negative energies |
| Cepstrum.FilterBankNonNegative | script/mfcc/mfcc.py:92-101 | every filterbank row is non-negative |
| Cepstrum.NonZeroIndices | script/mfcc/mfcc.py:163 | the comprehension lists exactly the positions of the non-zero entries, in increasing order |
| Cepstrum.GetMean | script/mfcc/mfcc.py:155-156 | the mean fails with a division by zero iff the list is empty, and is otherwise sum over length. This is a reference definition; `Cepstrum.MeanBounds` and `Cepstrum.RepairFacts` give it meaning |
| Cepstrum.AssignMeanToZero | script/mfcc/mfcc.py:158-167 | the repair fails iff every entry is zero; otherwise it keeps the non-zero entries and writes the mean of the non-zero positions into every zero entry |
| Cepstrum.MeanBounds | script/mfcc/mfcc.py:164 | the written mean lies in [0, length - 1] |
| Cepstrum.NoZerosUnchanged | script/mfcc/mfcc.py:162-167 | a non-empty array with no zero entry is returned unchanged |
| Cepstrum.AssignMeanToZeroIdempotent | script/mfcc/mfcc.py:158-167 | repairing a repaired array changes nothing |
| Cepstrum.IndexMeanPositive | script/mfcc/mfcc.py:163-164 | the written mean is positive iff some non-zero entry sits at a position of at least 1 |
| Cepstrum.RepairedPositiveIff | script/mfcc/mfcc.py:158-167 | for non-negative energies, the repaired array is positive everywhere iff either there was no zero or some position of at least 1 is non-zero |
| Cepstrum.Log10All | script/mfcc/mfcc.py:183 | `np.log10` fails iff some entry is at most 0, and otherwise maps log10 over the entries. This is a reference definition; `Cepstrum.LogStepSucceedsIff` gives it meaning |
| Cepstrum.LogStepSucceedsIff | script/mfcc/mfcc.py:182-183 | log10 of the repaired energies succeeds iff there was no zero or some position of at least 1 is non-zero |
| Cepstrum.KeepCoefficients | script/mfcc/mfcc.py:185 | the slice keeps coefficients 1 .. cutpoint, clamped to what exists, in order |
| Cepstrum.KeepCoefficientsCount | script/mfcc/mfcc.py:185 | with more coefficients than the cutpoint, exactly cutpoint are kept |
| Cepstrum.DefaultCoefficientsKept | script/mfcc/mfcc.py:20 | with the default 20 channels and cutpoint 12, exactly coefficients 1 .. 12 are kept |
| Cepstrum.CepstrumFromSpectrum | script/mfcc/mfcc.py:180-185 | a bank that cannot be built makes the pipeline fail with a division by zero; a success holds at most cutpoint coefficients for any `dct`, and exactly cutpoint by `Cepstrum.CepstrumFromSpectrumLength` |
| Cepstrum.CepstrumFromEnergies | script/mfcc/mfcc.py:182-185 | after the projection the only failures are get_mean's division by zero and log10 of a non-positive energy; a success holds at most cutpoint coefficients for any `dct`, and exactly cutpoint by `Cepstrum.CepstrumFromEnergiesLength` |
| Cepstrum.CepstrumFromEnergiesLength | script/mfcc/mfcc.py:182-185 | when the DCT preserves length and there are more energies than the cutpoint, a success holds exactly cutpoint coefficients |
| Cepstrum.CepstrumFromSpectrumLength | script/mfcc/mfcc.py:180-185 | when the DCT preserves length and there are more filterbank channels than the cutpoint, a successful mfcc() holds exactly cutpoint coefficients, the length `ceps[1:cutpoint+1]` promises |
| Cepstrum.MeanStepFailsIff | script/mfcc/mfcc.py:181-182 | once the bank is built, the pipeline fails in get_mean iff every filter energy is zero |
| Cepstrum.SilentFrameFails | script/mfcc/mfcc.py:181-182 | an all-zero spectrum makes get_mean divide by zero |
| Delta.Column | script/mfcc/mfcc.py:218-219 | coefficient i of every frame, in frame order. This is a reference definition; `Delta.DeltaIsLeastSquares` gives it meaning |
| Delta.SumSquaresPositive | script/mfcc/mfcc.py:220-221 | the divisor `sum k**2` is positive iff there are at least two frames |
| Delta.SumSquaresClosedForm | script/mfcc/mfcc.py:220 | `6 * sum k**2 = (n-1) n (2n-1)` over frames 0 .. n-1 |
| Delta.DeltaFrom | script/mfcc/mfcc.py:215-222 | the outer loop from coefficient i on yields `cutpoint - i` values, each being cov / k_std for its coefficient |
| Delta.DeltaFromSucceeds | script/mfcc/mfcc.py:215-222 | with at least two frames, the loop succeeds iff every frame holds every remaining coefficient, and otherwise fails with an index error |
| Delta.DeltaCepstrum | script/mfcc/mfcc.py:210-223 | a zero cutpoint gives an empty list; no frames give a division by zero; one frame gives an index error if that frame is empty, and a division by zero otherwise; with two or more frames it succeeds iff every frame has cutpoint coefficients, each value being `sum k * c_k[i] / sum k**2` |
| Delta.WeightedSumIgnoresFirst | script/mfcc/mfcc.py:219 | frame 0 has weight 0 in cov |
| Delta.DeltaIgnoresFirstFrame | script/mfcc/mfcc.py:210-223 | replacing the first frame by another of the same length leaves the delta cepstrum unchanged |
| Delta.WeightedSumOfLine | script/mfcc/mfcc.py:219 | cov of a column lying on the line `a * k` is `a * sum k**2` |
| Delta.SlopeOfLine | script/mfcc/mfcc.py:221 | cov / k_std of such a column is exactly a |
| Delta.DeltaOfLine | script/mfcc/mfcc.py:210-223 | a coefficient that grows linearly with the frame index has its slope as its delta |
| Delta.SplitSquares | script/mfcc/mfcc.py:219-221 | the squared error of a fit `b * k` splits into energy, cross term and line energy |
| Delta.SquaredErrorExpanded | script/mfcc/mfcc.py:219-221 | the squared error of the fit `b * k` is the quadratic `E - 2 b cov + b**2 k_std` in b |
| Delta.QuadraticMinimum | script/mfcc/mfcc.py:221 | that quadratic is smallest at `b = cov / k_std` |
| Delta.ColumnLeastSquares | script/mfcc/mfcc.py:218-221 | cov / k_std minimises the squared error of the fit `b * k` over all b |
| Delta.DeltaIsLeastSquares | script/mfcc/mfcc.py:210-223 | each delta coefficient is the least-squares slope through the origin of that coefficient against the frame index |

## Left out

- The Hamming window, the FFT and the DCT-II are left out because they
  are floating-point transforms. `log10` and the DCT are parameters of
  `Cepstrum.CepstrumFromSpectrum`, and the spectrum is an input.
- The mel warp (`Hz2mel`, `mel2hz`) and `np.round` of the centre bins are
  left out. The filterbank takes the centre bins as integers that satisfy
  `MelFilterBank.CentersInRange`: they lie in [0, nmax] and never
  decrease, which is what the monotone warp guarantees. Rounding that
  makes neighbours equal is covered, and gives the division-by-zero
  failure.
- IEEE floating point is left out: rounding, overflow and `inf`/`nan`.
  All arithmetic is exact, so `int(shift * i)` is the floor of an exact
  product (`Framing.OffsetIsTrunc`). A warning that float rounding alone
  would raise is not modelled.
- `find_cutpoint` and `highpassfilter` are left out because `mfcc()` never
  calls them; their calls are commented out.
- `get_melfilterbank` is left out because it only plots.
- `WritePickle`, `ModifyFileStructure`, the data-reading code and the
  script's main flow are left out because they are file I/O.
- The wiring of `GetMFCC` and `DeltaCeps` is left out, for these reasons:
  - `numChannels` is overwritten with 20;
  - `fs` defaults to 2;
  - `GetMFCC` calls `MFCC(fo=fo)` and `DeltaCeps` calls
    `mfcc.DeltaCepstrum`, and neither name exists in `mfcc.py`.

  `Features.ChoiceFeature` therefore takes the outcomes of computing the
  MFCC vector and the delta cepstrum as inputs.
- `Cepstrum.CepstrumFromSpectrum` requires the spectrum to have nmax bins,
  which is what `np.dot`'s shape check demands; a shape error is not
  modelled.
- `Cepstrum.CepstrumFromSpectrum` states only the filterbank failure and
  the length bound for an arbitrary `dct`. Each other fact has its own
  member:
  - the exact length cutpoint, for a length-preserving DCT:
    `Cepstrum.CepstrumFromSpectrumLength`;
  - the failure of each later step: `Cepstrum.MeanStepFailsIff`,
    `Cepstrum.LogStepSucceedsIff` and `Cepstrum.Log10All`.
- `Delta.DeltaCepstrum` with a single frame: the model reports
  `FloatDivideByZero` for a non-empty frame. This is the NumPy scalar
  `0.0 / 0`, which the warnings filter turns into an error. Plain Python
  floats would raise `ZeroDivisionError` instead; the model does not
  distinguish the two.
- `PreEmphasis.DeEmphasis` is not in the source. It is the reference
  inverse filter that the pre-emphasis round trips are stated against.
- `Framing.SepFrame` reports the `sys.exit()` and the endless loop as
  failures (`InvalidOverlap`, `Diverges`) instead of exiting or hanging.
- `Framing.SepFrame` takes the frame length as a natural number. A
  negative `nframe` with `ov < 1` gives a negative shift, and
  `GetStartWindow` would then loop forever, as it does for shift 0. That
  case is not modelled, so "diverges iff `ov = 1` or `nframe = 0`" holds
  for non-negative frame lengths only.
