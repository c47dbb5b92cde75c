/**
  The triangular part of melFilterBank: once the centre frequency bins are
  known as integers, each filter c rises linearly from its start bin to its
  centre bin and falls linearly to its stop bin, where the start bin is the
  previous filter's centre (0 for the first) and the stop bin is the next
  filter's centre (nmax for the last).
*/
module MelFilterBank {
  import opened Wrappers
  import opened Faults

  /**
    What the mel spacing guarantees of the centre bins: they lie in
    [0, nmax] and never decrease (rounding may make neighbours equal).
  */
  predicate CentersInRange(centers: seq<int>, nmax: nat)
  {
    && (forall c :: 0 <= c < |centers| ==> 0 <= centers[c] <= nmax)
    && (forall c, d :: 0 <= c < d < |centers| ==> centers[c] <= centers[d])
  }

  /** Every centre up to the last is strictly below the next one. */
  predicate StrictlyIncreasing(centers: seq<int>)
  {
    forall c :: 0 < c < |centers| ==> centers[c - 1] < centers[c]
  }

  /** np.hstack(([0], indexcenter[0:numChannels - 1])): 0 followed by all centres but the last. */
  function StartBins(centers: seq<int>): (r: seq<int>)
    ensures |r| == if |centers| == 0 then 1 else |centers|
    ensures r[0] == 0
    ensures forall c :: 1 <= c < |centers| ==> r[c] == centers[c - 1]
  {
    [0] + (if |centers| == 0 then [] else centers[..|centers| - 1])
  }

  /** np.hstack((indexcenter[1:numChannels], [nmax])): all centres but the first, then nmax. */
  function StopBins(centers: seq<int>, nmax: nat): (r: seq<int>)
    ensures |r| == if |centers| == 0 then 1 else |centers|
    ensures r[|r| - 1] == nmax
    ensures forall c :: 0 <= c < |centers| - 1 ==> r[c] == centers[c + 1]
  {
    (if |centers| == 0 then [] else centers[1..]) + [nmax]
  }

  /**
    The value of a triangle with corners start, center, stop at bin i:
    rising on [start, center), falling on [center, stop), zero elsewhere.
  */
  function Weight(start: int, center: int, stop: int, i: int): real
  {
    if start <= i < center then (i - start) as real / (center - start) as real
    else if center <= i < stop then 1.0 - (i - center) as real / (stop - center) as real
    else 0.0
  }

  /** One row of the filterbank: the triangle sampled at bins 0 .. nmax - 1. */
  function TriangleRow(start: int, center: int, stop: int, nmax: nat): (r: seq<real>)
    ensures |r| == nmax
    ensures forall i :: 0 <= i < nmax ==> r[i] == Weight(start, center, stop, i)
  {
    seq(nmax, i requires 0 <= i < nmax => Weight(start, center, stop, i))
  }

  /** Both ramps of filter c have positive width, so neither slope divides by zero. */
  predicate RampsNonDegenerate(centers: seq<int>, nmax: nat, c: int)
    requires 0 <= c < |centers|
  {
    StartBins(centers)[c] < centers[c] < StopBins(centers, nmax)[c]
  }

  /** Each filter's start, centre and stop bins are ordered and lie in [0, nmax]. */
  lemma BinsOrdered(centers: seq<int>, nmax: nat, c: int)
    requires CentersInRange(centers, nmax) && 0 <= c < |centers|
    ensures 0 <= StartBins(centers)[c] <= centers[c] <= StopBins(centers, nmax)[c] <= nmax
  {
    if c > 0 {
      assert StartBins(centers)[c] == centers[c - 1];
    }
    if c + 1 < |centers| {
      assert StopBins(centers, nmax)[c] == centers[c + 1];
    }
  }

  /** RampsNonDegenerate read off precomputed start and stop bins. */
  lemma RampsFromBins(centers: seq<int>, nmax: nat, c: int, starts: seq<int>, stops: seq<int>)
    requires 0 <= c < |centers|
    requires starts == StartBins(centers) && stops == StopBins(centers, nmax)
    ensures RampsNonDegenerate(centers, nmax, c) <==> starts[c] < centers[c] < stops[c]
  {
  }

  /** Every filter's ramps have positive width. */
  predicate AllRampsNonDegenerate(centers: seq<int>, nmax: nat)
  {
    forall c :: 0 <= c < |centers| ==> RampsNonDegenerate(centers, nmax, c)
  }

  /**
    melFilterBank's rows, lines 84-101. A ramp of zero width makes
    1.0 / 0 a NumPy division warning, which the module turns into an error.
  */
  function FilterBank(centers: seq<int>, nmax: nat): (r: Result<seq<seq<real>>, Fault>)
    requires CentersInRange(centers, nmax)
    ensures r.Success? <==> AllRampsNonDegenerate(centers, nmax)
    ensures r.Failure? ==> r.error == FloatDivideByZero
    ensures r.Success? ==> |r.value| == |centers|
    ensures r.Success? ==> forall c :: 0 <= c < |centers| ==>
              r.value[c] == TriangleRow(StartBins(centers)[c], centers[c], StopBins(centers, nmax)[c], nmax)
  {
    if !AllRampsNonDegenerate(centers, nmax) then Failure(FloatDivideByZero)
    else
      var starts, stops := StartBins(centers), StopBins(centers, nmax);
      Success(seq(|centers|, c requires 0 <= c < |centers| => TriangleRow(starts[c], centers[c], stops[c], nmax)))
  }

  /** Every row of a built bank has one weight per frequency bin. */
  lemma FilterBankRowLengths(centers: seq<int>, nmax: nat)
    requires CentersInRange(centers, nmax) && FilterBank(centers, nmax).Success?
    ensures forall c :: 0 <= c < |FilterBank(centers, nmax).value| ==> |FilterBank(centers, nmax).value[c]| == nmax
  {
  }

  /**
    With centres in range, the bank builds exactly when the centres are
    strictly increasing, the first is above 0 and the last below nmax.
  */
  lemma FilterBankSucceedsIff(centers: seq<int>, nmax: nat)
    requires CentersInRange(centers, nmax)
    ensures FilterBank(centers, nmax).Success? <==>
              |centers| == 0
              || (0 < centers[0] && StrictlyIncreasing(centers) && centers[|centers| - 1] < nmax)
  {
    if |centers| > 0 && AllRampsNonDegenerate(centers, nmax) {
      NonDegenerateShape(centers, nmax);
    }
    if |centers| > 0 && 0 < centers[0] && StrictlyIncreasing(centers) && centers[|centers| - 1] < nmax {
      ShapeNonDegenerate(centers, nmax);
    }
  }

  /** Non-degenerate ramps force a first centre above 0, strict increase and a last centre below nmax. */
  lemma NonDegenerateShape(centers: seq<int>, nmax: nat)
    requires AllRampsNonDegenerate(centers, nmax) && |centers| > 0
    ensures 0 < centers[0] && StrictlyIncreasing(centers) && centers[|centers| - 1] < nmax
  {
    var n := |centers|;
    assert RampsNonDegenerate(centers, nmax, 0);
    assert RampsNonDegenerate(centers, nmax, n - 1);
    forall c | 0 < c < n
      ensures centers[c - 1] < centers[c]
    {
      assert RampsNonDegenerate(centers, nmax, c);
    }
  }

  /** The converse: such centres give every filter ramps of positive width. */
  lemma ShapeNonDegenerate(centers: seq<int>, nmax: nat)
    requires |centers| > 0 && 0 < centers[0] && StrictlyIncreasing(centers) && centers[|centers| - 1] < nmax
    ensures AllRampsNonDegenerate(centers, nmax)
  {
    var n := |centers|;
    forall c | 0 <= c < n
      ensures RampsNonDegenerate(centers, nmax, c)
    {
      if c + 1 < n {
        assert centers[c] < centers[c + 1];
      }
      if c > 0 {
        assert centers[c - 1] < centers[c];
      }
    }
  }

  /** The triangle is 0 at its start bin and 1 at its centre bin. */
  lemma TriangleCorners(start: int, center: int, stop: int)
    requires start < center < stop
    ensures Weight(start, center, stop, start) == 0.0
    ensures Weight(start, center, stop, center) == 1.0
  {
  }

  /** Every value of a non-degenerate triangle lies in [0, 1]. */
  lemma TriangleBounded(start: int, center: int, stop: int, i: int)
    requires start < center < stop
    ensures 0.0 <= Weight(start, center, stop, i) <= 1.0
  {
    if start <= i < center {
      RatioBounded(i - start, center - start);
    } else if center <= i < stop {
      RatioBounded(i - center, stop - center);
    }
  }

  /** 0 <= a / b < 1 for 0 <= a < b. */
  lemma RatioBounded(a: int, b: int)
    requires 0 <= a < b
    ensures 0.0 <= a as real / b as real < 1.0
  {
    var q := a as real / b as real;
    assert q * b as real == a as real;
  }

  /** The triangle vanishes outside [start, stop). */
  lemma TriangleSupport(start: int, center: int, stop: int, i: int)
    requires i < start || stop <= i
    requires start <= center <= stop
    ensures Weight(start, center, stop, i) == 0.0
  {
  }

  /**
    Partition of unity between neighbours: on [centers[c], centers[c + 1])
    the falling ramp of filter c and the rising ramp of filter c + 1 add to 1.
  */
  lemma AdjacentFiltersSumToOne(centers: seq<int>, nmax: nat, c: nat, i: int)
    requires CentersInRange(centers, nmax)
    requires c + 1 < |centers| && centers[c] <= i < centers[c + 1]
    ensures var starts, stops := StartBins(centers), StopBins(centers, nmax);
            Weight(starts[c], centers[c], stops[c], i)
            + Weight(starts[c + 1], centers[c + 1], stops[c + 1], i) == 1.0
  {
    var lo, hi := centers[c], centers[c + 1];
    assert StartBins(centers)[c + 1] == lo;
    assert StopBins(centers, nmax)[c] == hi;
    assert StartBins(centers)[c] <= lo by {
      if c > 0 {
        assert StartBins(centers)[c] == centers[c - 1];
      }
    }
    var t := (i - lo) as real / (hi - lo) as real;
    assert Weight(StartBins(centers)[c], lo, hi, i) == 1.0 - t;
    assert Weight(lo, hi, StopBins(centers, nmax)[c + 1], i) == t;
  }

  /**
    The two loops of melFilterBank for one filter: the row starts as zeros,
    the rising loop writes (i - start) * increment on [start, center) and
    the falling loop writes 1 - (i - center) * decrement on [center, stop).
    A zero-width ramp fails where the source divides 1.0 by zero.
  */
  method FillRow(start: int, center: int, stop: int, nmax: nat) returns (r: Result<seq<real>, Fault>)
    requires 0 <= start <= center <= stop <= nmax
    ensures r.Success? <==> start < center < stop
    ensures r.Failure? ==> r.error == FloatDivideByZero
    ensures r.Success? ==> r.value == TriangleRow(start, center, stop, nmax)
  {
    var row := seq(nmax, _ => 0.0);
    if center - start == 0 {
      return Failure(FloatDivideByZero);
    }
    assert FilledUpTo(row, start, center, stop, start);
    row := RisingRamp(row, start, center, stop);
    if stop - center == 0 {
      return Failure(FloatDivideByZero);
    }
    row := FallingRamp(row, start, center, stop);
    RowIsTriangle(row, start, center, stop, nmax);
    return Success(row);
  }

  /** The rising loop: increment = 1 / (center - start), then bin i gets (i - start) * increment. */
  method RisingRamp(row: seq<real>, start: int, center: int, stop: int) returns (out: seq<real>)
    requires 0 <= start < center <= |row| && FilledUpTo(row, start, center, stop, start)
    ensures |out| == |row| && FilledUpTo(out, start, center, stop, center)
  {
    var increment := 1.0 / (center - start) as real;
    out := row;
    var i := start;
    while i < center
      invariant start <= i <= center && |out| == |row|
      invariant FilledUpTo(out, start, center, stop, i)
    {
      RisingSample(start, center, stop, i);
      FillStep(out, start, center, stop, i, (i - start) as real * increment);
      out := out[i := (i - start) as real * increment];
      i := i + 1;
    }
  }

  /** The falling loop: decrement = 1 / (stop - center), then bin i gets 1 - (i - center) * decrement. */
  method FallingRamp(row: seq<real>, start: int, center: int, stop: int) returns (out: seq<real>)
    requires 0 <= start <= center < stop <= |row| && FilledUpTo(row, start, center, stop, center)
    ensures |out| == |row| && FilledUpTo(out, start, center, stop, stop)
  {
    var decrement := 1.0 / (stop - center) as real;
    out := row;
    var i := center;
    while i < stop
      invariant center <= i <= stop && |out| == |row|
      invariant FilledUpTo(out, start, center, stop, i)
    {
      FallingSample(start, center, stop, i);
      FillStep(out, start, center, stop, i, 1.0 - (i - center) as real * decrement);
      out := out[i := 1.0 - (i - center) as real * decrement];
      i := i + 1;
    }
  }

  /** The row holds the triangle on bins [start, i) and zeros elsewhere. */
  predicate FilledUpTo(row: seq<real>, start: int, center: int, stop: int, i: int)
  {
    forall j :: 0 <= j < |row| ==> row[j] == if start <= j < i then Weight(start, center, stop, j) else 0.0
  }

  /** Writing the triangle's value at bin i extends the filled part by one bin. */
  lemma FillStep(row: seq<real>, start: int, center: int, stop: int, i: int, v: real)
    requires 0 <= start <= i < |row| && FilledUpTo(row, start, center, stop, i)
    requires v == Weight(start, center, stop, i)
    ensures FilledUpTo(row[i := v], start, center, stop, i + 1)
  {
    var next := row[i := v];
    forall j | 0 <= j < |next|
      ensures next[j] == if start <= j < i + 1 then Weight(start, center, stop, j) else 0.0
    {
      if j != i {
        assert next[j] == row[j];
      }
    }
  }

  /** The rising loop's value (i - start) * (1 / (center - start)) is the triangle's. */
  lemma RisingSample(start: int, center: int, stop: int, i: int)
    requires start <= i < center
    ensures (i - start) as real * (1.0 / (center - start) as real) == Weight(start, center, stop, i)
  {
  }

  /** The falling loop's value 1 - (i - center) * (1 / (stop - center)) is the triangle's. */
  lemma FallingSample(start: int, center: int, stop: int, i: int)
    requires center <= i < stop
    ensures 1.0 - (i - center) as real * (1.0 / (stop - center) as real) == Weight(start, center, stop, i)
  {
  }

  /** A row that agrees with the triangle on [start, stop) and is zero elsewhere is TriangleRow. */
  lemma RowIsTriangle(row: seq<real>, start: int, center: int, stop: int, nmax: nat)
    requires start <= center <= stop && |row| == nmax
    requires FilledUpTo(row, start, center, stop, stop)
    ensures row == TriangleRow(start, center, stop, nmax)
  {
  }

  /** The outer loop of melFilterBank over the filters, built from FillRow. */
  method BuildFilterBank(centers: seq<int>, nmax: nat) returns (r: Result<seq<seq<real>>, Fault>)
    requires CentersInRange(centers, nmax)
    ensures r == FilterBank(centers, nmax)
  {
    var starts, stops := StartBins(centers), StopBins(centers, nmax);
    var rows: seq<seq<real>> := [];
    ghost var expected := seq(|centers|, d requires 0 <= d < |centers| => TriangleRow(starts[d], centers[d], stops[d], nmax));
    var c := 0;
    while c < |centers|
      invariant 0 <= c <= |centers|
      invariant |rows| == c
      invariant forall d :: 0 <= d < c ==> RampsNonDegenerate(centers, nmax, d)
      invariant rows == expected[..c]
    {
      BinsOrdered(centers, nmax, c);
      var row := FillRow(starts[c], centers[c], stops[c], nmax);
      if row.Failure? {
        RampsFromBins(centers, nmax, c, starts, stops);
        return Failure(row.error);
      }
      RampsFromBins(centers, nmax, c, starts, stops);
      PrefixSnoc(expected, c);
      rows := rows + [row.value];
      c := c + 1;
    }
    assert expected[..c] == expected;
    return Success(rows);
  }

  /** Extending a prefix by one element. */
  lemma PrefixSnoc<T>(s: seq<T>, c: nat)
    requires c < |s|
    ensures s[..c + 1] == s[..c] + [s[c]]
  {
  }
}
