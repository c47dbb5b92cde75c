/**
  The frame segmenter: SepFrame cuts a signal into overlapping frames of
  `nframe` samples.  It generates start offsets int(shift * i) while
  shift * i does not pass the signal length, keeps the longest prefix of
  windows (s, s + nframe) that end no later than the last generated offset,
  and scans the signal once per window to collect its samples.
*/
module Framing {
  import opened Wrappers
  import opened Faults
  import opened Arith

  /** The half-open sample range [start, stop) of one frame. */
  datatype Window = Window(start: int, stop: int)

  /** The overlap check rejects exactly ov < 0 and ov > 1; both bounds are accepted. */
  predicate OverlapRejected(ov: real) {
    ov < 0.0 || ov > 1.0
  }

  /** Distance between consecutive frame starts, nframe * (1 - ov). */
  function Shift(nframe: nat, ov: real): real {
    nframe as real * (1.0 - ov)
  }

  /** An accepted overlap gives a non-negative shift, zero exactly when ov == 1 or nframe == 0. */
  lemma ShiftSign(nframe: nat, ov: real)
    requires !OverlapRejected(ov)
    ensures Shift(nframe, ov) >= 0.0
    ensures Shift(nframe, ov) == 0.0 <==> ov == 1.0 || nframe == 0
  {
  }

  /** Python's int() on a float: truncation toward zero. */
  function Trunc(x: real): int {
    if x >= 0.0 then x.Floor else -((-x).Floor)
  }

  /**
    The product shift * i, accumulated one shift at a time so that the
    solver's arithmetic stays linear; ShiftTimesIsProduct proves it equals
    the product.
  */
  function ShiftTimes(shift: real, i: nat): real {
    if i == 0 then 0.0 else ShiftTimes(shift, i - 1) + shift
  }

  lemma {:induction false} ShiftTimesIsProduct(shift: real, i: nat)
    ensures ShiftTimes(shift, i) == shift * i as real
  {
    if i > 0 {
      ShiftTimesIsProduct(shift, i - 1);
    }
  }

  /** With a non-negative shift the multiples never decrease. */
  lemma {:induction false} ShiftTimesMonotone(shift: real, i: nat, j: nat)
    requires shift >= 0.0 && i <= j
    ensures 0.0 <= ShiftTimes(shift, i) <= ShiftTimes(shift, j)
  {
    if i < j {
      ShiftTimesMonotone(shift, i, j - 1);
    } else if i > 0 {
      ShiftTimesMonotone(shift, i - 1, i - 1);
    }
  }

  /**
    The start offset of frame i, int(shift * i).  int() truncates toward
    zero; the product is never negative for an accepted overlap, and there
    truncation is the floor.
  */
  function Offset(shift: real, i: nat): int {
    ShiftTimes(shift, i).Floor
  }

  /** For a non-negative shift, the floor taken by Offset is Python's int() of the product. */
  lemma OffsetIsTrunc(shift: real, i: nat)
    requires shift >= 0.0
    ensures Offset(shift, i) == Trunc(shift * i as real)
  {
    ShiftTimesIsProduct(shift, i);
    ShiftTimesMonotone(shift, 0, i);
  }

  /** Offsets are non-negative and never decrease. */
  lemma OffsetMonotone(shift: real, i: nat, j: nat)
    requires shift >= 0.0 && i <= j
    ensures 0 <= Offset(shift, i) <= Offset(shift, j)
  {
    ShiftTimesMonotone(shift, i, j);
  }

  /** For a positive shift, shift * i <= n exactly when i <= floor(n / shift). */
  lemma OffsetIndexBound(shift: real, n: nat, i: nat)
    requires shift > 0.0
    ensures ShiftTimes(shift, i) <= n as real <==> i <= (n as real / shift).Floor
  {
    ShiftTimesIsProduct(shift, i);
    AtMostQuotient(i as real, n as real, shift);
  }

  /**
    The loop of GetStartWindow from index i on: append int(shift * i) and
    advance while shift * i <= n.  It stops at the first i past n.
  */
  function StartsFrom(shift: real, n: nat, i: nat): (r: seq<int>)
    requires shift > 0.0
    ensures forall j {:trigger r[j]} :: 0 <= j < |r| ==>
              r[j] == Offset(shift, i + j) && ShiftTimes(shift, i + j) <= n as real
    ensures ShiftTimes(shift, i + |r|) > n as real
    decreases (n as real / shift).Floor + 1 - i
  {
    OffsetIndexBound(shift, n, i);
    if ShiftTimes(shift, i) <= n as real then
      [Offset(shift, i)] + StartsFrom(shift, n, i + 1)
    else
      []
  }

  /**
    GetStartWindow: the start offsets int(shift * i) for every i with
    shift * i <= n, in order; the first is always 0.
  */
  function GetStartWindow(shift: real, n: nat): (r: seq<int>)
    requires shift > 0.0
    ensures 0 < |r| && r[0] == 0
    ensures forall j {:trigger r[j]} :: 0 <= j < |r| ==>
              r[j] == Offset(shift, j) && ShiftTimes(shift, j) <= n as real
    ensures ShiftTimes(shift, |r|) > n as real
  {
    StartsFrom(shift, n, 0)
  }

  /** The index of the last generated offset. */
  function LastIndex(shift: real, n: nat): nat
    requires shift > 0.0
  {
    |GetStartWindow(shift, n)| - 1
  }

  /** There are exactly floor(n / shift) + 1 offsets. */
  lemma StartWindowCount(shift: real, n: nat)
    requires shift > 0.0
    ensures |GetStartWindow(shift, n)| == (n as real / shift).Floor + 1
  {
    var r := GetStartWindow(shift, n);
    assert r[|r| - 1] == Offset(shift, |r| - 1);
    OffsetIndexBound(shift, n, |r| - 1);
    OffsetIndexBound(shift, n, |r|);
  }

  /** The offsets never decrease. */
  lemma StartWindowMonotone(shift: real, n: nat)
    requires shift > 0.0
    ensures forall i, j :: 0 <= i <= j < |GetStartWindow(shift, n)| ==>
              GetStartWindow(shift, n)[i] <= GetStartWindow(shift, n)[j]
  {
    var r := GetStartWindow(shift, n);
    forall i, j | 0 <= i <= j < |r|
      ensures r[i] <= r[j]
    {
      OffsetMonotone(shift, i, j);
    }
  }

  /** No offset is negative or passes the signal length. */
  lemma StartWindowBounds(shift: real, n: nat)
    requires shift > 0.0
    ensures forall j :: 0 <= j < |GetStartWindow(shift, n)| ==> 0 <= GetStartWindow(shift, n)[j] <= n
  {
    var r := GetStartWindow(shift, n);
    forall j | 0 <= j < |r|
      ensures 0 <= r[j] <= n
    {
      OffsetMonotone(shift, 0, j);
    }
  }

  /**
    The loop of GetCombforWindow: walk the offsets in order, emitting
    (s, s + nframe) while s + nframe <= last and stopping at the first
    offset that does not fit.
  */
  function CombsUpTo(starts: seq<int>, last: int, nframe: nat): (r: seq<Window>)
    ensures |r| <= |starts|
    ensures forall j :: 0 <= j < |r| ==>
              r[j] == Window(starts[j], starts[j] + nframe) && starts[j] + nframe <= last
    ensures |r| < |starts| ==> starts[|r|] + nframe > last
  {
    if |starts| == 0 || starts[0] + nframe > last then []
    else [Window(starts[0], starts[0] + nframe)] + CombsUpTo(starts[1..], last, nframe)
  }

  /** GetCombforWindow: the windows of the longest prefix of offsets that end by the last offset. */
  function GetCombforWindow(starts: seq<int>, nframe: nat): (r: seq<Window>)
    ensures |r| <= |starts|
    ensures forall j :: 0 <= j < |r| ==>
              r[j] == Window(starts[j], starts[j] + nframe) && starts[j] + nframe <= starts[|starts| - 1]
    ensures 0 < |starts| && |r| < |starts| ==> starts[|r|] + nframe > starts[|starts| - 1]
  {
    if |starts| == 0 then [] else CombsUpTo(starts, starts[|starts| - 1], nframe)
  }

  /** The samples of `data` whose index is at least i and lies in the window. */
  function Piece(data: seq<real>, w: Window, i: int): seq<real> {
    var lo := Max(Max(w.start, i), 0);
    var hi := Min(w.stop, |data|);
    if lo < hi then data[lo..hi] else []
  }

  /** The samples of `data` that lie in the window, clipped to the signal. */
  function Clip(data: seq<real>, w: Window): seq<real> {
    Piece(data, w, 0)
  }

  /**
    The inner loop of GetWindowData from index i on: collect data[i] when
    start <= i < stop, and stop (emitting the frame) once i >= stop or i is
    the last index.
  */
  function ScanFrom(data: seq<real>, w: Window, i: nat, acc: seq<real>): (r: Option<seq<real>>)
    requires i < |data|
    requires i == 0 || i <= w.stop
    ensures r == Some(acc + Piece(data, w, i))
    decreases |data| - i
  {
    var acc' := if w.start <= i < w.stop then acc + [data[i]] else acc;
    if i >= w.stop || i == |data| - 1 then
      PieceLast(data, w, i);
      assert acc + [] == acc;
      Some(acc')
    else
      PieceStep(data, w, i);
      assert acc + Piece(data, w, i) == acc' + Piece(data, w, i + 1);
      ScanFrom(data, w, i + 1, acc')
  }

  /** Inside the window, the piece from i is data[i] (when i is in it) followed by the piece from i + 1. */
  lemma PieceStep(data: seq<real>, w: Window, i: nat)
    requires i + 1 < |data| && i < w.stop
    ensures Piece(data, w, i) == (if w.start <= i then [data[i]] else []) + Piece(data, w, i + 1)
  {
    if w.start <= i {
      var hi := Min(w.stop, |data|);
      assert data[i..hi] == [data[i]] + data[i + 1..hi];
    }
  }

  /** Where the scan stops, the piece from i is at most data[i]. */
  lemma PieceLast(data: seq<real>, w: Window, i: nat)
    requires i < |data| && (i >= w.stop || i == |data| - 1)
    requires i == 0 || i <= w.stop
    ensures Piece(data, w, i) == if w.start <= i < w.stop then [data[i]] else []
  {
    if w.start <= i < w.stop {
      assert data[i..i + 1] == [data[i]];
    }
  }

  /** One window's frame; an empty signal yields no frame because the scan never runs. */
  function ScanWindow(data: seq<real>, w: Window): (r: Option<seq<real>>)
    ensures |data| == 0 ==> r == None
    ensures |data| > 0 ==> r == Some(Clip(data, w))
  {
    if |data| == 0 then None
    else
      assert [] + Clip(data, w) == Clip(data, w);
      ScanFrom(data, w, 0, [])
  }

  /** GetWindowData: one frame per window, in window order. */
  function GetWindowData(combs: seq<Window>, data: seq<real>): (r: seq<seq<real>>)
    ensures |data| == 0 ==> r == []
    ensures |data| > 0 ==> |r| == |combs| && forall j :: 0 <= j < |r| ==> r[j] == Clip(data, combs[j])
  {
    if |combs| == 0 then []
    else
      var rest := GetWindowData(combs[1..], data);
      match ScanWindow(data, combs[0])
      case Some(frame) => [frame] + rest
      case None => rest
  }

  /** A window inside the signal clips to exactly its slice. */
  lemma ClipInside(data: seq<real>, w: Window)
    requires 0 <= w.start <= w.stop <= |data|
    ensures Clip(data, w) == data[w.start..w.stop]
  {
  }

  /** Window j ends no later than the last generated offset. */
  predicate FitsBeforeLast(shift: real, n: nat, nframe: nat, j: nat)
    requires shift > 0.0
  {
    Offset(shift, j) + nframe <= Offset(shift, LastIndex(shift, n))
  }

  /** `count` frames are exactly the longest prefix of offsets whose windows fit before the last offset. */
  predicate LongestFittingPrefix(count: nat, shift: real, n: nat, nframe: nat)
    requires shift > 0.0
  {
    && count <= LastIndex(shift, n) + 1
    && (forall j :: 0 <= j < count ==> FitsBeforeLast(shift, n, nframe, j))
    && (count <= LastIndex(shift, n) ==> !FitsBeforeLast(shift, n, nframe, count))
  }

  /** The frames SepFrame returns once the overlap is accepted and the shift is positive. */
  function FramesFor(data: seq<real>, nframe: nat, shift: real): (r: seq<seq<real>>)
    requires shift > 0.0 && nframe > 0
    ensures LongestFittingPrefix(|r|, shift, |data|, nframe)
    ensures forall j :: 0 <= j < |r| ==>
              0 <= Offset(shift, j)
              && Offset(shift, j) + nframe <= |data|
              && r[j] == data[Offset(shift, j)..Offset(shift, j) + nframe]
    ensures |data| < nframe ==> r == []
  {
    FramesForShape(data, nframe, shift);
    GetWindowData(GetCombforWindow(GetStartWindow(shift, |data|), nframe), data)
  }

  /** The facts FramesFor promises, stated about its body. */
  lemma FramesForShape(data: seq<real>, nframe: nat, shift: real)
    requires shift > 0.0 && nframe > 0
    ensures var frames := GetWindowData(GetCombforWindow(GetStartWindow(shift, |data|), nframe), data);
            && LongestFittingPrefix(|frames|, shift, |data|, nframe)
            && (forall j :: 0 <= j < |frames| ==>
                  0 <= Offset(shift, j)
                  && Offset(shift, j) + nframe <= |data|
                  && frames[j] == data[Offset(shift, j)..Offset(shift, j) + nframe])
            && (|data| < nframe ==> frames == [])
  {
    var starts := GetStartWindow(shift, |data|);
    var frames := GetWindowData(GetCombforWindow(starts, nframe), data);
    StartWindowBounds(shift, |data|);
    FramesAreSlices(data, starts, nframe);
    FramesAreLongestPrefix(data, starts, nframe);
    SlicesAtOffsets(data, nframe, shift, starts, frames);
  }

  /** Restates the frame facts, given per generated offset, in terms of Offset itself. */
  lemma SlicesAtOffsets(data: seq<real>, nframe: nat, shift: real, starts: seq<int>, frames: seq<seq<real>>)
    requires shift > 0.0 && nframe > 0
    requires starts == GetStartWindow(shift, |data|)
    requires forall j :: 0 <= j < |starts| ==> 0 <= starts[j] <= |data|
    requires |frames| <= |starts|
    requires forall j :: 0 <= j < |frames| ==>
               starts[j] + nframe <= |data| && frames[j] == data[starts[j]..starts[j] + nframe]
    requires forall j :: 0 <= j < |frames| ==> starts[j] + nframe <= starts[|starts| - 1]
    requires |frames| < |starts| ==> starts[|frames|] + nframe > starts[|starts| - 1]
    ensures LongestFittingPrefix(|frames|, shift, |data|, nframe)
    ensures forall j :: 0 <= j < |frames| ==>
              0 <= Offset(shift, j)
              && Offset(shift, j) + nframe <= |data|
              && frames[j] == data[Offset(shift, j)..Offset(shift, j) + nframe]
  {
    var k := LastIndex(shift, |data|);
    assert starts[k] == Offset(shift, k);
    forall j | 0 <= j < |frames|
      ensures 0 <= Offset(shift, j) && Offset(shift, j) + nframe <= |data|
      ensures frames[j] == data[Offset(shift, j)..Offset(shift, j) + nframe]
      ensures FitsBeforeLast(shift, |data|, nframe, j)
    {
      assert starts[j] == Offset(shift, j);
    }
    if |frames| <= k {
      assert starts[|frames|] == Offset(shift, |frames|);
    }
  }

  /** SepFrame: validate the overlap, then generate offsets, windows and frames. */
  function SepFrame(data: seq<real>, nframe: nat, ov: real): (r: Result<seq<seq<real>>, Fault>)
    ensures OverlapRejected(ov) ==> r == Failure(InvalidOverlap)
    ensures r == Failure(Diverges) <==> !OverlapRejected(ov) && (ov == 1.0 || nframe == 0)
    ensures !OverlapRejected(ov) && ov < 1.0 && nframe > 0 ==> r.Success?
    ensures r.Success? ==> Shift(nframe, ov) > 0.0
                           && LongestFittingPrefix(|r.value|, Shift(nframe, ov), |data|, nframe)
    ensures r.Success? ==> forall j :: 0 <= j < |r.value| ==>
              0 <= Offset(Shift(nframe, ov), j)
              && Offset(Shift(nframe, ov), j) + nframe <= |data|
              && r.value[j] == data[Offset(Shift(nframe, ov), j)..Offset(Shift(nframe, ov), j) + nframe]
    ensures r.Success? ==> forall j :: 0 <= j < |r.value| ==> |r.value[j]| == nframe
    ensures r.Success? && |data| < nframe ==> r.value == []
  {
    if OverlapRejected(ov) then Failure(InvalidOverlap)
    else
      ShiftSign(nframe, ov);
      if Shift(nframe, ov) == 0.0 then Failure(Diverges)
      else Success(FramesFor(data, nframe, Shift(nframe, ov)))
  }

  /** Every kept window lies inside the signal, so its frame is the plain slice. */
  lemma FramesAreSlices(data: seq<real>, starts: seq<int>, nframe: nat)
    requires 0 < |starts|
    requires forall j :: 0 <= j < |starts| ==> 0 <= starts[j] <= |data|
    ensures var frames := GetWindowData(GetCombforWindow(starts, nframe), data);
            forall j :: 0 <= j < |frames| ==>
              starts[j] + nframe <= |data| && frames[j] == data[starts[j]..starts[j] + nframe]
  {
    var combs := GetCombforWindow(starts, nframe);
    var frames := GetWindowData(combs, data);
    if |data| > 0 {
      SlicesFromWindows(data, starts, nframe, combs, frames);
    }
  }

  /** Frames clipped from windows that end by the last offset are full slices. */
  lemma SlicesFromWindows(data: seq<real>, starts: seq<int>, nframe: nat, combs: seq<Window>, frames: seq<seq<real>>)
    requires 0 < |starts| && starts[|starts| - 1] <= |data|
    requires forall j :: 0 <= j < |starts| ==> 0 <= starts[j]
    requires |frames| == |combs| <= |starts|
    requires forall j :: 0 <= j < |combs| ==>
               combs[j] == Window(starts[j], starts[j] + nframe) && starts[j] + nframe <= starts[|starts| - 1]
    requires forall j :: 0 <= j < |frames| ==> frames[j] == Clip(data, combs[j])
    ensures forall j :: 0 <= j < |frames| ==>
              starts[j] + nframe <= |data| && frames[j] == data[starts[j]..starts[j] + nframe]
  {
    forall j | 0 <= j < |frames|
      ensures starts[j] + nframe <= |data| && frames[j] == data[starts[j]..starts[j] + nframe]
    {
      FrameIsSlice(data, starts[j], starts[|starts| - 1], nframe, combs[j], frames[j]);
    }
  }

  /** A window that starts at s >= 0 and ends by an offset inside the data clips to a full slice. */
  lemma FrameIsSlice(data: seq<real>, s: int, last: int, nframe: nat, w: Window, frame: seq<real>)
    requires 0 <= s && last <= |data|
    requires w == Window(s, s + nframe) && w.stop <= last
    requires frame == Clip(data, w)
    ensures s + nframe <= |data| && frame == data[s..s + nframe]
  {
    ClipInside(data, w);
  }

  /**
    The frames are the longest prefix of offsets whose windows end by the
    last offset; a signal shorter than one frame yields none.
  */
  lemma FramesAreLongestPrefix(data: seq<real>, starts: seq<int>, nframe: nat)
    requires 0 < |starts| && nframe > 0
    requires forall j :: 0 <= j < |starts| ==> 0 <= starts[j] <= |data|
    ensures var frames := GetWindowData(GetCombforWindow(starts, nframe), data);
            && |frames| <= |starts|
            && (forall j :: 0 <= j < |frames| ==> starts[j] + nframe <= starts[|starts| - 1])
            && (|frames| < |starts| ==> starts[|frames|] + nframe > starts[|starts| - 1])
            && (|data| < nframe ==> frames == [])
  {
    var combs := GetCombforWindow(starts, nframe);
    if |data| == 0 {
      assert starts[0] == starts[|starts| - 1];
    }
  }
}
