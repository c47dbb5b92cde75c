/**
  Feature assembly: TransformMLFormat joins feature vectors into one
  labelled record, and ChoiceFeature picks which vectors to join according
  to a mode string.
*/
module Features {
  import opened Wrappers
  import opened Faults

  /** The `[count_label, feature]` pair that is pickled for the learner. */
  datatype MLRecord<L> = MLRecord(countLabel: L, feature: seq<real>)

  /** Sum of the lengths of the parts, counted from the front. */
  function TotalLength(parts: seq<seq<real>>): nat
  {
    if |parts| == 0 then 0 else |parts[0]| + TotalLength(parts[1..])
  }

  /** Appending one part adds its length. */
  lemma {:induction false} TotalLengthSnoc(parts: seq<seq<real>>, p: seq<real>)
    ensures TotalLength(parts + [p]) == TotalLength(parts) + |p|
    decreases |parts|
  {
    if |parts| > 0 {
      assert (parts + [p])[1..] == parts[1..] + [p];
      TotalLengthSnoc(parts[1..], p);
    }
  }

  /** A prefix of the parts is never longer than the whole. */
  lemma {:induction false} TotalLengthPrefix(parts: seq<seq<real>>, k: nat)
    requires k <= |parts|
    ensures TotalLength(parts[..k]) <= TotalLength(parts)
    decreases |parts| - k
  {
    if k < |parts| {
      assert parts[..k + 1] == parts[..k] + [parts[k]];
      TotalLengthSnoc(parts[..k], parts[k]);
      TotalLengthPrefix(parts, k + 1);
    } else {
      assert parts[..k] == parts;
    }
  }

  /**
    The loop `feature = feature + list(arg)` over the arguments: a left fold
    that appends each part in turn.
  */
  function Concat(parts: seq<seq<real>>): (r: seq<real>)
    ensures |r| == TotalLength(parts)
  {
    if |parts| == 0 then []
    else
      var init, last := parts[..|parts| - 1], parts[|parts| - 1];
      assert parts == init + [last];
      TotalLengthSnoc(init, last);
      Concat(init) + last
  }

  /** Part a occupies the slice of the concatenation that starts at TotalLength(parts[..a]). */
  lemma {:induction false} ConcatPlacement(parts: seq<seq<real>>, a: nat)
    requires a < |parts|
    ensures TotalLength(parts[..a]) + |parts[a]| <= |Concat(parts)|
    ensures Concat(parts)[TotalLength(parts[..a])..TotalLength(parts[..a]) + |parts[a]|] == parts[a]
    decreases |parts|
  {
    var n := |parts| - 1;
    var init := parts[..n];
    assert parts == init + [parts[n]];
    var lo := TotalLength(parts[..a]);
    if a < n {
      assert parts[..a] == init[..a];
      ConcatPlacement(init, a);
      assert Concat(parts)[lo..lo + |parts[a]|] == Concat(init)[lo..lo + |parts[a]|];
    } else {
      assert parts[..a] == init;
    }
  }

  /** ConcatPlacement for every part at once. */
  lemma ConcatPlacementAll(parts: seq<seq<real>>)
    ensures forall a :: 0 <= a < |parts| ==>
              TotalLength(parts[..a]) + |parts[a]| <= |Concat(parts)|
              && Concat(parts)[TotalLength(parts[..a])..TotalLength(parts[..a]) + |parts[a]|] == parts[a]
  {
    forall a | 0 <= a < |parts|
      ensures TotalLength(parts[..a]) + |parts[a]| <= |Concat(parts)|
      ensures Concat(parts)[TotalLength(parts[..a])..TotalLength(parts[..a]) + |parts[a]|] == parts[a]
    {
      ConcatPlacement(parts, a);
    }
  }

  /** Concatenating two argument lists is concatenating their results. */
  lemma {:induction false} ConcatAppend(xs: seq<seq<real>>, ys: seq<seq<real>>)
    ensures Concat(xs + ys) == Concat(xs) + Concat(ys)
    decreases |ys|
  {
    if |ys| > 0 {
      var n := |ys| - 1;
      assert xs + ys == (xs + ys[..n]) + [ys[n]];
      assert (xs + ys)[..|xs + ys| - 1] == xs + ys[..n];
      ConcatAppend(xs, ys[..n]);
    } else {
      assert xs + ys == xs;
    }
  }

  /**
    TransformMLFormat(count_label, *args): the label together with the
    arguments laid end to end, in argument order.
  */
  function TransformMLFormat<L>(countLabel: L, args: seq<seq<real>>): (r: MLRecord<L>)
    ensures r.countLabel == countLabel
    ensures |r.feature| == TotalLength(args)
    ensures forall a :: 0 <= a < |args| ==>
              TotalLength(args[..a]) + |args[a]| <= |r.feature|
              && r.feature[TotalLength(args[..a])..TotalLength(args[..a]) + |args[a]|] == args[a]
  {
    ConcatPlacementAll(args);
    MLRecord(countLabel, Concat(args))
  }

  /** Two arguments are simply joined. */
  lemma TransformTwo<L>(countLabel: L, m: seq<real>, d: seq<real>)
    ensures TransformMLFormat(countLabel, [m, d]).feature == m + d
  {
    assert [m, d][..1] == [m];
    assert [m][..0] == [];
    assert Concat([m]) == m;
  }

  /** One argument is kept as it is. */
  lemma TransformOne<L>(countLabel: L, m: seq<real>)
    ensures TransformMLFormat(countLabel, [m]).feature == m
  {
    assert [m][..0] == [];
  }

  const BothMode: string := "mfcc_and_delta-ceps"
  const MfccMode: string := "mfcc"
  const DeltaMode: string := "delta-ceps"

  /** The three modes ChoiceFeature dispatches on. */
  predicate KnownMode(mode: string)
  {
    mode == BothMode || mode == MfccMode || mode == DeltaMode
  }

  /**
    ChoiceFeature(feature_mode, label, data, fs). The MFCC vector and the
    delta cepstrum are passed in as the outcomes of computing them from the
    data; the MFCC is computed first, so its failure is the one reported
    when both fail.
  */
  function ChoiceFeature<L>(mode: string, countLabel: L, mfcc: Result<seq<real>, Fault>,
                            delta: Result<seq<real>, Fault>): (r: Result<MLRecord<L>, Fault>)
    ensures !KnownMode(mode) ==> r == Failure(UnknownFeatureMode)
    ensures r.Success? ==> KnownMode(mode) && r.value.countLabel == countLabel
    ensures mode == BothMode ==>
              r == (if mfcc.Failure? then Failure(mfcc.error)
                    else if delta.Failure? then Failure(delta.error)
                    else Success(MLRecord(countLabel, mfcc.value + delta.value)))
    ensures mode == MfccMode ==>
              r == (if mfcc.Failure? then Failure(mfcc.error) else Success(MLRecord(countLabel, mfcc.value)))
    ensures mode == DeltaMode ==>
              r == (if delta.Failure? then Failure(delta.error) else Success(MLRecord(countLabel, delta.value)))
  {
    if mode == BothMode then
      var m :- mfcc;
      var d :- delta;
      TransformTwo(countLabel, m, d);
      Success(TransformMLFormat(countLabel, [m, d]))
    else if mode == MfccMode then
      var m :- mfcc;
      TransformOne(countLabel, m);
      Success(TransformMLFormat(countLabel, [m]))
    else if mode == DeltaMode then
      var d :- delta;
      TransformOne(countLabel, d);
      Success(TransformMLFormat(countLabel, [d]))
    else
      Failure(UnknownFeatureMode)
  }

  /** The combined mode's vector is the MFCC mode's vector followed by the delta mode's. */
  lemma ChoiceFeatureCombines<L>(countLabel: L, mfcc: Result<seq<real>, Fault>, delta: Result<seq<real>, Fault>)
    requires mfcc.Success? && delta.Success?
    ensures ChoiceFeature(BothMode, countLabel, mfcc, delta).Success?
    ensures ChoiceFeature(BothMode, countLabel, mfcc, delta).value.feature
            == ChoiceFeature(MfccMode, countLabel, mfcc, delta).value.feature
               + ChoiceFeature(DeltaMode, countLabel, mfcc, delta).value.feature
  {
  }
}
