/** One execution of the fuzz target, and what the corpus makes of it. */
module FuzzerLoop {
  import opened Bytes
  import opened CorpusModel
  import opened RareFeatures
  import CorpusRuns
  import CorpusHistory
  import opened FuzzerCorpus

  lemma RareIsSorted(c: Corpus)
    requires RareInv(c)
    ensures Sorted(c.inputs)
  {
    forall i | 0 <= i < |c.inputs|
      ensures FeatureFreqs.Ordered(c.inputs[i].freqs)
    {
      assert OfRare(c.inputs[i].freqs, c.rare);
    }
  }

  /** One feature that the target showed. */
  method CollectFeature(corpus: InputCorpus, feature: nat, size: nat, ii: InputInfo?, ghost i: nat, ghost start: nat)
    requires corpus.Valid() && CorpusRuns.Mid(corpus.Snapshot(), size, start) && size > 0
    requires if ii == null then i >= |corpus.Inputs| else i < |corpus.Inputs| && corpus.Inputs[i] == ii
    requires OwnerIsThere(corpus.Snapshot(), feature % FEATURES, size, corpus.Opts.shrink)
    requires |CorpusModel.AddFeature(corpus.Snapshot(), corpus.Opts, feature, size).0.global| == FEATURES
    modifies corpus, corpus.Inputs, corpus.InputSizesPerFeature, corpus.SmallestElementPerFeature,
             corpus.GlobalFeatureFreqs
    ensures corpus.Valid() && corpus.Inputs == old(corpus.Inputs)
    ensures corpus.Snapshot() == CorpusRuns.CollectOne(old(corpus.Snapshot()), corpus.Opts, feature, size, i)
  {
    ghost var c := corpus.Snapshot();
    RareIsSorted(c);
    CorpusRuns.AddFeatureSide(c, corpus.Opts, feature, size, start);
    var _ := corpus.AddFeature(feature, size);
    if corpus.Opts.entropic {
      RareIsSorted(corpus.Snapshot());
      corpus.UpdateFeatureFrequency(ii, i, feature);
    }
  }

  /** Run the target on `data`, which shows `features`. The result says whether the
      corpus got a new input or a shorter unit for `ii`. */
  method RunOne(corpus: InputCorpus, data: seq<byte>, features: seq<nat>, ii: InputInfo?, ghost i: nat, force: bool,
                reduces: bool, focus: bool)
    returns (interesting: bool)
    requires corpus.Valid() && CorpusRuns.Inv(corpus.Snapshot())
    requires if ii == null then i >= |corpus.Inputs| else i < |corpus.Inputs| && corpus.Inputs[i] == ii
    modifies corpus, corpus.Inputs, corpus.InputSizesPerFeature, corpus.SmallestElementPerFeature,
             corpus.GlobalFeatureFreqs
    ensures corpus.Valid()
    ensures !interesting ==> corpus.Inputs == old(corpus.Inputs)
    ensures interesting <==> CorpusHistory.AddedOrReplaced(old(corpus.Snapshot()).inputs, corpus.Snapshot().inputs)
    ensures corpus.Snapshot() == CorpusRuns.RunOne(old(corpus.Snapshot()), corpus.Opts,
                                                   CorpusRuns.Run(data, features, i, force, reduces, focus))
  {
    if data == [] {
      return false;
    }
    var size, updatesBefore := |data|, corpus.NumUpdatedFeatures;
    CorpusHistory.InterestingMeans(corpus.Snapshot(), corpus.Opts,
                                   CorpusRuns.Run(data, features, i, force, reduces, focus));
    CorpusRuns.RunStarts(corpus.Snapshot(), size);
    Collect(corpus, features, size, ii, i);
    interesting := FinishRun(corpus, data, ii, i, updatesBefore, force, reduces, focus,
                             CorpusRuns.Run(data, features, i, force, reduces, focus));
  }

  /** What the features of the run were worth. */
  method FinishRun(corpus: InputCorpus, data: seq<byte>, ii: InputInfo?, ghost i: nat, updatesBefore: nat, force: bool,
                   reduces: bool, focus: bool,
                   ghost step: CorpusRuns.Step)
    returns (interesting: bool)
    requires corpus.Valid() && data != [] && CorpusRuns.Mid(corpus.Snapshot(), |data|, updatesBefore)
    requires if ii == null then i >= |corpus.Inputs| else i < |corpus.Inputs| && corpus.Inputs[i] == ii
    requires step.Run? && step.unit == data && step.input == i && step.force == force && step.reduces == reduces &&
             step.focus == focus
    modifies corpus, corpus.Inputs
    ensures corpus.Valid()
    ensures !interesting ==> corpus.Inputs == old(corpus.Inputs)
    ensures interesting == CorpusRuns.Keeps(old(corpus.Snapshot()), step, updatesBefore)
    ensures corpus.Snapshot() == CorpusRuns.EndRun(old(corpus.Snapshot()), step, updatesBefore)
  {
    var numNew := corpus.NumUpdatedFeatures - updatesBefore;
    if numNew != 0 || force {
      var _ := corpus.AddToCorpus(data, numNew, focus);
      return true;
    }
    if ii != null && reduces && |ii.U| > |data| {
      corpus.Replace(ii, i, data);
      return true;
    }
    return false;
  }

  method Collect(corpus: InputCorpus, features: seq<nat>, size: nat, ii: InputInfo?, ghost i: nat)
    requires corpus.Valid() && size > 0 && CorpusRuns.Mid(corpus.Snapshot(), size, corpus.NumUpdatedFeatures)
    requires if ii == null then i >= |corpus.Inputs| else i < |corpus.Inputs| && corpus.Inputs[i] == ii
    modifies corpus, corpus.Inputs, corpus.InputSizesPerFeature, corpus.SmallestElementPerFeature,
             corpus.GlobalFeatureFreqs
    ensures corpus.Valid() && corpus.Inputs == old(corpus.Inputs)
    ensures corpus.Snapshot()
         == CorpusRuns.Collect(old(corpus.Snapshot()), corpus.Opts, features, size, i, old(corpus.NumUpdatedFeatures))
  {
    ghost var c, start := corpus.Snapshot(), corpus.NumUpdatedFeatures;
    for k := 0 to |features|
      invariant corpus.Valid() && corpus.Inputs == old(corpus.Inputs)
      invariant corpus.Snapshot() == CorpusRuns.Collect(c, corpus.Opts, features[..k], size, i, start)
    {
      CorpusRuns.CollectOneKeeps(corpus.Snapshot(), corpus.Opts, features[k], size, i, start);
      CollectFeature(corpus, features[k], size, ii, i, start);
      assert features[..k + 1][..k] == features[..k];
    }
    assert features[..|features|] == features;
  }
}
