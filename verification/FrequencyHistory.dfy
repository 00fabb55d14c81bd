/** How often features count over a whole history: globally, and for every input. */
module FrequencyHistory {
  import opened Bytes
  import opened FeatureFreqs
  import opened CorpusModel
  import opened RareFeatures
  import opened CorpusRuns
  import opened CorpusHistory
  import Sequences

  // ------------------------------------------------------------- global counts

  function Saturated(n: nat): nat {
    if n < 0xFFFF then n else 0xFFFF
  }

  /** How often `f` is among `features`. */
  function Times(features: seq<nat>, f: nat): nat {
    if features == [] then 0
    else
      var n := |features| - 1;
      Times(features[..n], f) + if features[n] % FEATURES == f then 1 else 0
  }

  /** How often runs showed `f`. */
  function Occurrences(steps: seq<Step>, f: nat): nat {
    if steps == [] then 0
    else
      var n := |steps| - 1;
      Occurrences(steps[..n], f) + OccursIn(steps[n], f)
  }

  function OccursIn(s: Step, f: nat): nat {
    if s.Run? && s.unit != [] then Times(s.features, f) else 0
  }

  /** An unknown feature has not been counted, and no counter is more than full. */
  ghost predicate Uncounted(c: Corpus, f: nat) {
    f < |c.sizes| == |c.global| && c.global[f] <= 0xFFFF && (c.sizes[f] == 0 ==> c.global[f] == 0)
  }

  /** `f` was counted `n` times more. */
  ghost predicate CountedOn(c: Corpus, d: Corpus, f: nat, n: nat)
    requires Uncounted(c, f)
  {
    Uncounted(d, f) && d.global[f] == Saturated(c.global[f] + n)
  }

  lemma AddFeatureGlobal(c: Corpus, o: Options, g: nat, size: nat, f: nat)
    requires Shaped(c) && OwnerIsThere(c, g % FEATURES, size, o.shrink) && size > 0
    requires f < FEATURES && Uncounted(c, f)
    ensures var d := AddFeature(c, o, g, size).0;
            && |d.global| == FEATURES && d.global[f] == c.global[f]
            && d.sizes[f] == if g % FEATURES == f && Takes(c, f, size, o.shrink) then size else c.sizes[f]
  {
    EvictKeepsAccount(Added(c), o);
  }

  lemma CollectOneGlobal(c: Corpus, o: Options, g: nat, size: nat, input: nat, f: nat)
    requires Shaped(c) && OwnerIsThere(c, g % FEATURES, size, o.shrink) && size > 0
    requires |AddFeature(c, o, g, size).0.global| == FEATURES && f < FEATURES && Uncounted(c, f)
    ensures CountedOn(c, CollectOne(c, o, g, size, input), f, if o.entropic && g % FEATURES == f then 1 else 0)
  {
    AddFeatureGlobal(c, o, g, size, f);
    if o.entropic {
      CountFeatureMeans(AddFeature(c, o, g, size).0, input, g);
    }
  }

  lemma CollectNextGlobal(c: Corpus, o: Options, g: nat, size: nat, input: nat, start: nat, f: nat)
    requires Mid(c, size, start) && size > 0 && f < FEATURES && Uncounted(c, f)
    ensures OwnerIsThere(c, g % FEATURES, size, o.shrink) && |AddFeature(c, o, g, size).0.global| == FEATURES
    ensures CountedOn(c, CollectOne(c, o, g, size, input), f, if o.entropic && g % FEATURES == f then 1 else 0)
  {
    CollectOneKeeps(c, o, g, size, input, start);
    CollectOneGlobal(c, o, g, size, input, f);
  }

  lemma CountedMore(c: Corpus, d: Corpus, e: Corpus, f: nat, m: nat, n: nat)
    requires Uncounted(c, f) && CountedOn(c, d, f, m) && CountedOn(d, e, f, n)
    ensures CountedOn(c, e, f, m + n)
  {
  }

  lemma {:induction false} CollectGlobal(c: Corpus, o: Options, features: seq<nat>, size: nat, input: nat, start: nat,
                                         f: nat)
    requires Mid(c, size, start) && size > 0 && f < FEATURES && Uncounted(c, f)
    ensures CountedOn(c, Collect(c, o, features, size, input, start), f, if o.entropic then Times(features, f) else 0)
  {
    if features != [] {
      var n := |features| - 1;
      var d := Collect(c, o, features[..n], size, input, start);
      CollectGlobal(c, o, features[..n], size, input, start, f);
      CollectNextGlobal(d, o, features[n], size, input, start, f);
      CountedMore(c, d, CollectOne(d, o, features[n], size, input), f,
                  if o.entropic then Times(features[..n], f) else 0,
                  if o.entropic && features[n] % FEATURES == f then 1 else 0);
    }
  }

  lemma ApplyGlobal(c: Corpus, o: Options, s: Step, f: nat)
    requires Inv(c) && f < FEATURES && Uncounted(c, f)
    ensures CountedOn(c, Apply(c, o, s), f, if o.entropic then OccursIn(s, f) else 0)
  {
    if s.Run? && s.unit != [] {
      RunStarts(c, |s.unit|);
      CollectGlobal(c, o, s.features, |s.unit|, s.input, c.updated, f);
    }
  }

  /** After every history the global count of a feature is the number of times runs
      showed it, up to 65535, and none without the entropic schedule. */
  lemma {:induction false} GlobalIsOccurrences(o: Options, steps: seq<Step>, f: nat)
    requires f < FEATURES
    ensures History(o, steps).global[f] == if o.entropic then Saturated(Occurrences(steps, f)) else 0
    ensures Uncounted(History(o, steps), f)
  {
    if steps != [] {
      var n := |steps| - 1;
      GlobalIsOccurrences(o, steps[..n], f);
      ApplyGlobal(History(o, steps[..n]), o, steps[n], f);
    }
  }

  // ------------------------------------------------------------- local counts

  function LocalCount(inputs: seq<Info>, i: nat, f: nat): nat {
    if i < |inputs| then Count(inputs[i].freqs, f) else 0
  }

  /** What is not rare is counted for no input. */
  lemma NotRareNotCounted(c: Corpus, i: nat, f: nat)
    requires RareInv(c) && f !in c.rare
    ensures LocalCount(c.inputs, i, f) == 0
  {
    if i < |c.inputs| {
      assert OfRare(c.inputs[i].freqs, c.rare);
      assert !Has(c.inputs[i].freqs, f);
    }
  }

  lemma DropKeepsOthers(c: Corpus, key: nat, i: nat, f: nat)
    requires RareInv(c) && f != key
    ensures LocalCount(DropAll(c.inputs, key), i, f) == LocalCount(c.inputs, i, f)
  {
    if i < |c.inputs| {
      assert OfRare(c.inputs[i].freqs, c.rare);
      DeleteForgets(c.inputs[i].freqs, key, f);
    }
  }

  /** Eviction leaves the counts of the features that stay. */
  lemma {:induction false} EvictCounts(c: Corpus, o: Options, i: nat, f: nat)
    requires RareInv(c) && f in Evict(c, o).rare
    ensures LocalCount(Evict(c, o).inputs, i, f) == LocalCount(c.inputs, i, f)
    decreases |c.rare|
  {
    if |c.rare| > o.rarest && c.top > o.threshold {
      var d := EvictOne(c);
      var p := RoundDrops(c);
      EvictKeepsAccount(d, o);
      DropKeepsOthers(c, c.rare[p], i, f);
      DropAllCounted(c.inputs, c.global, c.rare, c.rare[p], d.rare);
      EvictCounts(d, o, i, f);
    }
  }

  /** Rare, or not known yet. */
  ghost predicate Open(c: Corpus, f: nat) {
    f in c.rare || (f < |c.sizes| && c.sizes[f] == 0)
  }

  /** If `f` is rare in the end, or still unknown, input `i` counted it `n` times more. */
  ghost predicate HeardOn(c: Corpus, d: Corpus, i: nat, f: nat, n: nat) {
    Open(d, f) ==> Open(c, f) && LocalCount(d.inputs, i, f) == LocalCount(c.inputs, i, f) + n
  }

  lemma UnknownNotCounted(c: Corpus, i: nat, f: nat)
    requires RareInv(c) && f < |c.sizes| && c.sizes[f] == 0
    ensures f !in c.rare && LocalCount(c.inputs, i, f) == 0
  {
    NotRareNotCounted(c, i, f);
  }

  lemma AdmitCounts(c: Corpus, o: Options, g: nat, i: nat, f: nat)
    requires RareInv(c) && g < |c.sizes| == |c.global| && c.sizes[g] == 0 && f in AddRare(c, o, g).rare
    ensures f != g ==> f in c.rare
    ensures LocalCount(AddRare(c, o, g).inputs, i, f) == LocalCount(c.inputs, i, f)
  {
    var e := Evict(c, o);
    EvictKeepsTheRarest(c, o);
    EvictKeepsAccount(c, o);
    UnknownNotCounted(c, i, g);
    if f == g {
      if i < |e.inputs| {
        assert OfRare(e.inputs[i].freqs, e.rare);
        DeleteForgets(e.inputs[i].freqs, g, g);
      }
    } else {
      EvictCounts(c, o, i, f);
      DropKeepsOthers(e, g, i, f);
    }
  }

  lemma AddFeatureHears(c: Corpus, o: Options, g: nat, size: nat, i: nat, f: nat)
    requires Shaped(c) && OwnerIsThere(c, g % FEATURES, size, o.shrink) && RareInv(c) && size > 0 && f < FEATURES
    ensures HeardOn(c, AddFeature(c, o, g, size).0, i, f, 0)
  {
    var d, k := AddFeature(c, o, g, size).0, g % FEATURES;
    if Takes(c, k, size, o.shrink) && Open(d, f) {
      if d.sizes[f] == 0 {
        AddFeatureRare(c, o, g, size);
        UnknownNotCounted(c, i, f);
        UnknownNotCounted(d, i, f);
      } else if c.sizes[k] == 0 && o.entropic {
        AdmitCounts(Added(c), o, k, i, f);
      }
    }
  }

  /** The counter is full, or the feature more frequent than noted. */
  ghost predicate Skipped(c: Corpus, f: nat)
    requires f < |c.global|
  {
    c.global[f] == 0xFFFF || c.global[f] > c.top
  }

  lemma CountFeatureHears(c: Corpus, ii: nat, idx: nat, i: nat, f: nat)
    requires Shaped(c) && RareInv(c) && f < FEATURES && c.sizes[idx % FEATURES] != 0
    ensures HeardOn(c, CountFeature(c, ii, idx), i, f,
                    if i == ii && i < |c.inputs| && idx % FEATURES == f && !Skipped(c, f) then 1 else 0)
  {
    if i < |c.inputs| && Open(c, f) {
      assert OfRare(c.inputs[i].freqs, c.rare);
      CountFeatureLocally(c, ii, idx, i, f);
      if f in c.rare && c.global[f] != 0xFFFF {
        BumpNeverWraps(c, f, i);
      }
    }
  }

  lemma HeardMore(c: Corpus, d: Corpus, e: Corpus, i: nat, f: nat, m: nat, n: nat)
    requires HeardOn(c, d, i, f, m) && HeardOn(d, e, i, f, n)
    ensures HeardOn(c, e, i, f, m + n)
  {
  }

  /** Whether one feature of a run is counted for input `i`. */
  ghost predicate Heeds(c: Corpus, o: Options, g: nat, size: nat, input: nat, i: nat, f: nat)
    requires Shaped(c) && OwnerIsThere(c, g % FEATURES, size, o.shrink) && f < FEATURES
    requires |AddFeature(c, o, g, size).0.global| == FEATURES
  {
    o.entropic && i == input && i < |c.inputs| && g % FEATURES == f && !Skipped(AddFeature(c, o, g, size).0, f)
  }

  lemma CollectOneHears(c: Corpus, o: Options, g: nat, size: nat, input: nat, start: nat, i: nat, f: nat)
    requires Mid(c, size, start) && size > 0 && f < FEATURES
    ensures OwnerIsThere(c, g % FEATURES, size, o.shrink) && |AddFeature(c, o, g, size).0.global| == FEATURES
    ensures HeardOn(c, CollectOne(c, o, g, size, input), i, f, if Heeds(c, o, g, size, input, i, f) then 1 else 0)
  {
    CollectOneKeeps(c, o, g, size, input, start);
    AddFeatureSide(c, o, g, size, start);
    AddFeatureRuns(c, o, g, size, start);
    AddFeatureHears(c, o, g, size, i, f);
    var d := AddFeature(c, o, g, size).0;
    if o.entropic {
      CountFeatureHears(d, input, g, i, f);
    }
  }

  /** How often a run counted `f` for input `i`. */
  ghost function HeardIn(c: Corpus, o: Options, features: seq<nat>, size: nat, input: nat, start: nat, i: nat, f: nat)
    : nat
    requires Mid(c, size, start) && size > 0 && f < FEATURES
  {
    if features == [] then 0
    else
      var n := |features| - 1;
      var d := Collect(c, o, features[..n], size, input, start);
      CollectOneKeeps(d, o, features[n], size, input, start);
      HeardIn(c, o, features[..n], size, input, start, i, f) +
      if Heeds(d, o, features[n], size, input, i, f) then 1 else 0
  }

  lemma {:induction false} CollectHears(c: Corpus, o: Options, features: seq<nat>, size: nat, input: nat, start: nat,
                                        i: nat, f: nat)
    requires Mid(c, size, start) && size > 0 && f < FEATURES
    ensures HeardOn(c, Collect(c, o, features, size, input, start), i, f,
                    HeardIn(c, o, features, size, input, start, i, f))
  {
    if features != [] {
      var n := |features| - 1;
      var d := Collect(c, o, features[..n], size, input, start);
      CollectHears(c, o, features[..n], size, input, start, i, f);
      CollectOneHears(d, o, features[n], size, input, start, i, f);
      HeardMore(c, d, CollectOne(d, o, features[n], size, input), i, f,
                HeardIn(c, o, features[..n], size, input, start, i, f),
                if Heeds(d, o, features[n], size, input, i, f) then 1 else 0);
    }
  }

  ghost function HeardBy(c: Corpus, o: Options, s: Step, i: nat, f: nat): nat
    requires Inv(c) && f < FEATURES
  {
    if s.Run? && s.unit != [] then
      RunStarts(c, |s.unit|);
      HeardIn(c, o, s.features, |s.unit|, s.input, c.updated, i, f)
    else 0
  }

  lemma EndRunHears(d: Corpus, s: Step, start: nat, i: nat, f: nat)
    requires s.Run? && start <= d.updated
    ensures HeardOn(d, EndRun(d, s, start), i, f, 0)
  {
  }

  lemma ApplyHears(c: Corpus, o: Options, s: Step, i: nat, f: nat)
    requires Inv(c) && f < FEATURES
    ensures HeardOn(c, Apply(c, o, s), i, f, HeardBy(c, o, s, i, f))
  {
    if s.Run? && s.unit != [] {
      RunStarts(c, |s.unit|);
      CollectHears(c, o, s.features, |s.unit|, s.input, c.updated, i, f);
      var d := Collect(c, o, s.features, |s.unit|, s.input, c.updated);
      EndRunHears(d, s, c.updated, i, f);
      HeardMore(c, d, Apply(c, o, s), i, f, HeardBy(c, o, s, i, f), 0);
    }
  }

  /** How often `f` showed in runs of mutations of input `i`, not counting the times it
      was skipped. */
  ghost function Heard(o: Options, steps: seq<Step>, i: nat, f: nat): nat
    requires f < FEATURES
  {
    if steps == [] then 0
    else
      var n := |steps| - 1;
      Heard(o, steps[..n], i, f) + HeardBy(History(o, steps[..n]), o, steps[n], i, f)
  }

  lemma {:induction false} HistoryHears(o: Options, steps: seq<Step>, i: nat, f: nat)
    requires f < FEATURES
    ensures HeardOn(Empty(), History(o, steps), i, f, Heard(o, steps, i, f))
  {
    if steps != [] {
      var n := |steps| - 1;
      var c := History(o, steps[..n]);
      HistoryHears(o, steps[..n], i, f);
      ApplyHears(c, o, steps[n], i, f);
      HeardMore(Empty(), c, History(o, steps), i, f, Heard(o, steps[..n], i, f), HeardBy(c, o, steps[n], i, f));
    }
  }

  /** After every history an input's count of a rare feature is the number of times it
      showed in runs of the input's mutations, less the times it was skipped; what is
      not rare has no count. */
  lemma LocalIsHeard(o: Options, steps: seq<Step>, i: nat, f: nat)
    requires f < FEATURES && i < |History(o, steps).inputs|
    ensures var c := History(o, steps);
            Count(c.inputs[i].freqs, f) == if f in c.rare then Heard(o, steps, i, f) else 0
  {
    var c := History(o, steps);
    if f in c.rare {
      HistoryHears(o, steps, i, f);
    } else {
      NotRareNotCounted(c, i, f);
    }
  }

  // ------------------------------------------------------------- while there is room for all

  /** Every known feature is rare, and none more frequent than noted. */
  ghost predicate Roomy(c: Corpus) {
    (forall f: nat {:trigger c.sizes[f]} :: f < |c.sizes| && c.sizes[f] != 0 ==> f in c.rare) && TopCovers(c)
  }

  lemma {:induction false} NoMoreThanMembers(q: seq<nat>, s: set<nat>)
    requires Sequences.Distinct(q) && forall x :: x in q ==> x in s
    ensures |q| <= |s|
  {
    if q != [] {
      var last := q[|q| - 1];
      NoMoreThanMembers(q[..|q| - 1], s - {last});
      assert |s - {last}| == |s| - 1;
    }
  }

  lemma RareAtMostKnown(c: Corpus)
    requires RareInv(c)
    ensures |c.rare| <= |Known(c.sizes)|
  {
    NoMoreThanMembers(c.rare, Known(c.sizes));
  }

  lemma AddFeatureRoomy(c: Corpus, o: Options, g: nat, size: nat)
    requires Shaped(c) && OwnerIsThere(c, g % FEATURES, size, o.shrink) && Side(c) && Roomy(c) && size > 0
    requires o.entropic && AddFeature(c, o, g, size).0.added <= o.rarest + 1
    ensures Roomy(AddFeature(c, o, g, size).0)
  {
    var f := g % FEATURES;
    if Takes(c, f, size, o.shrink) && c.sizes[f] == 0 {
      VacateAdds(c, o, f);
      RareAtMostKnown(c);
      assert Evict(Added(c), o) == Added(c);
    }
  }

  lemma CountFeatureRoomy(c: Corpus, ii: nat, idx: nat)
    requires Shaped(c) && Roomy(c) && InRange(c.global, c.top)
    ensures Roomy(CountFeature(c, ii, idx)) && CountFeature(c, ii, idx).added == c.added
  {
    CountFeatureMeans(c, ii, idx);
  }

  lemma RoomySkipsOnlyFull(c: Corpus, f: nat)
    requires f < |c.sizes| == |c.global| && c.sizes[f] != 0 && Roomy(c)
    ensures Skipped(c, f) <==> c.global[f] == 0xFFFF
  {
    assert f in c.rare && GlobalCount(c.global, f) <= c.top;
  }

  lemma CollectOneRoomy(c: Corpus, o: Options, g: nat, size: nat, input: nat, start: nat)
    requires Mid(c, size, start) && size > 0 && Roomy(c) && o.entropic
    requires OwnerIsThere(c, g % FEATURES, size, o.shrink) && |AddFeature(c, o, g, size).0.global| == FEATURES
    requires CollectOne(c, o, g, size, input).added <= o.rarest + 1
    ensures Roomy(AddFeature(c, o, g, size).0) && Roomy(CollectOne(c, o, g, size, input))
  {
    var d := AddFeature(c, o, g, size).0;
    AddFeatureSide(c, o, g, size, start);
    AddFeatureRuns(c, o, g, size, start);
    CountFeatureKeepsAccount(d, input, g);
    AddFeatureRoomy(c, o, g, size);
    CountFeatureRoomy(d, input, g);
  }

  lemma AddsOn(c: Corpus, o: Options, g: nat, size: nat)
    requires Shaped(c) && OwnerIsThere(c, g % FEATURES, size, o.shrink)
    ensures c.added <= AddFeature(c, o, g, size).0.added
  {
    if Takes(c, g % FEATURES, size, o.shrink) {
      VacateAdds(c, o, g % FEATURES);
    }
  }

  lemma RoomyHeeds(c: Corpus, o: Options, g: nat, size: nat, input: nat, i: nat, f: nat)
    requires Shaped(c) && OwnerIsThere(c, g % FEATURES, size, o.shrink) && size > 0 && o.entropic
    requires |AddFeature(c, o, g, size).0.global| == FEATURES && f < FEATURES && Uncounted(c, f)
    requires Roomy(AddFeature(c, o, g, size).0)
    ensures Heeds(c, o, g, size, input, i, f) <==>
              i == input && i < |c.inputs| && g % FEATURES == f && c.global[f] != 0xFFFF
  {
    AddFeatureGlobal(c, o, g, size, f);
    if g % FEATURES == f {
      RoomySkipsOnlyFull(AddFeature(c, o, g, size).0, f);
    }
  }

  lemma CollectOneAdds(c: Corpus, o: Options, g: nat, size: nat, input: nat, start: nat)
    requires Mid(c, size, start) && size > 0
    ensures OwnerIsThere(c, g % FEATURES, size, o.shrink) && |AddFeature(c, o, g, size).0.global| == FEATURES
    ensures c.added <= CollectOne(c, o, g, size, input).added
  {
    CollectOneKeeps(c, o, g, size, input, start);
    AddsOn(c, o, g, size);
    CountFeatureKeepsAccount(AddFeature(c, o, g, size).0, input, g);
  }

  /** `hits` is what the global count of `f` rose by if the runs were the input's `own`. */
  ghost predicate Gained(c: Corpus, d: Corpus, f: nat, hits: nat, own: bool)
    requires Uncounted(c, f) && Uncounted(d, f)
  {
    c.global[f] <= d.global[f] && hits == if own then d.global[f] - c.global[f] else 0
  }

  lemma RoomyStep(c: Corpus, o: Options, g: nat, size: nat, input: nat, start: nat, i: nat, f: nat)
    requires Mid(c, size, start) && size > 0 && f < FEATURES && Roomy(c) && o.entropic && Uncounted(c, f)
    requires OwnerIsThere(c, g % FEATURES, size, o.shrink) && |AddFeature(c, o, g, size).0.global| == FEATURES
    requires CollectOne(c, o, g, size, input).added <= o.rarest + 1
    ensures var d := CollectOne(c, o, g, size, input);
            && Roomy(d) && Uncounted(d, f)
            && Gained(c, d, f, if Heeds(c, o, g, size, input, i, f) then 1 else 0, i == input && i < |c.inputs|)
  {
    CollectOneRoomy(c, o, g, size, input, start);
    RoomyHeeds(c, o, g, size, input, i, f);
    CollectOneGlobal(c, o, g, size, input, f);
  }

  lemma {:induction false} CollectRoomy(c: Corpus, o: Options, features: seq<nat>, size: nat, input: nat, start: nat,
                                        i: nat, f: nat)
    requires Mid(c, size, start) && size > 0 && f < FEATURES && Roomy(c) && o.entropic && Uncounted(c, f)
    requires Collect(c, o, features, size, input, start).added <= o.rarest + 1
    ensures var d := Collect(c, o, features, size, input, start);
            && Roomy(d) && Uncounted(d, f)
            && Gained(c, d, f, HeardIn(c, o, features, size, input, start, i, f), i == input && i < |c.inputs|)
  {
    if features != [] {
      var n := |features| - 1;
      var d := Collect(c, o, features[..n], size, input, start);
      CollectOneAdds(d, o, features[n], size, input, start);
      CollectKeepsUnits(c, o, features[..n], size, input, start);
      CollectRoomy(c, o, features[..n], size, input, start, i, f);
      RoomyStep(d, o, features[n], size, input, start, i, f);
    }
  }

  lemma {:induction false} CollectAdds(c: Corpus, o: Options, features: seq<nat>, size: nat, input: nat, start: nat)
    requires Mid(c, size, start) && size > 0
    ensures c.added <= Collect(c, o, features, size, input, start).added
  {
    if features != [] {
      var n := |features| - 1;
      CollectAdds(c, o, features[..n], size, input, start);
      CollectOneAdds(Collect(c, o, features[..n], size, input, start), o, features[n], size, input, start);
    }
  }

  lemma ApplyAdds(c: Corpus, o: Options, s: Step)
    requires Inv(c)
    ensures c.added <= Apply(c, o, s).added
  {
    if s.Run? && s.unit != [] {
      RunStarts(c, |s.unit|);
      CollectAdds(c, o, s.features, |s.unit|, s.input, c.updated);
    }
  }

  lemma EndRunKeepsCounts(d: Corpus, s: Step, start: nat, f: nat)
    requires s.Run? && start <= d.updated
    ensures var e := EndRun(d, s, start);
            && e.added == d.added && e.global == d.global && (Uncounted(d, f) ==> Uncounted(e, f))
            && (Roomy(d) ==> Roomy(e))
  {
  }

  /** Whether the step is a run of a mutation of input `i`. */
  predicate IsOwn(c: Corpus, s: Step, i: nat) {
    s.Run? && s.unit != [] && i == s.input && i < |c.inputs|
  }

  lemma ApplyRoomy(c: Corpus, o: Options, s: Step, i: nat, f: nat)
    requires Inv(c) && f < FEATURES && Roomy(c) && o.entropic && Uncounted(c, f)
    requires Apply(c, o, s).added <= o.rarest + 1
    ensures var d := Apply(c, o, s);
            && Roomy(d) && Uncounted(d, f)
            && Gained(c, d, f, HeardBy(c, o, s, i, f), IsOwn(c, s, i))
  {
    if s.Run? && s.unit != [] {
      RunStarts(c, |s.unit|);
      EndRunKeepsCounts(Collect(c, o, s.features, |s.unit|, s.input, c.updated), s, c.updated, f);
      CollectRoomy(c, o, s.features, |s.unit|, s.input, c.updated, i, f);
    }
  }

  /** How often runs of mutations of input `i` showed `f` while its global counter was
      not full. */
  ghost function OwnOccurrences(o: Options, steps: seq<Step>, i: nat, f: nat): nat {
    if steps == [] then 0
    else
      var n := |steps| - 1;
      OwnOccurrences(o, steps[..n], i, f) +
      if IsOwn(History(o, steps[..n]), steps[n], i) then
        Saturated(Occurrences(steps[..n], f) + OccursIn(steps[n], f)) - Saturated(Occurrences(steps[..n], f))
      else 0
  }

  lemma EmptyIsRoomy(f: nat)
    requires f < FEATURES
    ensures Roomy(Empty()) && Uncounted(Empty(), f)
  {
  }

  lemma {:induction false} HistoryRoomy(o: Options, steps: seq<Step>, i: nat, f: nat)
    requires f < FEATURES && o.entropic && History(o, steps).added <= o.rarest + 1
    ensures Roomy(History(o, steps)) && Heard(o, steps, i, f) == OwnOccurrences(o, steps, i, f)
  {
    EmptyIsRoomy(f);
    if steps != [] {
      var n := |steps| - 1;
      var c := History(o, steps[..n]);
      ApplyAdds(c, o, steps[n]);
      HistoryRoomy(o, steps[..n], i, f);
      GlobalIsOccurrences(o, steps[..n], f);
      GlobalIsOccurrences(o, steps, f);
      ApplyRoomy(c, o, steps[n], i, f);
    }
  }

  /** As long as no more features showed than may stay rare, and one, all of them are
      rare, and an input's count of a feature is the number of times runs of its
      mutations showed it, up to 65535 in all runs. */
  lemma FewAreCountedFully(o: Options, steps: seq<Step>, i: nat, f: nat)
    requires f < FEATURES && o.entropic && |Shown(steps)| <= o.rarest + 1 && i < |History(o, steps).inputs|
    ensures f in History(o, steps).rare <==> EverShown(steps, f)
    ensures Count(History(o, steps).inputs[i].freqs, f) ==
              if EverShown(steps, f) then OwnOccurrences(o, steps, i, f) else 0
  {
    var c := History(o, steps);
    AddedCountsShown(o, steps);
    HistoryRoomy(o, steps, i, f);
    LocalIsHeard(o, steps, i, f);
    SizesAreRecords(o, steps, f);
    assert c.sizes[f] != 0 <==> EverShown(steps, f);
  }
}
