/** What a whole history of the corpus leaves behind: which size is recorded for a
    feature, and what never comes back. */
module CorpusHistory {
  import opened Bytes
  import opened CorpusModel
  import opened CorpusRuns

  // ------------------------------------------------------------- nothing grows back

  /** Inputs stay, and only lose features and bytes. */
  ghost predicate InputsLater(a: seq<Info>, b: seq<Info>) {
    && |a| <= |b|
    && forall i: nat {:trigger b[i]} :: i < |a| ==> b[i].numFeatures <= a[i].numFeatures && |b[i].unit| <= |a[i].unit|
  }

  /** Known features stay known, at sizes that only fall. */
  ghost predicate SizesLater(s: seq<nat>, t: seq<nat>) {
    |s| == |t| && forall f: nat {:trigger t[f]} :: f < |s| && s[f] != 0 ==> 0 < t[f] <= s[f]
  }

  ghost predicate Later(c: Corpus, d: Corpus) {
    InputsLater(c.inputs, d.inputs) && SizesLater(c.sizes, d.sizes)
  }

  lemma LaterTrans(c: Corpus, d: Corpus, e: Corpus)
    requires Later(c, d) && Later(d, e)
    ensures Later(c, e)
  {
    forall i: nat | i < |c.inputs|
      ensures e.inputs[i].numFeatures <= c.inputs[i].numFeatures && |e.inputs[i].unit| <= |c.inputs[i].unit|
    {
      assert d.inputs[i].numFeatures <= c.inputs[i].numFeatures && |d.inputs[i].unit| <= |c.inputs[i].unit|;
    }
    forall f: nat | f < |c.sizes| && c.sizes[f] != 0
      ensures 0 < e.sizes[f] <= c.sizes[f]
    {
      assert 0 < d.sizes[f] <= c.sizes[f];
    }
  }

  lemma CollectOneLater(c: Corpus, o: Options, f: nat, size: nat, input: nat, start: nat)
    requires Mid(c, size, start) && size > 0
    requires OwnerIsThere(c, f % FEATURES, size, o.shrink) && |AddFeature(c, o, f, size).0.global| == FEATURES
    ensures Later(c, CollectOne(c, o, f, size, input))
  {
    var d := AddFeature(c, o, f, size).0;
    assert Later(c, d) by {
      if Takes(c, f % FEATURES, size, o.shrink) {
        VacateAccounts(c, o, f % FEATURES);
      }
    }
    CountFeatureKeepsAccount(d, input, f);
  }

  lemma {:induction false} CollectLater(c: Corpus, o: Options, features: seq<nat>, size: nat, input: nat, start: nat)
    requires Mid(c, size, start) && size > 0
    ensures Later(c, Collect(c, o, features, size, input, start))
  {
    if features != [] {
      var n := |features| - 1;
      var d := Collect(c, o, features[..n], size, input, start);
      CollectLater(c, o, features[..n], size, input, start);
      CollectOneKeeps(d, o, features[n], size, input, start);
      CollectOneLater(d, o, features[n], size, input, start);
      LaterTrans(c, d, CollectOne(d, o, features[n], size, input));
    }
  }

  lemma ApplyLater(c: Corpus, o: Options, s: Step)
    requires Inv(c)
    ensures Later(c, Apply(c, o, s))
  {
    if s.Run? && s.unit != [] {
      RunStarts(c, |s.unit|);
      CollectLater(c, o, s.features, |s.unit|, s.input, c.updated);
      var d := Collect(c, o, s.features, |s.unit|, s.input, c.updated);
      assert Later(d, Apply(c, o, s));
      LaterTrans(c, d, Apply(c, o, s));
    }
  }

  lemma {:induction false} HistoryLater(o: Options, steps: seq<Step>, k: nat)
    requires k <= |steps|
    ensures Later(History(o, steps[..k]), History(o, steps))
  {
    var n := |steps|;
    if k == n {
      assert steps[..k] == steps;
    } else {
      HistoryLater(o, steps[..n - 1], k);
      assert steps[..n - 1][..k] == steps[..k];
      var c := History(o, steps[..n - 1]);
      ApplyLater(c, o, steps[n - 1]);
      LaterTrans(History(o, steps[..k]), c, History(o, steps));
    }
  }

  /** An evicted input stays evicted, owns nothing, and gets no weight ever again. */
  lemma EvictedStayEvicted(o: Options, steps: seq<Step>, k: nat, i: nat)
    requires k <= |steps| && i < |History(o, steps[..k]).inputs| && History(o, steps[..k]).inputs[i].unit == []
    ensures var c := History(o, steps);
            && i < |c.inputs| && c.inputs[i].unit == [] && c.inputs[i].numFeatures == 0
            && Owned(c.sizes, c.owners, i) == {}
            && (!c.stale ==> i < |c.weights| && c.weights[i] <= 0.0)
  {
    HistoryLater(o, steps, k);
    var c := History(o, steps);
    assert |c.inputs[i].unit| <= 0;
    assert c.inputs[i].numFeatures == |Owned(c.sizes, c.owners, i)|;
  }

  // ------------------------------------------------------------- what one run changes

  /** The inputs are there, and their units are kept or lost. */
  ghost predicate KeptOrLost(a: seq<Info>, b: seq<Info>) {
    |a| == |b| && forall i: nat {:trigger b[i]} :: i < |a| ==> b[i].unit == a[i].unit || b[i].unit == []
  }

  lemma CollectOneKeepsUnits(c: Corpus, o: Options, f: nat, size: nat, input: nat, start: nat)
    requires Mid(c, size, start) && size > 0
    requires OwnerIsThere(c, f % FEATURES, size, o.shrink) && |AddFeature(c, o, f, size).0.global| == FEATURES
    ensures KeptOrLost(c.inputs, CollectOne(c, o, f, size, input).inputs)
    ensures !o.shrink ==> forall i :: 0 <= i < |c.inputs| ==>
              CollectOne(c, o, f, size, input).inputs[i].unit == c.inputs[i].unit
  {
    var d := AddFeature(c, o, f, size).0;
    if Takes(c, f % FEATURES, size, o.shrink) {
      VacateAccounts(c, o, f % FEATURES);
      if c.sizes[f % FEATURES] == 0 && o.entropic {
        AddRareKeepsAccount(Added(c), o, f % FEATURES);
      }
    }
    CountFeatureKeepsAccount(d, input, f);
  }

  lemma {:induction false} CollectKeepsUnits(c: Corpus, o: Options, features: seq<nat>, size: nat, input: nat,
                                             start: nat)
    requires Mid(c, size, start) && size > 0
    ensures KeptOrLost(c.inputs, Collect(c, o, features, size, input, start).inputs)
    ensures !o.shrink ==>
              forall i :: 0 <= i < |c.inputs| ==>
                Collect(c, o, features, size, input, start).inputs[i].unit == c.inputs[i].unit
  {
    if features != [] {
      var n := |features| - 1;
      var d := Collect(c, o, features[..n], size, input, start);
      CollectKeepsUnits(c, o, features[..n], size, input, start);
      CollectOneKeeps(d, o, features[n], size, input, start);
      CollectOneKeepsUnits(d, o, features[n], size, input, start);
      assert forall i: nat :: i < |c.inputs| ==> d.inputs[i].unit == c.inputs[i].unit || d.inputs[i].unit == [];
    }
  }

  /** There is a new input, or one got another unit. */
  ghost predicate AddedOrReplaced(a: seq<Info>, b: seq<Info>) {
    |b| > |a| || exists i: nat {:trigger b[i]} :: i < |a| && i < |b| && b[i].unit != [] && b[i].unit != a[i].unit
  }

  /** A run is interesting exactly when it adds an input or replaces a unit. */
  lemma InterestingMeans(c: Corpus, o: Options, s: Step)
    requires Inv(c) && s.Run?
    ensures Interesting(c, o, s) <==> AddedOrReplaced(c.inputs, RunOne(c, o, s).inputs)
  {
    if s.unit != [] {
      RunStarts(c, |s.unit|);
      CollectKeepsUnits(c, o, s.features, |s.unit|, s.input, c.updated);
      EndRunMeans(c, Collect(c, o, s.features, |s.unit|, s.input, c.updated), s, c.updated);
    }
  }

  lemma EndRunMeans(c: Corpus, d: Corpus, s: Step, start: nat)
    requires s.Run? && s.unit != [] && start <= d.updated && KeptOrLost(c.inputs, d.inputs)
    ensures Keeps(d, s, start) <==> AddedOrReplaced(c.inputs, EndRun(d, s, start).inputs)
  {
    var e := EndRun(d, s, start);
    if Keeps(d, s, start) && d.updated == start && !s.force {
      assert e.inputs[s.input].unit == s.unit && d.inputs[s.input].unit != s.unit;
    }
  }

  // ------------------------------------------------------------- drawing an input uniformly

  ghost predicate SomeEvicted(c: Corpus) {
    exists i: nat :: i < |c.inputs| && c.inputs[i].unit == []
  }

  /** A feature evicts an input exactly when it takes away the last one it had. */
  lemma EvictsLast(c: Corpus, o: Options, f: nat, size: nat, start: nat, i: nat)
    requires Running(c, size, start) && f < FEATURES && i < |c.inputs| && c.inputs[i].unit != []
    requires OwnerIsThere(c, f % FEATURES, size, o.shrink)
    ensures AddFeature(c, o, f, size).0.inputs[i].unit == [] <==>
              o.shrink && c.sizes[f] > size && c.owners[f] == i && c.inputs[i].numFeatures == 1
  {
    assert f % FEATURES == f;
    if c.sizes[f] == 0 && o.entropic {
      AddRareKeepsAccount(Added(c), o, f);
    }
    if c.sizes[f] != 0 {
      assert f in Owned(c.sizes, c.owners, c.owners[f]);
    }
  }

  lemma EndRunEvictsNone(d: Corpus, s: Step, start: nat)
    requires s.Run? && s.unit != [] && start <= d.updated && !SomeEvicted(d)
    ensures !SomeEvicted(EndRun(d, s, start))
  {
  }

  lemma ApplyEvictsNone(c: Corpus, o: Options, s: Step)
    requires Inv(c) && !o.shrink && !SomeEvicted(c)
    ensures !SomeEvicted(Apply(c, o, s))
  {
    if s.Run? && s.unit != [] {
      RunStarts(c, |s.unit|);
      CollectKeepsUnits(c, o, s.features, |s.unit|, s.input, c.updated);
      EndRunEvictsNone(Collect(c, o, s.features, |s.unit|, s.input, c.updated), s, c.updated);
    }
  }

  /** Without shrinking no input is ever evicted, and every draw finds a unit. */
  lemma {:induction false} NoneEvictedUnlessShrinking(o: Options, steps: seq<Step>)
    requires !o.shrink
    ensures !SomeEvicted(History(o, steps))
  {
    if steps != [] {
      var n := |steps| - 1;
      NoneEvictedUnlessShrinking(o, steps[..n]);
      ApplyEvictsNone(History(o, steps[..n]), o, steps[n]);
    }
  }

  // ------------------------------------------------------------- recorded sizes

  /** The target showed feature `f` among the first features of a run. */
  ghost predicate Hit(features: seq<nat>, f: nat) {
    exists k :: 0 <= k < |features| && features[k] % FEATURES == f
  }

  ghost predicate Shows(s: Step, f: nat) {
    s.Run? && s.unit != [] && Hit(s.features, f)
  }

  ghost function Recorded(known: nat, size: nat, shrink: bool): nat {
    if known == 0 || (shrink && known > size) then size else known
  }

  lemma {:induction false} CollectSizes(c: Corpus, o: Options, features: seq<nat>, size: nat, input: nat, start: nat,
                                        f: nat)
    requires Mid(c, size, start) && size > 0 && f < FEATURES
    ensures Collect(c, o, features, size, input, start).sizes[f]
         == if Hit(features, f) then Recorded(c.sizes[f], size, o.shrink) else c.sizes[f]
  {
    if features != [] {
      var n := |features| - 1;
      var d := Collect(c, o, features[..n], size, input, start);
      CollectSizes(c, o, features[..n], size, input, start, f);
      CollectOneKeeps(d, o, features[n], size, input, start);
      CountFeatureKeepsAccount(AddFeature(d, o, features[n], size).0, input, features[n]);
      HitLast(features, f);
    }
  }

  lemma HitLast(features: seq<nat>, f: nat)
    requires features != []
    ensures Hit(features, f) <==> Hit(features[..|features| - 1], f) || features[|features| - 1] % FEATURES == f
  {
    var front := features[..|features| - 1];
    if Hit(front, f) {
      var k :| 0 <= k < |front| && front[k] % FEATURES == f;
      assert features[k] == front[k];
    }
    if k :| 0 <= k < |front| && features[k] % FEATURES == f {
      assert front[k] == features[k];
    }
  }

  lemma ApplySizes(c: Corpus, o: Options, s: Step, f: nat)
    requires Inv(c) && f < FEATURES
    ensures Inv(Apply(c, o, s))
    ensures Apply(c, o, s).sizes[f] == if Shows(s, f) then Recorded(c.sizes[f], |s.unit|, o.shrink) else c.sizes[f]
  {
    ApplyKeeps(c, o, s);
    if s.Run? && s.unit != [] {
      RunStarts(c, |s.unit|);
      CollectSizes(c, o, s.features, |s.unit|, s.input, c.updated, f);
    }
  }

  /** `size` is the right record for `f`: none when no run showed it; else, when
      shrinking, the size of the smallest unit that did, and otherwise of the first. */
  ghost predicate IsRecord(o: Options, steps: seq<Step>, f: nat, size: nat) {
    if forall k :: 0 <= k < |steps| ==> !Shows(steps[k], f) then size == 0
    else exists k {:trigger IsBest(o, steps, f, k)} ::
      0 <= k < |steps| && IsBest(o, steps, f, k) && |steps[k].unit| == size
  }

  ghost predicate IsBest(o: Options, steps: seq<Step>, f: nat, k: nat) {
    && k < |steps| && Shows(steps[k], f)
    && forall j :: 0 <= j < |steps| && Shows(steps[j], f) ==>
         if o.shrink then |steps[k].unit| <= |steps[j].unit| else k <= j
  }

  lemma BestMoves(o: Options, steps: seq<Step>, s: Step, f: nat, size: nat)
    requires IsRecord(o, steps, f, size)
    ensures IsRecord(o, steps + [s], f, if Shows(s, f) then Recorded(size, |s.unit|, o.shrink) else size)
  {
    var n, after := |steps|, steps + [s];
    assert forall k :: 0 <= k < n ==> after[k] == steps[k];
    assert after[n] == s;
    if forall k :: 0 <= k < n ==> !Shows(steps[k], f) {
      if Shows(s, f) {
        assert IsBest(o, after, f, n);
      }
    } else {
      var k :| 0 <= k < n && IsBest(o, steps, f, k) && |steps[k].unit| == size;
      assert Shows(after[k], f);
      assert IsBest(o, after, f, if Shows(s, f) && o.shrink && size > |s.unit| then n else k);
    }
  }

  /** After every history the size recorded for a feature is the right one, and as
      many features count as added as were ever shown. */
  lemma {:induction false} SizesAreRecords(o: Options, steps: seq<Step>, f: nat)
    requires f < FEATURES
    ensures IsRecord(o, steps, f, History(o, steps).sizes[f])
  {
    if steps != [] {
      var n := |steps| - 1;
      var c := History(o, steps[..n]);
      SizesAreRecords(o, steps[..n], f);
      ApplySizes(c, o, steps[n], f);
      RecordMoves(o, steps, f, c.sizes[f], Apply(c, o, steps[n]).sizes[f]);
    }
  }

  lemma RecordMoves(o: Options, steps: seq<Step>, f: nat, size: nat, after: nat)
    requires steps != [] && IsRecord(o, steps[..|steps| - 1], f, size)
    requires var s := steps[|steps| - 1]; after == if Shows(s, f) then Recorded(size, |s.unit|, o.shrink) else size
    ensures IsRecord(o, steps, f, after)
  {
    var n := |steps| - 1;
    BestMoves(o, steps[..n], steps[n], f, size);
    assert steps[..n] + [steps[n]] == steps;
  }

  // ------------------------------------------------------------- who owns what

  lemma {:induction false} CollectOwners(c: Corpus, o: Options, features: seq<nat>, size: nat, input: nat, start: nat,
                                         f: nat)
    requires Mid(c, size, start) && size > 0 && f < FEATURES
    ensures Collect(c, o, features, size, input, start).owners[f]
         == if Hit(features, f) && Takes(c, f, size, o.shrink) then |c.inputs| else c.owners[f]
  {
    if features != [] {
      var n := |features| - 1;
      var d := Collect(c, o, features[..n], size, input, start);
      CollectOwners(c, o, features[..n], size, input, start, f);
      CollectSizes(c, o, features[..n], size, input, start, f);
      CollectKeepsUnits(c, o, features[..n], size, input, start);
      CollectOneKeeps(d, o, features[n], size, input, start);
      CollectOneOwner(d, o, features[n], size, input, start, f);
      HitLast(features, f);
    }
  }

  lemma CollectOneOwner(c: Corpus, o: Options, g: nat, size: nat, input: nat, start: nat, f: nat)
    requires Mid(c, size, start) && size > 0 && f < FEATURES
    requires OwnerIsThere(c, g % FEATURES, size, o.shrink) && |AddFeature(c, o, g, size).0.global| == FEATURES
    ensures CollectOne(c, o, g, size, input).owners[f]
         == if g % FEATURES == f && Takes(c, f, size, o.shrink) then |c.inputs| else c.owners[f]
  {
    CountFeatureKeepsAccount(AddFeature(c, o, g, size).0, input, g);
  }

  lemma ApplyOwners(c: Corpus, o: Options, s: Step, f: nat)
    requires Inv(c) && f < FEATURES
    ensures Inv(Apply(c, o, s))
    ensures Apply(c, o, s).owners[f]
         == if Shows(s, f) && Takes(c, f, |s.unit|, o.shrink) then |c.inputs| else c.owners[f]
  {
    ApplyKeeps(c, o, s);
    if s.Run? && s.unit != [] {
      RunStarts(c, |s.unit|);
      CollectOwners(c, o, s.features, |s.unit|, s.input, c.updated, f);
    }
  }

  /** Run `k` is the first of the best runs for `f`. */
  ghost predicate FirstBest(o: Options, steps: seq<Step>, f: nat, k: nat) {
    IsBest(o, steps, f, k) && forall j: nat {:trigger IsBest(o, steps, f, j)} :: j < k ==> !IsBest(o, steps, f, j)
  }

  /** It was so when it came. */
  lemma FirstBestBefore(o: Options, steps: seq<Step>, f: nat, k: nat, n: nat)
    requires FirstBest(o, steps, f, k) && k < n <= |steps|
    ensures FirstBest(o, steps[..n], f, k)
  {
    var front := steps[..n];
    assert forall j :: 0 <= j < n ==> front[j] == steps[j];
    forall j: nat | j < k
      ensures !IsBest(o, front, f, j)
    {
      if IsBest(o, front, f, j) {
        assert Shows(front[j], f) && Shows(front[k], f);
        assert IsBest(o, steps, f, j);
      }
    }
  }

  lemma {:induction false} FirstBestExists(o: Options, steps: seq<Step>, f: nat, k: nat) returns (i: nat)
    requires IsBest(o, steps, f, k)
    ensures FirstBest(o, steps, f, i)
    decreases k
  {
    if j: nat :| j < k && IsBest(o, steps, f, j) {
      i := FirstBestExists(o, steps, f, j);
    } else {
      i := k;
    }
  }

  /** The last step takes `f` over exactly when it is the first best run for it. */
  lemma LastTakes(o: Options, steps: seq<Step>, f: nat, k: nat)
    requires FirstBest(o, steps, f, k) && f < FEATURES
    ensures var n := |steps| - 1;
            k == n <==> Shows(steps[n], f) && Takes(History(o, steps[..n]), f, |steps[n].unit|, o.shrink)
  {
    var front := steps[..|steps| - 1];
    SizesAreRecords(o, front, f);
    BestTakes(o, steps, front, f, k, History(o, front).sizes[f]);
  }

  lemma BestTakes(o: Options, steps: seq<Step>, front: seq<Step>, f: nat, k: nat, size: nat)
    requires FirstBest(o, steps, f, k) && front == steps[..|steps| - 1] && IsRecord(o, front, f, size)
    ensures var n := |steps| - 1;
            k == n <==> Shows(steps[n], f) && (size == 0 || (o.shrink && size > |steps[n].unit|))
  {
    var n := |front|;
    assert k < n ==> Shows(front[k], f);
    if exists j :: 0 <= j < n && Shows(front[j], f) {
      var i :| 0 <= i < n && IsBest(o, front, f, i) && |front[i].unit| == size;
      assert steps[i] == front[i];
      assert i < k ==> !IsBest(o, steps, f, i);
      LaterIsBetter(o, steps, front, f, i, k);
    }
  }

  /** If the last step comes first among the best, it beats the best one before. */
  lemma LaterIsBetter(o: Options, steps: seq<Step>, front: seq<Step>, f: nat, i: nat, k: nat)
    requires FirstBest(o, steps, f, k) && front == steps[..|steps| - 1] && IsBest(o, front, f, i)
    ensures k == |front| ==> o.shrink && |steps[k].unit| < |steps[i].unit|
  {
    if k == |front| {
      assert steps[i] == front[i] && !IsBest(o, steps, f, i);
      assert forall j :: 0 <= j < |front| ==> front[j] == steps[j];
    }
  }

  /** After every history a feature is owned by the input that the first best run for
      it added. */
  lemma {:induction false} OwnerIsFirstBest(o: Options, steps: seq<Step>, f: nat, k: nat, before: seq<Step>)
    requires FirstBest(o, steps, f, k) && f < FEATURES && before == steps[..k]
    ensures History(o, steps).owners[f] == |History(o, before).inputs|
    decreases |steps|
  {
    var n := |steps| - 1;
    LastOwns(o, steps, f, k, History(o, steps[..n]));
    if k < n {
      FirstBestBefore(o, steps, f, k, n);
      OwnerIsFirstBest(o, steps[..n], f, k, before);
    }
  }

  lemma LastOwns(o: Options, steps: seq<Step>, f: nat, k: nat, c: Corpus)
    requires FirstBest(o, steps, f, k) && f < FEATURES && c == History(o, steps[..|steps| - 1])
    ensures History(o, steps).owners[f] == if k == |steps| - 1 then |c.inputs| else c.owners[f]
  {
    LastTakes(o, steps, f, k);
    ApplyOwners(c, o, steps[|steps| - 1], f);
  }

  /** Run `k` added an input, the one with this index. */
  ghost predicate AddedBy(o: Options, steps: seq<Step>, k: nat, i: nat) {
    k < |steps| && |History(o, steps[..k]).inputs| == i < |History(o, steps[..k + 1]).inputs|
  }

  /** A run that is the best for a feature when it comes adds an input. */
  lemma BestIsAdded(o: Options, steps: seq<Step>, f: nat, k: nat)
    requires k < |steps| && FirstBest(o, steps[..k + 1], f, k) && f < FEATURES
    ensures AddedBy(o, steps, k, |History(o, steps[..k]).inputs|)
  {
    var now := steps[..k + 1];
    OwnerIsFirstBest(o, now, f, k, steps[..k]);
    ShownIsRepresented(o, now, k, f);
  }

  lemma AddedLater(o: Options, steps: seq<Step>, j: nat, k: nat, a: nat, b: nat)
    requires AddedBy(o, steps, j, a) && AddedBy(o, steps, k, b) && j < k
    ensures a < b
  {
    HistoryLater(o, steps[..k], j + 1);
    assert steps[..k][..j + 1] == steps[..j + 1];
  }

  lemma AddedOnce(o: Options, steps: seq<Step>, j: nat, k: nat, i: nat)
    requires AddedBy(o, steps, j, i) && AddedBy(o, steps, k, i)
    ensures j == k
  {
    if j < k {
      AddedLater(o, steps, j, k, i, i);
    } else if k < j {
      AddedLater(o, steps, k, j, i, i);
    }
  }

  /** The features for which run `k` is the first best one. */
  ghost function BestFor(o: Options, steps: seq<Step>, k: nat): set<nat> {
    set f: nat | f < FEATURES && FirstBest(o, steps, f, k)
  }

  /** An input owns the features for which its run is the first best, and `NumFeatures`
      is their number. */
  lemma OwnsWhatItIsBestFor(o: Options, steps: seq<Step>, k: nat, i: nat)
    requires AddedBy(o, steps, k, i)
    ensures var c := History(o, steps);
            && i < |c.inputs| && Owned(c.sizes, c.owners, i) == BestFor(o, steps, k)
            && c.inputs[i].numFeatures == |BestFor(o, steps, k)|
  {
    var c := History(o, steps);
    HistoryLater(o, steps, k + 1);
    forall f: nat | f < FEATURES
      ensures c.sizes[f] != 0 && c.owners[f] == i <==> FirstBest(o, steps, f, k)
    {
      OwnsIff(o, steps, k, i, f, c.sizes[f], c.owners[f]);
    }
    assert Owned(c.sizes, c.owners, i) == BestFor(o, steps, k);
  }

  lemma OwnsIff(o: Options, steps: seq<Step>, k: nat, i: nat, f: nat, size: nat, owner: nat)
    requires AddedBy(o, steps, k, i) && f < FEATURES
    requires size == History(o, steps).sizes[f] && owner == History(o, steps).owners[f]
    ensures size != 0 && owner == i <==> FirstBest(o, steps, f, k)
  {
    if size != 0 && owner == i {
      var j := OwnerWasBest(o, steps, f);
      AddedOnce(o, steps, j, k, i);
    }
    if FirstBest(o, steps, f, k) {
      OwnerIsFirstBest(o, steps, f, k, steps[..k]);
      BestIsKnown(o, steps, f, k);
    }
  }

  lemma BestIsKnown(o: Options, steps: seq<Step>, f: nat, k: nat)
    requires f < FEATURES && k < |steps| && Shows(steps[k], f)
    ensures History(o, steps).sizes[f] != 0
  {
    SizesAreRecords(o, steps, f);
  }

  lemma SomeBest(o: Options, steps: seq<Step>, f: nat) returns (j: nat)
    requires f < FEATURES && History(o, steps).sizes[f] != 0
    ensures FirstBest(o, steps, f, j)
  {
    SizesAreRecords(o, steps, f);
    var b :| 0 <= b < |steps| && IsBest(o, steps, f, b);
    j := FirstBestExists(o, steps, f, b);
  }

  lemma OwnerWasBest(o: Options, steps: seq<Step>, f: nat) returns (j: nat)
    requires f < FEATURES && History(o, steps).sizes[f] != 0
    ensures FirstBest(o, steps, f, j) && AddedBy(o, steps, j, History(o, steps).owners[f])
  {
    j := SomeBest(o, steps, f);
    OwnerIsFirstBest(o, steps, f, j, steps[..j]);
    FirstBestBefore(o, steps, f, j, j + 1);
    BestIsAdded(o, steps, f, j);
  }

  // ------------------------------------------------------------- who is evicted

  /** An input loses its unit exactly when it loses its last feature. */
  ghost predicate EmptiedWithLast(a: seq<Info>, b: seq<Info>) {
    && |a| <= |b|
    && forall i: nat {:trigger b[i]} :: i < |a| ==>
         && b[i].numFeatures <= a[i].numFeatures
         && (b[i].unit == [] <==> a[i].unit == [] || (a[i].numFeatures > 0 && b[i].numFeatures == 0))
  }

  lemma EmptiedTrans(a: seq<Info>, b: seq<Info>, c: seq<Info>)
    requires EmptiedWithLast(a, b) && EmptiedWithLast(b, c)
    ensures EmptiedWithLast(a, c)
  {
    forall i: nat | i < |a|
      ensures c[i].numFeatures <= a[i].numFeatures
      ensures c[i].unit == [] <==> a[i].unit == [] || (a[i].numFeatures > 0 && c[i].numFeatures == 0)
    {
      assert b[i].numFeatures <= a[i].numFeatures;
    }
  }

  lemma CollectOneEmpties(c: Corpus, o: Options, f: nat, size: nat, input: nat, start: nat)
    requires Mid(c, size, start) && size > 0
    requires OwnerIsThere(c, f % FEATURES, size, o.shrink) && |AddFeature(c, o, f, size).0.global| == FEATURES
    ensures EmptiedWithLast(c.inputs, CollectOne(c, o, f, size, input).inputs)
  {
    var g := f % FEATURES;
    if Takes(c, g, size, o.shrink) && c.sizes[g] == 0 && o.entropic {
      AddRareKeepsAccount(Added(c), o, g);
    }
    CountFeatureKeepsAccount(AddFeature(c, o, f, size).0, input, f);
  }

  lemma {:induction false} CollectEmpties(c: Corpus, o: Options, features: seq<nat>, size: nat, input: nat, start: nat)
    requires Mid(c, size, start) && size > 0
    ensures EmptiedWithLast(c.inputs, Collect(c, o, features, size, input, start).inputs)
  {
    if features != [] {
      var n := |features| - 1;
      var d := Collect(c, o, features[..n], size, input, start);
      CollectEmpties(c, o, features[..n], size, input, start);
      CollectOneKeeps(d, o, features[n], size, input, start);
      CollectOneEmpties(d, o, features[n], size, input, start);
      EmptiedTrans(c.inputs, d.inputs, CollectOne(d, o, features[n], size, input).inputs);
    }
  }

  lemma ApplyEmpties(c: Corpus, o: Options, s: Step)
    requires Inv(c)
    ensures EmptiedWithLast(c.inputs, Apply(c, o, s).inputs)
  {
    if s.Run? && s.unit != [] {
      RunStarts(c, |s.unit|);
      CollectEmpties(c, o, s.features, |s.unit|, s.input, c.updated);
      var d := Collect(c, o, s.features, |s.unit|, s.input, c.updated);
      assert EmptiedWithLast(d.inputs, Apply(c, o, s).inputs);
      EmptiedTrans(c.inputs, d.inputs, Apply(c, o, s).inputs);
    }
  }

  lemma {:induction false} HistoryEmpties(o: Options, steps: seq<Step>, k: nat)
    requires k <= |steps|
    ensures EmptiedWithLast(History(o, steps[..k]).inputs, History(o, steps).inputs)
  {
    var n := |steps|;
    if k == n {
      assert steps[..k] == steps;
    } else {
      HistoryEmpties(o, steps[..n - 1], k);
      assert steps[..n - 1][..k] == steps[..k];
      var c := History(o, steps[..n - 1]);
      ApplyEmpties(c, o, steps[n - 1]);
      EmptiedTrans(History(o, steps[..k]).inputs, c.inputs, History(o, steps).inputs);
    }
  }

  /** Run `k` was the first best for some feature when it came, and is so for none now. */
  ghost predicate Superseded(o: Options, steps: seq<Step>, k: nat) {
    k < |steps| && BestFor(o, steps[..k + 1], k) != {} && BestFor(o, steps, k) == {}
  }

  /** The input a run adds has the unit of the run, and was not mutated yet. */
  lemma NewHasUnit(o: Options, steps: seq<Step>, k: nat, i: nat)
    requires AddedBy(o, steps, k, i)
    ensures var info := History(o, steps[..k + 1]).inputs[i];
            && steps[k].Run? && info.unit == steps[k].unit != []
            && info.focus == steps[k].focus && info.executed == 0 && info.freqs == []
  {
    var now := steps[..k + 1];
    assert now[..k] == steps[..k] && History(o, now) == Apply(History(o, steps[..k]), o, steps[k]);
    var c, s := History(o, steps[..k]), steps[k];
    if s.Run? && s.unit != [] {
      RunStarts(c, |s.unit|);
      CollectKeepsUnits(c, o, s.features, |s.unit|, s.input, c.updated);
    }
  }

  /** An input is evicted exactly when its run was the first best for some feature when
      it came, and no longer is for any. */
  lemma EvictedIff(o: Options, steps: seq<Step>, k: nat, i: nat)
    requires AddedBy(o, steps, k, i)
    ensures i < |History(o, steps).inputs|
    ensures History(o, steps).inputs[i].unit == [] <==> Superseded(o, steps, k)
  {
    var now := steps[..k + 1];
    assert now[..k] == steps[..k] && now[..k + 1] == now;
    OwnsWhatItIsBestFor(o, now, k, i);
    OwnsWhatItIsBestFor(o, steps, k, i);
    NewHasUnit(o, steps, k, i);
    HistoryEmpties(o, steps, k + 1);
  }

  lemma {:induction false} EveryoneWasAdded(o: Options, steps: seq<Step>, i: nat) returns (k: nat)
    requires i < |History(o, steps).inputs|
    ensures AddedBy(o, steps, k, i)
  {
    var n := |steps| - 1;
    if i < |History(o, steps[..n]).inputs| {
      k := EveryoneWasAdded(o, steps[..n], i);
      assert steps[..n][..k] == steps[..k] && steps[..n][..k + 1] == steps[..k + 1];
    } else {
      k := n;
      assert steps[..n + 1] == steps;
      OneAtMost(History(o, steps[..n]), o, steps[n]);
    }
  }

  lemma OneAtMost(c: Corpus, o: Options, s: Step)
    requires Inv(c)
    ensures |Apply(c, o, s).inputs| <= |c.inputs| + 1
  {
    if s.Run? && s.unit != [] {
      RunStarts(c, |s.unit|);
      CollectKeepsUnits(c, o, s.features, |s.unit|, s.input, c.updated);
    }
  }

  /** A uniform draw can meet an evicted input exactly when some run was superseded. */
  lemma SomeEvictedIff(o: Options, steps: seq<Step>)
    ensures SomeEvicted(History(o, steps)) <==> exists k: nat :: Superseded(o, steps, k)
  {
    var c := History(o, steps);
    if i: nat :| i < |c.inputs| && c.inputs[i].unit == [] {
      var k := EveryoneWasAdded(o, steps, i);
      EvictedIff(o, steps, k, i);
    }
    if k: nat :| Superseded(o, steps, k) {
      var f :| f in BestFor(o, steps[..k + 1], k);
      BestIsAdded(o, steps, f, k);
      EvictedIff(o, steps, k, |History(o, steps[..k]).inputs|);
    }
  }

  /** A run of two bytes, superseded by one of one byte that shows the same feature. */
  lemma SmallerRunEvicts(o: Options)
    requires o.shrink
    ensures var steps := [Run([1, 1], [0], 0, false, false, false), Run([1], [0], 0, false, false, false)];
            Superseded(o, steps, 0) && SomeEvicted(History(o, steps))
  {
    var steps := [Run([1, 1], [0], 0, false, false, false), Run([1], [0], 0, false, false, false)];
    assert Shows(steps[0], 0) && Shows(steps[1], 0) by {
      assert [0][0] % FEATURES == 0;
    }
    var first := steps[..1];
    assert first == [steps[0]] && FirstBest(o, first, 0, 0);
    assert 0 in BestFor(o, first, 0);
    forall f: nat | f < FEATURES
      ensures !FirstBest(o, steps, f, 0)
    {
      if Shows(steps[0], f) {
        assert f == 0;
        assert !IsBest(o, steps, 0, 0);
      }
    }
    assert Superseded(o, steps, 0);
    SomeEvictedIff(o, steps);
  }

  /** A unit is kept, lost, or replaced by that of a run that shows the same with less. */
  ghost predicate KeptLostOrReduced(s: Step, i: nat, was: seq<byte>, now: seq<byte>) {
    now == was || now == [] || (s.Run? && s.input == i && s.reduces && now == s.unit && |now| < |was|)
  }

  lemma ApplyUnit(c: Corpus, o: Options, s: Step, i: nat)
    requires Inv(c) && i < |c.inputs|
    ensures i < |Apply(c, o, s).inputs|
    ensures KeptLostOrReduced(s, i, c.inputs[i].unit, Apply(c, o, s).inputs[i].unit)
  {
    if s.Run? && s.unit != [] {
      RunStarts(c, |s.unit|);
      CollectKeepsUnits(c, o, s.features, |s.unit|, s.input, c.updated);
    }
  }

  /** `unit` is that of run `k`, or of a later run `j` that showed with fewer bytes what
      input `i` shows. */
  ghost predicate GivenBy(steps: seq<Step>, i: nat, k: nat, j: nat, unit: seq<byte>) {
    && k <= j < |steps| && steps[k].Run? && steps[j].Run? && unit == steps[j].unit
    && (k < j ==> steps[j].input == i && steps[j].reduces && |unit| < |steps[k].unit|)
  }

  ghost function UnitOf(o: Options, steps: seq<Step>, i: nat): seq<byte> {
    if i < |History(o, steps).inputs| then History(o, steps).inputs[i].unit else []
  }

  lemma AddedStays(o: Options, steps: seq<Step>, k: nat, i: nat, n: nat)
    requires AddedBy(o, steps, k, i) && k < n <= |steps|
    ensures i < |History(o, steps[..n]).inputs|
  {
    var front := steps[..n];
    assert front[..k + 1] == steps[..k + 1];
    HistoryLater(o, front, k + 1);
  }

  lemma UnitMoves(o: Options, steps: seq<Step>, i: nat, n: nat)
    requires n < |steps| && i < |History(o, steps[..n]).inputs|
    ensures KeptLostOrReduced(steps[n], i, UnitOf(o, steps[..n], i), UnitOf(o, steps[..n + 1], i))
  {
    var now := steps[..n + 1];
    assert now[..n] == steps[..n];
    ApplyUnit(History(o, steps[..n]), o, steps[n], i);
  }

  /** What becomes of the unit of run `k`, step by step, while it is not lost. */
  lemma {:induction false} UnitIsGiven(steps: seq<Step>, i: nat, k: nat, units: seq<seq<byte>>, n: nat)
    returns (j: nat)
    requires k < n <= |steps| && |units| == |steps| + 1 && steps[k].Run? && units[k + 1] == steps[k].unit
    requires forall m {:trigger units[m]} :: k < m < n ==> KeptLostOrReduced(steps[m], i, units[m], units[m + 1])
    requires units[n] != []
    ensures GivenBy(steps, i, k, j, units[n])
  {
    if n == k + 1 {
      j := k;
    } else {
      assert KeptLostOrReduced(steps[n - 1], i, units[n - 1], units[n]);
      j := UnitIsGiven(steps, i, k, units, n - 1);
      j := if units[n] == units[n - 1] then j else n - 1;
    }
  }

  /** A unit is that of the run that added the input, or of a later one that reduced it. */
  lemma UnitOrigin(o: Options, steps: seq<Step>, k: nat, i: nat) returns (j: nat)
    requires AddedBy(o, steps, k, i) && UnitOf(o, steps, i) != []
    ensures GivenBy(steps, i, k, j, UnitOf(o, steps, i))
  {
    var units := seq(|steps| + 1, n requires 0 <= n <= |steps| => UnitOf(o, steps[..n], i));
    NewHasUnit(o, steps, k, i);
    assert steps[..|steps|] == steps;
    forall m | k < m < |steps|
      ensures KeptLostOrReduced(steps[m], i, units[m], units[m + 1])
    {
      AddedStays(o, steps, k, i, m);
      UnitMoves(o, steps, i, m);
    }
    j := UnitIsGiven(steps, i, k, units, |steps|);
  }

  ghost predicate EverShown(steps: seq<Step>, f: nat) {
    exists k :: 0 <= k < |steps| && Shows(steps[k], f)
  }

  ghost function Shown(steps: seq<Step>): set<nat> {
    set f: nat | f < FEATURES && EverShown(steps, f)
  }

  lemma AddedCountsShown(o: Options, steps: seq<Step>)
    ensures History(o, steps).added == |Shown(steps)|
  {
    var c := History(o, steps);
    forall f: nat | f < FEATURES
      ensures c.sizes[f] != 0 <==> EverShown(steps, f)
    {
      SizesAreRecords(o, steps, f);
    }
    assert Known(c.sizes) == Shown(steps);
  }

  /** A known feature has an input to represent it: one with a unit, no longer than
      any run's that showed the feature when shrinking. */
  lemma ShownIsRepresented(o: Options, steps: seq<Step>, k: nat, f: nat)
    requires k < |steps| && Shows(steps[k], f) && f < FEATURES
    ensures var c := History(o, steps);
            && c.owners[f] < |c.inputs| && 0 < |c.inputs[c.owners[f]].unit| <= c.sizes[f]
            && (o.shrink ==> |c.inputs[c.owners[f]].unit| <= |steps[k].unit|)
  {
    var c := History(o, steps);
    SizesAreRecords(o, steps, f);
    assert f in Owned(c.sizes, c.owners, c.owners[f]);
    assert c.owners[f] != |c.inputs|;
    assert c.inputs[c.owners[f]].numFeatures > 0;
  }
}
