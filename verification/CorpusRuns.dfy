/** Whole histories of the corpus: executions of the target, mutations, and updates
    of the distribution that inputs are drawn from, in any order. */
module CorpusRuns {
  import opened Bytes
  import opened CorpusModel
  import opened RareFeatures

  const MAX_MUTATION_FACTOR: nat := 20

  /** `Run`: the target ran on `unit`, a mutation of `input` (past the end: of no
      input), and showed `features`; `reduces` says that all features of `input`
      showed up again. `Choose`: the distribution is brought up to date, `energies`
      being what the floating-point schedule assigns. */
  datatype Step =
    | Run(unit: seq<byte>, features: seq<nat>, input: nat, force: bool, reduces: bool, focus: bool)
    | Mutate(input: nat)
    | Choose(energies: seq<real>, skip: bool)

  // ------------------------------------------------------------- weights

  /** The energy of an input, unless it has no features or was fuzzed a lot more than average. */
  function EnergyWeight(info: Info, energy: real, executed: nat, n: nat): real
    requires n > 0
  {
    if info.numFeatures == 0 || info.executed / MAX_MUTATION_FACTOR > executed / n then 0.0 else energy
  }

  function VanillaWeight(info: Info, i: nat): real {
    if info.numFeatures == 0 then 0.0 else ((i + 1) * if info.focus then 1000 else 1) as real
  }

  function EnergyWeights(inputs: seq<Info>, energies: seq<real>, executed: nat, n: nat): (r: seq<real>)
    requires n > 0
    ensures |r| == |inputs|
    ensures forall i :: 0 <= i < |r| ==> r[i] == EnergyWeight(inputs[i], EnergyAt(energies, i), executed, n)
  {
    if inputs == [] then []
    else
      var k := |inputs| - 1;
      EnergyWeights(inputs[..k], energies, executed, n) + [EnergyWeight(inputs[k], EnergyAt(energies, k), executed, n)]
  }

  function EnergyAt(energies: seq<real>, i: nat): real {
    if i < |energies| then energies[i] else 0.0
  }

  function VanillaWeights(inputs: seq<Info>): (r: seq<real>)
    ensures |r| == |inputs| && forall i :: 0 <= i < |r| ==> r[i] == VanillaWeight(inputs[i], i)
  {
    if inputs == [] then []
    else VanillaWeights(inputs[..|inputs| - 1]) + [VanillaWeight(inputs[|inputs| - 1], |inputs| - 1)]
  }

  predicate SomePositive(weights: seq<real>) {
    exists i :: 0 <= i < |weights| && weights[i] > 0.0
  }

  /** The new weights: by energy, or by position when no energy is positive. */
  function NewWeights(c: Corpus, o: Options, energies: seq<real>): (r: seq<real>)
    requires c.inputs != []
  {
    var byEnergy := EnergyWeights(c.inputs, energies, c.executed, |c.inputs|);
    if o.entropic && SomePositive(byEnergy) then byEnergy else VanillaWeights(c.inputs)
  }

  /** Only inputs that own features get a positive weight, and if there are any
      such inputs, one of them gets one. */
  lemma WeightsArePlaced(c: Corpus, o: Options, energies: seq<real>)
    requires c.inputs != []
    ensures var w := NewWeights(c, o, energies);
            && |w| == |c.inputs|
            && (forall i :: 0 <= i < |w| && w[i] > 0.0 ==> c.inputs[i].numFeatures > 0)
            && (SomePositive(w) <==> exists i :: 0 <= i < |c.inputs| && c.inputs[i].numFeatures > 0)
  {
    var w := NewWeights(c, o, energies);
    if i :| 0 <= i < |c.inputs| && c.inputs[i].numFeatures > 0 {
      assert VanillaWeights(c.inputs)[i] > 0.0;
    }
  }

  /** Weights that are not out of date are positive for inputs with a unit only. */
  ghost predicate WeightsInv(c: Corpus) {
    !c.stale ==>
      && |c.weights| == |c.inputs|
      && forall i :: 0 <= i < |c.weights| && c.weights[i] > 0.0 ==> c.inputs[i].unit != []
  }

  // ------------------------------------------------------------- steps

  ghost function Known(sizes: seq<nat>): set<nat> {
    set f: nat | f < |sizes| && sizes[f] != 0
  }

  /** The unit of an owner is no longer than recorded for its features. */
  ghost predicate UnitsFit(inputs: seq<Info>, sizes: seq<nat>, owners: seq<nat>)
    requires |sizes| == |owners|
  {
    forall f: nat {:trigger owners[f]} :: f < |sizes| && sizes[f] != 0 && owners[f] < |inputs| ==>
      |inputs[owners[f]].unit| <= sizes[f]
  }

  ghost predicate Side(c: Corpus)
    requires |c.sizes| == |c.owners|
  {
    && UnitsFit(c.inputs, c.sizes, c.owners) && c.added == |Known(c.sizes)|
    && RareInv(c) && WeightsInv(c)
  }

  /** What holds between the features of a run. */
  ghost predicate Mid(c: Corpus, size: nat, start: nat) {
    Running(c, size, start) && Side(c)
  }

  /** What holds between steps. */
  ghost predicate Inv(c: Corpus) {
    Settled(c) && Side(c)
  }

  function Zeros(n: nat): seq<nat> {
    seq(n, i => 0)
  }

  function Empty(): Corpus {
    Corpus([], Zeros(FEATURES), Zeros(FEATURES), Zeros(FEATURES), [], 0, 0, 0, 0, [], true)
  }

  lemma EmptyIsFine()
    ensures Inv(Empty())
  {
    var c := Empty();
    assert Owned(c.sizes, c.owners, 0) == {} && Known(c.sizes) == {};
    assert Settled(c);
  }

  lemma AddFeatureSide(c: Corpus, o: Options, idx: nat, size: nat, start: nat)
    requires Mid(c, size, start) && size > 0
    ensures OwnerIsThere(c, idx % FEATURES, size, o.shrink)
    ensures Side(AddFeature(c, o, idx, size).0)
  {
    var f, n := idx % FEATURES, |c.inputs|;
    OwnerExists(c, o, f, size, start);
    AddFeatureRare(c, o, idx, size);
    var d := AddFeature(c, o, idx, size).0;
    if Takes(c, f, size, o.shrink) {
      VacateAccounts(c, o, f);
      VacateWeights(c, o, f);
      VacateAdds(c, o, f);
      UnitsStillFit(c.inputs, d.inputs, c.sizes, c.owners, f, size);
      KnownGrows(c.sizes, f, size);
    }
  }

  lemma KnownGrows(sizes: seq<nat>, f: nat, size: nat)
    requires f < |sizes| && size > 0
    ensures |Known(sizes[f := size])| == |Known(sizes)| + if sizes[f] == 0 then 1 else 0
  {
    assert Known(sizes[f := size]) == if sizes[f] == 0 then Known(sizes) + {f} else Known(sizes);
  }

  lemma UnitsStillFit(inputs: seq<Info>, after: seq<Info>, sizes: seq<nat>, owners: seq<nat>, f: nat, size: nat)
    requires f < |sizes| == |owners| && UnitsFit(inputs, sizes, owners) && Vacated(inputs, after, sizes, owners, f)
    ensures UnitsFit(after, sizes[f := size], owners[f := |inputs|])
  {
    forall g: nat | g < |sizes| && g != f && sizes[g] != 0 && owners[g] < |inputs|
      ensures |after[owners[g]].unit| <= sizes[g]
    {
      assert |after[owners[g]].unit| <= |inputs[owners[g]].unit|;
    }
  }

  lemma VacateAdds(c: Corpus, o: Options, f: nat)
    requires f < |c.sizes| == |c.owners| == |c.global|
    requires c.sizes[f] > 0 ==> c.owners[f] < |c.inputs| && c.inputs[c.owners[f]].numFeatures > 0
    ensures Vacate(c, o, f).added == c.added + if c.sizes[f] == 0 then 1 else 0
  {
    if c.sizes[f] == 0 && o.entropic {
      AddRareKeepsAccount(Added(c), o, f);
    }
  }

  lemma VacateWeights(c: Corpus, o: Options, f: nat)
    requires f < |c.sizes| == |c.owners| == |c.global| && WeightsInv(c)
    requires c.sizes[f] > 0 ==> c.owners[f] < |c.inputs| && c.inputs[c.owners[f]].numFeatures > 0
    ensures WeightsInv(Vacate(c, o, f))
  {
  }

  lemma CountFeatureKeepsAccount(c: Corpus, ii: nat, idx: nat)
    requires |c.global| == FEATURES
    ensures OnlyFrequencies(c, CountFeature(c, ii, idx))
    ensures CountFeature(c, ii, idx).rare == c.rare && CountFeature(c, ii, idx).stale == c.stale
  {
  }

  lemma CountFeatureSide(c: Corpus, ii: nat, idx: nat, size: nat, start: nat)
    requires Mid(c, size, start)
    ensures Mid(CountFeature(c, ii, idx), size, start)
  {
    CountFeatureRare(c, ii, idx);
    CountFeatureKeepsAccount(c, ii, idx);
  }

  /** One feature of a run is added, and counted under the entropic schedule. */
  function CollectOne(c: Corpus, o: Options, f: nat, size: nat, input: nat): Corpus
    requires Shaped(c) && OwnerIsThere(c, f % FEATURES, size, o.shrink)
    requires |AddFeature(c, o, f, size).0.global| == FEATURES
  {
    var d := AddFeature(c, o, f, size).0;
    if o.entropic then CountFeature(d, input, f) else d
  }

  lemma CollectOneKeeps(c: Corpus, o: Options, f: nat, size: nat, input: nat, start: nat)
    requires Mid(c, size, start) && size > 0
    ensures OwnerIsThere(c, f % FEATURES, size, o.shrink) && |AddFeature(c, o, f, size).0.global| == FEATURES
    ensures Mid(CollectOne(c, o, f, size, input), size, start)
  {
    AddFeatureSide(c, o, f, size, start);
    AddFeatureRuns(c, o, f, size, start);
    if o.entropic {
      CountFeatureSide(AddFeature(c, o, f, size).0, input, f, size, start);
    }
  }

  function Collect(c: Corpus, o: Options, features: seq<nat>, size: nat, input: nat, ghost start: nat): (r: Corpus)
    requires Mid(c, size, start) && size > 0
    ensures Mid(r, size, start)
  {
    if features == [] then c
    else
      var n := |features| - 1;
      var d := Collect(c, o, features[..n], size, input, start);
      CollectOneKeeps(d, o, features[n], size, input, start);
      CollectOne(d, o, features[n], size, input)
  }

  lemma RunStarts(c: Corpus, size: nat)
    requires Inv(c)
    ensures Mid(c, size, c.updated)
  {
  }

  lemma NothingFound(c: Corpus, size: nat)
    requires Mid(c, size, c.updated)
    ensures Inv(c)
  {
    assert Settled(c);
  }

  /** A run with features of its own, or a forced one, becomes an input; one that
      shows all the features of a longer input replaces its unit. */
  function EndRun(d: Corpus, s: Step, start: nat): Corpus
    requires s.Run? && start <= d.updated
  {
    if d.updated != start || s.force then AddToCorpus(d, s.unit, d.updated - start, s.focus)
    else if s.input < |d.inputs| && s.reduces && |d.inputs[s.input].unit| > |s.unit| then Replace(d, s.input, s.unit)
    else d
  }

  /** Whether such a run adds an input or replaces a unit. */
  predicate Keeps(d: Corpus, s: Step, start: nat)
    requires s.Run?
  {
    d.updated != start || s.force || (s.input < |d.inputs| && s.reduces && |d.inputs[s.input].unit| > |s.unit|)
  }

  predicate Interesting(c: Corpus, o: Options, s: Step)
    requires Inv(c) && s.Run?
  {
    s.unit != [] && (RunStarts(c, |s.unit|);
                     Keeps(Collect(c, o, s.features, |s.unit|, s.input, c.updated), s, c.updated))
  }

  function RunOne(c: Corpus, o: Options, s: Step): Corpus
    requires Inv(c) && s.Run?
  {
    if s.unit == [] then c
    else
      RunStarts(c, |s.unit|);
      EndRun(Collect(c, o, s.features, |s.unit|, s.input, c.updated), s, c.updated)
  }

  function Mutated(c: Corpus, input: nat): Corpus
    requires input < |c.inputs|
  {
    c.(inputs := c.inputs[input := c.inputs[input].(executed := c.inputs[input].executed + 1)],
       executed := c.executed + 1)
  }

  /** Weights that are not out of date may be kept, under the entropic schedule by chance. */
  function UpdateDistribution(c: Corpus, o: Options, energies: seq<real>, skip: bool): Corpus
    requires c.inputs != []
  {
    if !c.stale && (!o.entropic || skip) then c else c.(stale := false, weights := NewWeights(c, o, energies))
  }

  /** Whether the energy of an input counts: it has features, and was not fuzzed a lot
      more than average. */
  predicate Energized(c: Corpus, i: nat) {
    && i < |c.inputs| && c.inputs[i].numFeatures > 0
    && c.inputs[i].executed / 20 <= c.executed / |c.inputs|
  }

  /** When some energy that counts is positive, the energies are the weights; else an
      input with features weighs as much as its place, counted from one, and a
      thousandfold when it touches the focus function. */
  lemma WeightsMean(c: Corpus, o: Options, energies: seq<real>, skip: bool)
    requires c.inputs != [] && |energies| == |c.inputs|
    ensures var d := UpdateDistribution(c, o, energies, skip);
            && d == c.(stale := d.stale, weights := d.weights) && !d.stale
            && (!c.stale && (skip || !o.entropic) ==> d == c)
            && (c.stale || (!skip && o.entropic) ==>
                && |d.weights| == |c.inputs|
                && if o.entropic && exists i: nat :: Energized(c, i) && energies[i] > 0.0 then
                     forall i: nat :: i < |c.inputs| ==> d.weights[i] == if Energized(c, i) then energies[i] else 0.0
                   else
                     forall i: nat {:trigger d.weights[i]} :: i < |c.inputs| ==>
                       d.weights[i] == if c.inputs[i].numFeatures == 0 then 0.0
                                       else if c.inputs[i].focus then (1000 * (i + 1)) as real
                                       else (i + 1) as real)
  {
    var byEnergy := EnergyWeights(c.inputs, energies, c.executed, |c.inputs|);
    forall i: nat | i < |c.inputs|
      ensures byEnergy[i] == if Energized(c, i) then energies[i] else 0.0
    {
    }
    if i: nat :| Energized(c, i) && energies[i] > 0.0 {
      assert byEnergy[i] > 0.0;
    }
  }

  lemma EndRunKeeps(d: Corpus, s: Step, start: nat)
    requires s.Run? && s.unit != [] && Mid(d, |s.unit|, start)
    ensures Inv(EndRun(d, s, start))
  {
    if d.updated != start || s.force {
      AddKeeps(d, s.unit, s.focus, start);
    } else {
      NothingFound(d, |s.unit|);
      if s.input < |d.inputs| && s.reduces && |d.inputs[s.input].unit| > |s.unit| {
        ReplaceKeeps(d, s.input, s.unit);
      }
    }
  }

  lemma RunOneKeeps(c: Corpus, o: Options, s: Step)
    requires Inv(c) && s.Run?
    ensures Inv(RunOne(c, o, s))
  {
    if s.unit != [] {
      RunStarts(c, |s.unit|);
      EndRunKeeps(Collect(c, o, s.features, |s.unit|, s.input, c.updated), s, c.updated);
    }
  }

  lemma AddKeeps(d: Corpus, unit: seq<byte>, focus: bool, start: nat)
    requires Mid(d, |unit|, start) && unit != []
    ensures Inv(AddToCorpus(d, unit, d.updated - start, focus))
  {
    var n := |d.inputs|;
    AddToCorpusRare(d, unit, d.updated - start, focus);
    var e := AddToCorpus(d, unit, d.updated - start, focus);
    assert Owned(e.sizes, e.owners, n + 1) == {};
    assert OwnersExist(e.sizes, e.owners, n + 1);
    AddFits(d.inputs, e.inputs, d.sizes, d.owners, |unit|, d.updated - start);
    assert Settled(e);
  }

  lemma AddFits(inputs: seq<Info>, after: seq<Info>, sizes: seq<nat>, owners: seq<nat>, size: nat, updates: nat)
    requires |sizes| == |owners| && |after| == |inputs| + 1 && after[..|inputs|] == inputs
    requires UnitsFit(inputs, sizes, owners) && OwnersExist(sizes, owners, |inputs|)
    requires Pending(sizes, owners, |inputs|, size, updates) && |after[|inputs|].unit| == size
    ensures UnitsFit(after, sizes, owners)
  {
    var n := |inputs|;
    forall f: nat | f < |sizes| && sizes[f] != 0 && owners[f] < n + 1
      ensures |after[owners[f]].unit| <= sizes[f]
    {
      if owners[f] == n {
        assert f in Owned(sizes, owners, n);
      } else {
        assert after[owners[f]] == inputs[owners[f]];
      }
    }
  }

  lemma ReplaceKeeps(d: Corpus, i: nat, unit: seq<byte>)
    requires Inv(d) && i < |d.inputs| && |d.inputs[i].unit| > |unit| && unit != []
    ensures Inv(Replace(d, i, unit))
  {
    var e := Replace(d, i, unit);
    CountedForSame(d.inputs, e.inputs, d.global, d.rare);
    assert Settled(e);
  }

  lemma MutatedKeeps(c: Corpus, i: nat)
    requires Inv(c) && i < |c.inputs|
    ensures Inv(Mutated(c, i))
  {
    var d := Mutated(c, i);
    CountedForSame(c.inputs, d.inputs, c.global, c.rare);
    assert Settled(d);
  }

  /** After an update of the distribution an input drawn with positive weight has a
      unit, although the weights may be older than the corpus. */
  lemma ChosenUnitIsNotEmpty(c: Corpus, o: Options, energies: seq<real>, skip: bool, i: nat)
    requires Inv(c) && c.inputs != [] && i < |UpdateDistribution(c, o, energies, skip).weights|
    requires UpdateDistribution(c, o, energies, skip).weights[i] > 0.0
    ensures i < |c.inputs| && c.inputs[i].unit != []
  {
    WeightsArePlaced(c, o, energies);
  }

  lemma UpdateDistributionKeeps(c: Corpus, o: Options, energies: seq<real>, skip: bool)
    requires Inv(c) && c.inputs != []
    ensures Inv(UpdateDistribution(c, o, energies, skip))
  {
    WeightsArePlaced(c, o, energies);
    assert Settled(UpdateDistribution(c, o, energies, skip));
  }

  /** Steps that name an input that is not there do not happen. */
  function Apply(c: Corpus, o: Options, s: Step): Corpus
    requires Inv(c)
  {
    match s
    case Run(_, _, _, _, _, _) => RunOne(c, o, s)
    case Mutate(input) => if input < |c.inputs| then Mutated(c, input) else c
    case Choose(energies, skip) => if c.inputs != [] then UpdateDistribution(c, o, energies, skip) else c
  }

  lemma ApplyKeeps(c: Corpus, o: Options, s: Step)
    requires Inv(c)
    ensures Inv(Apply(c, o, s))
  {
    match s {
      case Run(_, _, _, _, _, _) => RunOneKeeps(c, o, s);
      case Mutate(input) => if input < |c.inputs| { MutatedKeeps(c, input); }
      case Choose(energies, skip) => if c.inputs != [] { UpdateDistributionKeeps(c, o, energies, skip); }
    }
  }

  /** The corpus after `steps`, from the empty one. Every history keeps the invariant:
      accounts, fitting units, local counters covered, weights on units only. */
  function History(o: Options, steps: seq<Step>): (c: Corpus)
    ensures Inv(c)
  {
    if steps == [] then
      EmptyIsFine();
      Empty()
    else
      var n := |steps| - 1;
      var c := History(o, steps[..n]);
      ApplyKeeps(c, o, steps[n]);
      Apply(c, o, steps[n])
  }
}
