/** The corpus as the fuzzer keeps it: inputs behind references, features in fixed
    tables, rare features in a vector. Every method does to the snapshot of this
    state what `CorpusModel` and `CorpusRuns` say. */
module FuzzerCorpus {
  import opened Bytes
  import opened FeatureFreqs
  import opened CorpusModel
  import opened CorpusRuns
  import opened CorpusHistory

  /** `lower_bound` on a sorted vector, by bisection. */
  method FindLowerBound(fs: Freqs, key: nat) returns (k: nat)
    requires Ordered(fs)
    ensures k == LowerBound(fs, key)
  {
    k := 0;
    var hi := |fs|;
    while k < hi
      invariant k <= hi <= |fs|
      invariant forall i :: 0 <= i < k ==> fs[i].0 < key
      invariant forall i :: hi <= i < |fs| ==> fs[i].0 >= key
    {
      var mid := (k + hi) / 2;
      if fs[mid].0 < key {
        k := mid + 1;
      } else {
        hi := mid;
      }
    }
    PositionIsUnique(fs, key, k);
  }

  class InputInfo {
    var U: seq<byte>
    var NumFeatures: nat
    var Tmp: nat
    var FeatureFreqs: Freqs
    var HasFocusFunction: bool
    var NumExecutedMutations: nat

    function Value(): Info
      reads this
    {
      Info(U, NumFeatures, FeatureFreqs, HasFocusFunction, NumExecutedMutations)
    }

    constructor (unit: seq<byte>, numFeatures: nat, focus: bool)
      ensures Value() == Info(unit, numFeatures, [], focus, 0)
    {
      U, NumFeatures, Tmp, FeatureFreqs, HasFocusFunction, NumExecutedMutations := unit, numFeatures, 0, [], focus, 0;
    }

    /** Delete feature `idx` and its frequency. */
    method DeleteFeatureFreq(idx: nat) returns (deleted: bool)
      requires Ordered(FeatureFreqs)
      modifies this`FeatureFreqs
      ensures FeatureFreqs == Delete(old(FeatureFreqs), idx) && deleted == Has(old(FeatureFreqs), idx)
    {
      if FeatureFreqs == [] {
        return false;
      }
      var lower := FindLowerBound(FeatureFreqs, idx);
      if lower < |FeatureFreqs| && FeatureFreqs[lower].0 == idx {
        FeatureFreqs := FeatureFreqs[..lower] + FeatureFreqs[lower + 1..];
        return true;
      }
      return false;
    }

    /** Increment the frequency of feature `idx`. */
    method UpdateFeatureFrequency(idx: nat)
      requires Ordered(FeatureFreqs)
      modifies this`FeatureFreqs
      ensures FeatureFreqs == Bump(old(FeatureFreqs), idx)
    {
      if FeatureFreqs == [] {
        FeatureFreqs := [(idx, 1)];
        return;
      }
      var lower := FindLowerBound(FeatureFreqs, idx);
      if lower < |FeatureFreqs| && FeatureFreqs[lower].0 == idx {
        FeatureFreqs := FeatureFreqs[lower := (idx, (FeatureFreqs[lower].1 + 1) % COUNTER)];
      } else {
        FeatureFreqs := FeatureFreqs[..lower] + [(idx, 1)] + FeatureFreqs[lower..];
      }
    }
  }

  function Infos(inputs: seq<InputInfo>): (r: seq<Info>)
    reads inputs
    ensures |r| == |inputs| && forall i :: 0 <= i < |r| ==> r[i] == inputs[i].Value()
  {
    seq(|inputs|, i requires 0 <= i < |inputs| reads inputs => inputs[i].Value())
  }

  ghost predicate DistinctObjects(inputs: seq<InputInfo>) {
    forall i, j :: 0 <= i < j < |inputs| ==> inputs[i] != inputs[j]
  }

  ghost predicate Sorted(inputs: seq<Info>) {
    forall i :: 0 <= i < |inputs| ==> Ordered(inputs[i].freqs)
  }

  lemma StillRare(rare: seq<nat>, pos: nat)
    requires pos < |rare|
    ensures forall r :: r in RemoveAt(rare, pos) ==> r in rare
  {
  }

  lemma ForgottenEverywhere(was: seq<Info>, after: seq<Info>, idx: nat)
    requires Sorted(was) && |after| == |was|
    requires forall i :: 0 <= i < |was| ==> after[i] == was[i].(freqs := Delete(was[i].freqs, idx))
    ensures after == DropAll(was, idx) && Sorted(after)
  {
    forall i | 0 <= i < |was|
      ensures Ordered(after[i].freqs)
    {
      DeleteForgets(was[i].freqs, idx, idx);
    }
  }

  lemma OwnedSoFar(sizes: seq<nat>, owners: seq<nat>, f: nat, i: nat)
    requires f < |sizes| == |owners|
    ensures |Owned(sizes[..f + 1], owners, i)| == |Owned(sizes[..f], owners, i)| + Loss(sizes, owners, f, i)
  {
    var before, after := Owned(sizes[..f], owners, i), Owned(sizes[..f + 1], owners, i);
    assert after == if Loss(sizes, owners, f, i) == 1 then before + {f} else before;
  }

  class InputCorpus {
    const Opts: Options
    const InputSizesPerFeature: array<nat>
    const SmallestElementPerFeature: array<nat>
    const GlobalFeatureFreqs: array<nat>
    var Inputs: seq<InputInfo>
    var RareFeatures: seq<nat>
    var FreqOfMostAbundantRareFeature: nat
    var NumAddedFeatures: nat
    var NumUpdatedFeatures: nat
    var NumExecutedMutations: nat
    var Weights: seq<real>
    var DistributionNeedsUpdate: bool

    ghost predicate Valid()
      reads this
    {
      && InputSizesPerFeature.Length == SmallestElementPerFeature.Length == GlobalFeatureFreqs.Length == FEATURES
      && InputSizesPerFeature != SmallestElementPerFeature
      && SmallestElementPerFeature != GlobalFeatureFreqs
      && GlobalFeatureFreqs != InputSizesPerFeature
      && DistinctObjects(Inputs)
    }

    ghost function Snapshot(): (c: Corpus)
      reads this, Inputs, InputSizesPerFeature, SmallestElementPerFeature, GlobalFeatureFreqs
    {
      Corpus(Infos(Inputs), InputSizesPerFeature[..], SmallestElementPerFeature[..], GlobalFeatureFreqs[..],
             RareFeatures, FreqOfMostAbundantRareFeature, NumAddedFeatures, NumUpdatedFeatures, NumExecutedMutations,
             Weights, DistributionNeedsUpdate)
    }

    constructor (options: Options)
      ensures Valid() && Opts == options && Snapshot() == Empty()
      ensures fresh(InputSizesPerFeature) && fresh(SmallestElementPerFeature) && fresh(GlobalFeatureFreqs) &&
              Inputs == []
    {
      Opts := options;
      InputSizesPerFeature := new nat[FEATURES](i => 0);
      SmallestElementPerFeature := new nat[FEATURES](i => 0);
      GlobalFeatureFreqs := new nat[FEATURES](i => 0);
      Inputs, RareFeatures, FreqOfMostAbundantRareFeature := [], [], 0;
      NumAddedFeatures, NumUpdatedFeatures, NumExecutedMutations := 0, 0, 0;
      Weights, DistributionNeedsUpdate := [], true;
      new;
      assert InputSizesPerFeature[..] == Zeros(FEATURES);
      assert SmallestElementPerFeature[..] == Zeros(FEATURES);
      assert GlobalFeatureFreqs[..] == Zeros(FEATURES);
    }

    method ForgetFeature(idx: nat, ghost c: Corpus)
      requires Valid() && Snapshot() == c && Sorted(c.inputs)
      modifies Inputs
      ensures Valid() && Snapshot() == c.(inputs := DropAll(c.inputs, idx)) && Sorted(DropAll(c.inputs, idx))
    {
      for i := 0 to |Inputs|
        invariant Snapshot() == c.(inputs := Infos(Inputs))
        invariant forall j :: 0 <= j < i ==> Inputs[j].Value() == c.inputs[j].(freqs := Delete(c.inputs[j].freqs, idx))
        invariant forall j :: i <= j < |Inputs| ==> Inputs[j].Value() == c.inputs[j]
      {
        assert Ordered(c.inputs[i].freqs);
        assert forall j :: 0 <= j < |Inputs| && j != i ==> Inputs[j] != Inputs[i];
        var _ := Inputs[i].DeleteFeatureFreq(idx);
      }
      ForgottenEverywhere(c.inputs, Infos(Inputs), idx);
    }

    method FindMostAbundant() returns (first: nat, second: nat, delete: nat)
      requires Valid() && RareFeatures != [] && forall r :: r in RareFeatures ==> r < FEATURES
      ensures Leaders(first, second, delete)
           == MostAbundant(RareFeatures, GlobalFeatureFreqs[..], 0, Leaders(RareFeatures[0], RareFeatures[0], 0))
      ensures first in RareFeatures && second in RareFeatures
    {
      first, second, delete := RareFeatures[0], RareFeatures[0], 0;
      for i := 0 to |RareFeatures|
        invariant delete < |RareFeatures| && RareFeatures[delete] == first && second in RareFeatures
        invariant MostAbundant(RareFeatures, GlobalFeatureFreqs[..], 0, Leaders(RareFeatures[0], RareFeatures[0], 0))
               == MostAbundant(RareFeatures, GlobalFeatureFreqs[..], i, Leaders(first, second, delete))
      {
        var idx := RareFeatures[i];
        assert idx in RareFeatures && first in RareFeatures;
        if GlobalFeatureFreqs[idx] >= GlobalFeatureFreqs[first] {
          second, first, delete := first, idx, i;
        }
      }
    }

    method EvictMostAbundant(ghost c: Corpus)
      requires Valid() && Snapshot() == c && Sorted(c.inputs) && c.rare != []
      requires forall r :: r in c.rare ==> r < FEATURES
      modifies this`RareFeatures, this`FreqOfMostAbundantRareFeature, Inputs
      ensures Valid() && Snapshot() == EvictOne(c) && Sorted(EvictOne(c).inputs)
      ensures forall r :: r in EvictOne(c).rare ==> r < FEATURES
    {
      var first, second, delete := FindMostAbundant();
      RareFeatures := RareFeatures[delete := RareFeatures[|RareFeatures| - 1]];
      RareFeatures := RareFeatures[..|RareFeatures| - 1];
      FreqOfMostAbundantRareFeature := GlobalFeatureFreqs[second];
      ghost var d := c.(rare := RemoveAt(c.rare, delete), top := GlobalCount(c.global, second));
      assert Snapshot() == d;
      ForgetFeature(first, d);
      StillRare(c.rare, delete);
    }

    method AdmitRareFeature(idx: nat, ghost c: Corpus)
      requires Valid() && Snapshot() == c && idx < FEATURES && Sorted(c.inputs)
      modifies this`RareFeatures, this`DistributionNeedsUpdate, GlobalFeatureFreqs, Inputs
      ensures Valid() && Snapshot() == Admit(c, idx)
    {
      RareFeatures := RareFeatures + [idx];
      GlobalFeatureFreqs[idx] := 0;
      DistributionNeedsUpdate := true;
      ghost var d := c.(rare := c.rare + [idx], global := c.global[idx := 0], stale := true);
      assert Snapshot() == d;
      ForgetFeature(idx, d);
    }

    method AddRareFeature(idx: nat, ghost c: Corpus)
      requires Valid() && Snapshot() == c && idx < FEATURES && Sorted(c.inputs)
      requires forall r :: r in c.rare ==> r < FEATURES
      modifies this`RareFeatures, this`FreqOfMostAbundantRareFeature, this`DistributionNeedsUpdate, GlobalFeatureFreqs,
               Inputs
      ensures Valid() && Snapshot() == AddRare(c, Opts, idx)
    {
      ghost var d := c;
      while |RareFeatures| > Opts.rarest && FreqOfMostAbundantRareFeature > Opts.threshold
        invariant Valid() && Snapshot() == d && Sorted(d.inputs) && forall r :: r in d.rare ==> r < FEATURES
        invariant Evict(d, Opts) == Evict(c, Opts)
        decreases |RareFeatures|
      {
        EvictMostAbundant(d);
        d := EvictOne(d);
      }
      assert d == Evict(c, Opts);
      AdmitRareFeature(idx, d);
    }

    method DeleteInput(idx: nat)
      requires Valid() && idx < |Inputs|
      modifies this`DistributionNeedsUpdate, Inputs[idx]
      ensures Inputs[idx].Value() == old(Inputs[idx].Value()).(unit := []) && DistributionNeedsUpdate
    {
      Inputs[idx].U := [];
      DistributionNeedsUpdate := true;
    }

    method ReleaseFeature(owner: nat, ghost c: Corpus)
      requires Valid() && Snapshot() == c && owner < |c.inputs| && c.inputs[owner].numFeatures > 0
      modifies this`DistributionNeedsUpdate, Inputs[owner]
      ensures Valid() && Snapshot() == Release(c, owner)
    {
      var info := Inputs[owner];
      info.NumFeatures := info.NumFeatures - 1;
      if info.NumFeatures == 0 {
        DeleteInput(owner);
      }
      assert Infos(Inputs) == Release(c, owner).inputs;
    }

    /** Nobody owns feature `idx` any more. */
    method VacateFeature(idx: nat, ghost c: Corpus)
      requires Valid() && Snapshot() == c && Shaped(c) && Sorted(c.inputs) && idx < FEATURES
      requires c.sizes[idx] > 0 ==> c.owners[idx] < |c.inputs| && c.inputs[c.owners[idx]].numFeatures > 0
      modifies this`RareFeatures, this`FreqOfMostAbundantRareFeature, this`DistributionNeedsUpdate,
               this`NumAddedFeatures
      modifies GlobalFeatureFreqs, Inputs
      ensures Valid() && Snapshot() == Vacate(c, Opts, idx)
    {
      var oldIdx := SmallestElementPerFeature[idx];
      assert InputSizesPerFeature[idx] == c.sizes[idx] && oldIdx == c.owners[idx];
      if InputSizesPerFeature[idx] > 0 {
        ReleaseFeature(oldIdx, c);
      } else {
        NumAddedFeatures := NumAddedFeatures + 1;
        assert Snapshot() == Added(c);
        if Opts.entropic {
          AddRareFeature(idx, Added(c));
        }
      }
    }

    /** The run takes feature `idx`. */
    method TakeFeature(idx: nat, newSize: nat, ghost c: Corpus)
      requires Valid() && Snapshot() == c && idx < FEATURES
      modifies this`NumUpdatedFeatures, InputSizesPerFeature, SmallestElementPerFeature
      ensures Valid() && Snapshot() == Take(c, idx, newSize)
    {
      NumUpdatedFeatures := NumUpdatedFeatures + 1;
      SmallestElementPerFeature[idx] := |Inputs|;
      InputSizesPerFeature[idx] := newSize;
      assert Infos(Inputs) == c.inputs;
    }

    method AddFeature(feature: nat, newSize: nat) returns (added: bool)
      requires Valid() && Shaped(Snapshot()) && Sorted(Infos(Inputs)) && newSize > 0
      requires OwnerIsThere(Snapshot(), feature % FEATURES, newSize, Opts.shrink)
      modifies this, InputSizesPerFeature, SmallestElementPerFeature, GlobalFeatureFreqs, Inputs
      ensures Valid() && Inputs == old(Inputs)
      ensures (Snapshot(), added) == CorpusModel.AddFeature(old(Snapshot()), Opts, feature, newSize)
    {
      ghost var c := Snapshot();
      var idx := feature % FEATURES;
      var oldSize := InputSizesPerFeature[idx];
      if oldSize == 0 || (Opts.shrink && oldSize > newSize) {
        VacateFeature(idx, c);
        TakeFeature(idx, newSize, Vacate(c, Opts, idx));
        return true;
      }
      return false;
    }

    /** `ii` is the input the run mutated, at position `i`, or none. Globally every
        feature is counted up to 65535 times; for the input a rare one, while it is not
        more frequent than noted. */
    method UpdateFeatureFrequency(ii: InputInfo?, ghost i: nat, feature: nat)
      requires Valid() && Sorted(Infos(Inputs))
      requires if ii == null then i >= |Inputs| else i < |Inputs| && Inputs[i] == ii
      modifies this`FreqOfMostAbundantRareFeature, GlobalFeatureFreqs, ii
      ensures Valid() && Snapshot() == CountFeature(old(Snapshot()), i, feature)
    {
      ghost var c := Snapshot();
      var idx := feature % FEATURES;
      if GlobalFeatureFreqs[idx] == 0xFFFF {
        return;
      }
      var freq := GlobalFeatureFreqs[idx];
      GlobalFeatureFreqs[idx] := freq + 1;
      assert GlobalFeatureFreqs[..] == c.global[idx := freq + 1];
      assert Infos(Inputs) == c.inputs;
      if freq > FreqOfMostAbundantRareFeature || idx !in RareFeatures {
        return;
      }
      if freq == FreqOfMostAbundantRareFeature {
        FreqOfMostAbundantRareFeature := (FreqOfMostAbundantRareFeature + 1) % COUNTER;
      }
      if ii != null {
        assert Ordered(c.inputs[i].freqs);
        ii.UpdateFeatureFrequency(idx);
        assert Infos(Inputs) == BumpAt(c.inputs, i, idx);
      }
    }

    method AddToCorpus(unit: seq<byte>, numFeatures: nat, focus: bool) returns (ii: InputInfo)
      requires Valid() && unit != []
      modifies this`Inputs, this`DistributionNeedsUpdate
      ensures Valid() && fresh(ii) && Inputs == old(Inputs) + [ii] && DistributionNeedsUpdate
      ensures ii.U == unit && ii.NumFeatures == numFeatures && ii.HasFocusFunction == focus
      ensures ii.NumExecutedMutations == 0 && ii.FeatureFreqs == []
      ensures Snapshot() == CorpusModel.AddToCorpus(old(Snapshot()), unit, numFeatures, focus)
    {
      ghost var was := Infos(Inputs);
      ii := new InputInfo(unit, numFeatures, focus);
      assert Infos(Inputs) == was;
      Inputs := Inputs + [ii];
      assert Infos(Inputs) == was + [ii.Value()];
      DistributionNeedsUpdate := true;
    }

    method Replace(ii: InputInfo, ghost i: nat, unit: seq<byte>)
      requires Valid() && i < |Inputs| && Inputs[i] == ii && |ii.U| > |unit|
      modifies this`DistributionNeedsUpdate, ii`U
      ensures Valid() && ii.U == unit && DistributionNeedsUpdate
      ensures Snapshot() == CorpusModel.Replace(old(Snapshot()), i, unit)
    {
      ghost var c := Snapshot();
      ii.U := unit;
      DistributionNeedsUpdate := true;
      assert Infos(Inputs) == CorpusModel.Replace(c, i, unit).inputs;
    }

    method RecordMutation(ii: InputInfo, ghost i: nat)
      requires Valid() && i < |Inputs| && Inputs[i] == ii
      modifies this`NumExecutedMutations, ii`NumExecutedMutations
      ensures Valid() && ii.NumExecutedMutations == old(ii.NumExecutedMutations) + 1
      ensures NumExecutedMutations == old(NumExecutedMutations) + 1
      ensures Snapshot() == Mutated(old(Snapshot()), i)
    {
      ghost var c := Snapshot();
      ii.NumExecutedMutations := ii.NumExecutedMutations + 1;
      NumExecutedMutations := NumExecutedMutations + 1;
      assert Infos(Inputs) == Mutated(c, i).inputs;
    }

    /** Count the features of every input afresh and compare: `NumFeatures` is right. */
    method ValidateFeatureSet() returns (ok: bool)
      requires Valid() && forall i :: 0 <= i < |Inputs| ==> Inputs[i].Tmp == 0
      requires forall f :: 0 <= f < FEATURES && InputSizesPerFeature[f] != 0 ==> SmallestElementPerFeature[f] < |Inputs|
      modifies Inputs
      ensures Snapshot() == old(Snapshot()) && forall i :: 0 <= i < |Inputs| ==> Inputs[i].Tmp == 0
      ensures ok <==> Accounts(Infos(Inputs), InputSizesPerFeature[..], SmallestElementPerFeature[..])
    {
      ghost var c := Snapshot();
      CountOwned();
      ok := true;
      for i := 0 to |Inputs|
        invariant Snapshot() == c
        invariant forall j :: 0 <= j < i ==> Inputs[j].Tmp == 0
        invariant forall j: nat {:trigger Inputs[j]} :: i <= j < |Inputs| ==>
                    Inputs[j].Tmp == |Owned(c.sizes, c.owners, j)|
        invariant ok <==> forall j: nat {:trigger Owned(c.sizes, c.owners, j)} :: j < i ==>
                    c.inputs[j].numFeatures == |Owned(c.sizes, c.owners, j)|
      {
        var same := CheckCount(i, c);
        ok := ok && same;
      }
    }

    method CheckCount(i: nat, ghost c: Corpus) returns (same: bool)
      requires Valid() && Snapshot() == c && i < |Inputs|
      modifies Inputs[i]
      ensures Snapshot() == c && same == (c.inputs[i].numFeatures == old(Inputs[i].Tmp))
      ensures forall j :: 0 <= j < |Inputs| ==> Inputs[j].Tmp == if j == i then 0 else old(Inputs[j].Tmp)
    {
      var info := Inputs[i];
      assert info.Value() == c.inputs[i];
      same := info.Tmp == info.NumFeatures;
      info.Tmp := 0;
      assert Infos(Inputs) == c.inputs;
    }

    method CountOwned()
      requires Valid() && forall i :: 0 <= i < |Inputs| ==> Inputs[i].Tmp == 0
      requires forall f :: 0 <= f < FEATURES && InputSizesPerFeature[f] != 0 ==> SmallestElementPerFeature[f] < |Inputs|
      modifies Inputs
      ensures Snapshot() == old(Snapshot())
      ensures forall i: nat {:trigger Inputs[i]} :: i < |Inputs| ==>
                Inputs[i].Tmp == |Owned(InputSizesPerFeature[..], SmallestElementPerFeature[..], i)|
    {
      ghost var c := Snapshot();
      forall i: nat | i < |Inputs|
        ensures Owned(c.sizes[..0], c.owners, i) == {}
      {
      }
      for f := 0 to FEATURES
        invariant Snapshot() == c
        invariant forall i: nat {:trigger Inputs[i]} :: i < |Inputs| ==>
                    Inputs[i].Tmp == |Owned(c.sizes[..f], c.owners, i)|
      {
        forall i: nat | i < |Inputs|
          ensures |Owned(c.sizes[..f + 1], c.owners, i)| ==
                    |Owned(c.sizes[..f], c.owners, i)| + Loss(c.sizes, c.owners, f, i)
        {
          OwnedSoFar(c.sizes, c.owners, f, i);
        }
        if InputSizesPerFeature[f] != 0 {
          var info := Inputs[SmallestElementPerFeature[f]];
          info.Tmp := info.Tmp + 1;
        }
        assert Infos(Inputs) == c.inputs;
      }
      assert c.sizes[..FEATURES] == c.sizes;
    }

    /** Bring the weights up to date; `energies` are those of the inputs, and `skip`
        is the chance not to when they are not out of date. */
    method UpdateCorpusDistribution(energies: seq<real>, skip: bool)
      requires Valid() && Inputs != [] && |energies| == |Inputs|
      modifies this`DistributionNeedsUpdate, this`Weights
      ensures Valid() && Snapshot() == UpdateDistribution(old(Snapshot()), Opts, energies, skip)
    {
      if !DistributionNeedsUpdate && (!Opts.entropic || skip) {
        return;
      }
      ghost var c := Snapshot();
      DistributionNeedsUpdate := false;
      ghost var d := c.(stale := false);
      assert Snapshot() == d;
      var vanilla := true;
      if Opts.entropic {
        vanilla := WeighByEnergy(energies, d);
        d := d.(weights := EnergyWeights(c.inputs, energies, c.executed, |c.inputs|));
      }
      if vanilla {
        WeighByPosition(d);
      }
    }

    method WeighByEnergy(energies: seq<real>, ghost c: Corpus) returns (vanilla: bool)
      requires Valid() && Snapshot() == c && Inputs != [] && |energies| == |Inputs|
      modifies this`Weights
      ensures Valid() && Snapshot() == c.(weights := EnergyWeights(c.inputs, energies, c.executed, |c.inputs|))
      ensures vanilla <==> !SomePositive(EnergyWeights(c.inputs, energies, c.executed, |c.inputs|))
    {
      var n := |Inputs|;
      var weights := seq(n, i => 0.0);
      vanilla := true;
      for i := 0 to n
        invariant |weights| == n
        invariant forall j :: 0 <= j < i ==> weights[j] == EnergyWeight(c.inputs[j], energies[j], c.executed, n)
        invariant vanilla <==> forall j :: 0 <= j < i ==> weights[j] <= 0.0
      {
        assert Inputs[i].Value() == c.inputs[i];
        var weight := energies[i];
        if Inputs[i].NumFeatures == 0
           || Inputs[i].NumExecutedMutations / MAX_MUTATION_FACTOR > NumExecutedMutations / n {
          weight := 0.0;
        }
        weights := weights[i := weight];
        if weight > 0.0 {
          vanilla := false;
        }
      }
      assert weights == EnergyWeights(c.inputs, energies, c.executed, n);
      Weights := weights;
    }

    method WeighByPosition(ghost c: Corpus)
      requires Valid() && Snapshot() == c
      modifies this`Weights
      ensures Valid() && Snapshot() == c.(weights := VanillaWeights(c.inputs))
    {
      var n := |Inputs|;
      var weights := seq(n, i => 0.0);
      for i := 0 to n
        invariant |weights| == n
        invariant forall j :: 0 <= j < i ==> weights[j] == VanillaWeight(c.inputs[j], j)
      {
        assert Inputs[i].Value() == c.inputs[i];
        weights := weights[i := if Inputs[i].NumFeatures == 0 then 0.0
                           else ((i + 1) * if Inputs[i].HasFocusFunction then 1000 else 1) as real];
      }
      assert weights == VanillaWeights(c.inputs);
      Weights := weights;
    }

    /** The input to mutate, at an index that the distribution can draw: its unit is
        never empty. */
    method ChooseUnitToMutate(energies: seq<real>, skip: bool, idx: nat) returns (ii: InputInfo)
      requires Valid() && CorpusRuns.Inv(Snapshot()) && Inputs != [] && |energies| == |Inputs|
      requires var w := UpdateDistribution(Snapshot(), Opts, energies, skip).weights; idx < |w| && w[idx] > 0.0
      modifies this`DistributionNeedsUpdate, this`Weights
      ensures Valid() && Snapshot() == UpdateDistribution(old(Snapshot()), Opts, energies, skip)
      ensures ii in Inputs && ii.U != []
    {
      ChosenUnitIsNotEmpty(Snapshot(), Opts, energies, skip, idx);
      UpdateCorpusDistribution(energies, skip);
      assert Infos(Inputs)[idx].unit != [];
      return Inputs[idx];
    }

    /** The input to cross over with, drawn by the distribution or from all inputs alike.
        `asserted` is what the assertion on its unit comes to: drawn from all alike, it
        fails exactly when the run that added the input was superseded. */
    method ChooseUnitToCrossOverWith(energies: seq<real>, skip: bool, idx: nat, uniform: bool)
      returns (ii: InputInfo, asserted: bool)
      requires Valid() && CorpusRuns.Inv(Snapshot()) && Inputs != [] && |energies| == |Inputs|
      requires if uniform then idx < |Inputs|
               else var w := UpdateDistribution(Snapshot(), Opts, energies, skip).weights; idx < |w| && w[idx] > 0.0
      modifies this`DistributionNeedsUpdate, this`Weights
      ensures Valid() && ii in Inputs && (asserted <==> ii.U != [])
      ensures Snapshot() == if uniform then old(Snapshot())
              else UpdateDistribution(old(Snapshot()), Opts, energies, skip)
      ensures if uniform then ii == Inputs[idx] else asserted
      ensures uniform ==>
                forall steps, k: nat {:trigger AddedBy(Opts, steps, k, idx)} ::
                  Snapshot() == History(Opts, steps) && AddedBy(Opts, steps, k, idx) ==>
                    (asserted <==> !Superseded(Opts, steps, k))
    {
      if !uniform {
        ii := ChooseUnitToMutate(energies, skip, idx);
        return ii, true;
      }
      forall steps, k: nat | Snapshot() == History(Opts, steps) && AddedBy(Opts, steps, k, idx)
        ensures Inputs[idx].U == [] <==> Superseded(Opts, steps, k)
      {
        EvictedIff(Opts, steps, k, idx);
        assert Infos(Inputs)[idx].unit == Inputs[idx].U;
      }
      return Inputs[idx], Inputs[idx].U != [];
    }
  }
}
