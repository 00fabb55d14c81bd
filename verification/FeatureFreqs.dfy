/** The local feature frequencies of one input: a vector of (feature, count)
    pairs kept sorted by feature, searched with `lower_bound`. */
module FeatureFreqs {

  type Freqs = seq<(nat, nat)>

  const COUNTER: nat := 0x1_0000   // counters are 16 bits wide

  ghost predicate Ordered(fs: Freqs) {
    forall i, j :: 0 <= i < j < |fs| ==> fs[i].0 < fs[j].0
  }

  /** The first position whose pair is not below `(key, 0)`. */
  function LowerBound(fs: Freqs, key: nat): (k: nat)
    ensures k <= |fs| && (k < |fs| ==> fs[k].0 >= key)
    ensures forall i :: 0 <= i < k ==> fs[i].0 < key
  {
    if fs == [] || fs[0].0 >= key then 0 else 1 + LowerBound(fs[1..], key)
  }

  predicate Has(fs: Freqs, key: nat) {
    var k := LowerBound(fs, key);
    k < |fs| && fs[k].0 == key
  }

  /** How often `key` was counted. */
  function Count(fs: Freqs, key: nat): nat {
    var k := LowerBound(fs, key);
    if k < |fs| && fs[k].0 == key then fs[k].1 else 0
  }

  function Delete(fs: Freqs, key: nat): Freqs {
    var k := LowerBound(fs, key);
    if k < |fs| && fs[k].0 == key then fs[..k] + fs[k + 1..] else fs
  }

  /** Count `key` once more, in 16 bits. */
  function Bump(fs: Freqs, key: nat): Freqs {
    var k := LowerBound(fs, key);
    if k < |fs| && fs[k].0 == key then fs[k := (key, (fs[k].1 + 1) % COUNTER)]
    else fs[..k] + [(key, 1)] + fs[k..]
  }

  /** In a sorted vector the search position is determined by its two sides. */
  lemma PositionIsUnique(fs: Freqs, key: nat, k: nat)
    requires Ordered(fs) && k <= |fs| && (forall i :: 0 <= i < k ==> fs[i].0 < key) && (k < |fs| ==> fs[k].0 >= key)
    ensures LowerBound(fs, key) == k
  {
  }

  lemma CountMeans(fs: Freqs, i: nat)
    requires Ordered(fs) && i < |fs|
    ensures Has(fs, fs[i].0) && Count(fs, fs[i].0) == fs[i].1
  {
    PositionIsUnique(fs, fs[i].0, i);
  }

  /** Deleting forgets `key` and nothing else. */
  lemma DeleteForgets(fs: Freqs, key: nat, other: nat)
    requires Ordered(fs)
    ensures Ordered(Delete(fs, key)) && |Delete(fs, key)| == |fs| - (if Has(fs, key) then 1 else 0)
    ensures Has(Delete(fs, key), other) <==> Has(fs, other) && other != key
    ensures Count(Delete(fs, key), other) == if other == key then 0 else Count(fs, other)
  {
    if Has(fs, key) {
      var k := LowerBound(fs, key);
      Without(fs, k);
      Removed(fs, Delete(fs, key), k, other);
    }
  }

  lemma Removed(fs: Freqs, after: Freqs, k: nat, other: nat)
    requires Ordered(fs) && Ordered(after) && k < |fs| == |after| + 1
    requires forall i {:trigger after[i]} :: 0 <= i < |after| ==> after[i] == if i < k then fs[i] else fs[i + 1]
    ensures Has(after, other) <==> Has(fs, other) && other != fs[k].0
    ensures Count(after, other) == if other == fs[k].0 then 0 else Count(fs, other)
  {
    var m := LowerBound(fs, other);
    if other <= fs[k].0 {
      assert m <= k;
      PositionIsUnique(after, other, m);
    } else {
      assert m > k;
      PositionIsUnique(after, other, m - 1);
    }
  }

  lemma Without(fs: Freqs, k: nat)
    requires Ordered(fs) && k < |fs|
    ensures var after := fs[..k] + fs[k + 1..];
            Ordered(after) && |after| == |fs| - 1 && forall i {:trigger after[i]} :: 0 <= i < |after| ==>
              after[i] == if i < k then fs[i] else fs[i + 1]
  {
  }

  lemma With(fs: Freqs, k: nat, key: nat)
    requires Ordered(fs) && k <= |fs| && (forall i :: 0 <= i < k ==> fs[i].0 < key) && (k < |fs| ==> fs[k].0 > key)
    ensures var after := fs[..k] + [(key, 1)] + fs[k..];
            && Ordered(after) && |after| == |fs| + 1
            && after[k] == (key, 1)
            && (forall i {:trigger after[i]} :: 0 <= i < |after| && i != k ==>
                  after[i] == if i < k then fs[i] else fs[i - 1])
  {
    var after := fs[..k] + [(key, 1)] + fs[k..];
    forall i, j | 0 <= i < j < |after|
      ensures after[i].0 < after[j].0
    {
      assert after[j] == if j < k then fs[j] else if j == k then (key, 1) else fs[j - 1];
      assert after[i] == if i < k then fs[i] else if i == k then (key, 1) else fs[i - 1];
    }
  }

  lemma Overwritten(fs: Freqs, key: nat, k: nat, count: nat, other: nat)
    requires Ordered(fs) && k < |fs| && fs[k].0 == key
    ensures var after := fs[k := (key, count)];
            && Ordered(after) && (Has(after, other) <==> Has(fs, other))
            && Count(after, other) == if other == key then count else Count(fs, other)
  {
    var m, after := LowerBound(fs, other), fs[k := (key, count)];
    assert forall i :: 0 <= i < |fs| ==> after[i].0 == fs[i].0;
    PositionIsUnique(after, other, m);
    PositionIsUnique(fs, key, k);
  }

  /** Bumping adds one to `key`, in 16 bits, and nothing else. */
  lemma BumpCounts(fs: Freqs, key: nat, other: nat)
    requires Ordered(fs)
    ensures Ordered(Bump(fs, key)) && Has(Bump(fs, key), key)
    ensures Has(Bump(fs, key), other) <==> Has(fs, other) || other == key
    ensures Count(Bump(fs, key), other) == if other == key then (Count(fs, key) + 1) % 0x1_0000 else Count(fs, other)
  {
    var k, after := LowerBound(fs, key), Bump(fs, key);
    if Has(fs, key) {
      Overwritten(fs, key, k, (fs[k].1 + 1) % COUNTER, other);
    } else {
      With(fs, k, key);
      PositionIsUnique(after, key, k);
      if other != key {
        Shifted(fs, after, k, key, other);
      }
    }
  }

  lemma Shifted(fs: Freqs, after: Freqs, k: nat, key: nat, other: nat)
    requires Ordered(fs) && Ordered(after) && |after| == |fs| + 1 && k == LowerBound(fs, key) && other != key
    requires after[k] == (key, 1)
    requires forall i {:trigger after[i]} :: 0 <= i < |after| && i != k ==>
               after[i] == if i < k then fs[i] else fs[i - 1]
    ensures Has(after, other) <==> Has(fs, other)
    ensures Count(after, other) == Count(fs, other)
  {
    var m := LowerBound(fs, other);
    if other < key {
      assert m <= k;
      PositionIsUnique(after, other, m);
    } else {
      assert k <= m;
      PositionIsUnique(after, other, m + 1);
    }
  }
}
