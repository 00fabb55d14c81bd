/** The state of the fuzzer's input corpus as a value, and what each operation
    does to it. The class `FuzzerCorpus.InputCorpus` is proved against these
    functions; floating-point energies are no part of the state. */
module CorpusModel {
  import opened Bytes
  import opened FeatureFreqs

  const FEATURES: nat := 0x20_0000

  datatype Info = Info(unit: seq<byte>, numFeatures: nat, freqs: Freqs, focus: bool, executed: nat)

  datatype Options = Options(entropic: bool, rarest: nat, threshold: nat, shrink: bool)

  /** `sizes[f]` is the size of the smallest input with feature `f` (0: unknown),
      `owners[f]` the index of that input. `weights` are the weights of the last
      distribution, out of date when `stale`. */
  datatype Corpus = Corpus(inputs: seq<Info>, sizes: seq<nat>, owners: seq<nat>, global: seq<nat>, rare: seq<nat>,
                           top: nat, added: nat, updated: nat, executed: nat, weights: seq<real>, stale: bool)

  ghost predicate Shaped(c: Corpus) {
    && |c.sizes| == |c.owners| == |c.global| == FEATURES
    && (forall r :: r in c.rare ==> r < FEATURES)
    && OwnersExist(c.sizes, c.owners, |c.inputs|)
  }

  /** Owners are among the `n` inputs, or are the run (owner `n`). */
  ghost predicate OwnersExist(sizes: seq<nat>, owners: seq<nat>, n: nat)
    requires |sizes| == |owners|
  {
    forall f: nat {:trigger owners[f]} :: f < |sizes| && sizes[f] != 0 ==> owners[f] <= n
  }

  // ------------------------------------------------------------- operations

  /** Forget the frequency of `key` in every input. */
  function DropAll(inputs: seq<Info>, key: nat): (r: seq<Info>)
    ensures |r| == |inputs| && forall i :: 0 <= i < |r| ==> r[i] == inputs[i].(freqs := Delete(inputs[i].freqs, key))
  {
    if inputs == [] then []
    else
      var last := inputs[|inputs| - 1];
      DropAll(inputs[..|inputs| - 1], key) + [last.(freqs := Delete(last.freqs, key))]
  }

  function GlobalCount(global: seq<nat>, f: nat): nat {
    if f < |global| then global[f] else 0
  }

  /** The last rare feature of highest global count seen by a scan from position
      `i` on, the leader before it, and the position of the winner. */
  datatype Leaders = Leaders(first: nat, second: nat, pos: nat)

  function MostAbundant(rare: seq<nat>, global: seq<nat>, i: nat, l: Leaders): (r: Leaders)
    requires i <= |rare| && l.pos < |rare| && rare[l.pos] == l.first
    ensures r.pos < |rare| && rare[r.pos] == r.first
    ensures GlobalCount(global, r.first) >= GlobalCount(global, l.first)
    ensures forall k :: i <= k < |rare| ==> GlobalCount(global, r.first) >= GlobalCount(global, rare[k])
    decreases |rare| - i
  {
    if i == |rare| then l
    else if GlobalCount(global, rare[i]) >= GlobalCount(global, l.first) then
      MostAbundant(rare, global, i + 1, Leaders(rare[i], l.first, i))
    else
      MostAbundant(rare, global, i + 1, l)
  }

  function RemoveAt(rare: seq<nat>, pos: nat): (r: seq<nat>)
    requires pos < |rare|
    ensures |r| == |rare| - 1
    ensures forall i :: 0 <= i < |r| ==> r[i] == if i == pos then rare[|rare| - 1] else rare[i]
  {
    rare[pos := rare[|rare| - 1]][..|rare| - 1]
  }

  /** Drop the most abundant rare feature. */
  function EvictOne(c: Corpus): Corpus
    requires c.rare != []
  {
    var l := MostAbundant(c.rare, c.global, 0, Leaders(c.rare[0], c.rare[0], 0));
    c.(rare := RemoveAt(c.rare, l.pos), inputs := DropAll(c.inputs, l.first), top := GlobalCount(c.global, l.second))
  }

  /** Drop the most abundant rare features while there are too many of them. */
  function Evict(c: Corpus, o: Options): Corpus
    decreases |c.rare|
  {
    if |c.rare| > o.rarest && c.top > o.threshold then Evict(EvictOne(c), o) else c
  }

  /** A new rare feature, not counted yet. */
  function Admit(c: Corpus, idx: nat): Corpus
    requires idx < |c.global|
  {
    c.(rare := c.rare + [idx], global := c.global[idx := 0], inputs := DropAll(c.inputs, idx), stale := true)
  }

  function AddRare(c: Corpus, o: Options, idx: nat): Corpus
    requires idx < |c.global|
  {
    EvictKeepsAccount(c, o);
    Admit(Evict(c, o), idx)
  }

  /** The owner of a feature loses it, and is evicted with its last one. */
  function Release(c: Corpus, owner: nat): Corpus
    requires owner < |c.inputs| && c.inputs[owner].numFeatures > 0
  {
    var info := c.inputs[owner].(numFeatures := c.inputs[owner].numFeatures - 1);
    if info.numFeatures == 0 then
      c.(inputs := c.inputs[owner := info.(unit := [])], stale := true)
    else
      c.(inputs := c.inputs[owner := info])
  }

  predicate Takes(c: Corpus, f: nat, size: nat, shrink: bool)
    requires f < |c.sizes|
  {
    c.sizes[f] == 0 || (shrink && c.sizes[f] > size)
  }

  /** The owner to release, if there is one, is an input with features left. */
  ghost predicate OwnerIsThere(c: Corpus, f: nat, size: nat, shrink: bool)
    requires Shaped(c) && f < FEATURES
  {
    Takes(c, f, size, shrink) && c.sizes[f] != 0 ==> c.owners[f] < |c.inputs| && c.inputs[c.owners[f]].numFeatures > 0
  }

  /** Before the run takes over `f`: release its owner, or note a new feature. */
  function Vacate(c: Corpus, o: Options, f: nat): (r: Corpus)
    requires f < |c.sizes| == |c.owners| == |c.global|
    requires c.sizes[f] > 0 ==> c.owners[f] < |c.inputs| && c.inputs[c.owners[f]].numFeatures > 0
    ensures r.sizes == c.sizes && r.owners == c.owners && |r.inputs| == |c.inputs| && r.updated == c.updated
  {
    EvictKeepsAccount(Added(c), o);
    if c.sizes[f] > 0 then Release(c, c.owners[f])
    else if o.entropic then AddRare(Added(c), o, f)
    else Added(c)
  }

  function Added(c: Corpus): Corpus {
    c.(added := c.added + 1)
  }

  /** The run takes over `f`. */
  function Take(c: Corpus, f: nat, size: nat): Corpus
    requires f < |c.sizes| == |c.owners|
  {
    c.(updated := c.updated + 1, owners := c.owners[f := |c.inputs|], sizes := c.sizes[f := size])
  }

  function AddFeature(c: Corpus, o: Options, idx: nat, size: nat): (Corpus, bool)
    requires Shaped(c) && OwnerIsThere(c, idx % FEATURES, size, o.shrink)
  {
    var f := idx % FEATURES;
    if Takes(c, f, size, o.shrink) then
      (Take(Vacate(c, o, f), f, size), true)
    else
      (c, false)
  }

  function BumpAt(inputs: seq<Info>, i: nat, f: nat): seq<Info>
    requires i < |inputs|
  {
    inputs[i := inputs[i].(freqs := Bump(inputs[i].freqs, f))]
  }

  /** Count feature `idx`, globally and for the input `ii` (an index past the end
      stands for no input). */
  function CountFeature(c: Corpus, ii: nat, idx: nat): Corpus
    requires |c.global| == FEATURES
  {
    var f := idx % FEATURES;
    var freq := c.global[f];
    if freq == 0xFFFF then c
    else
      var d := c.(global := c.global[f := freq + 1]);
      if freq > c.top || f !in c.rare then d
      else
        var e := if freq == c.top then d.(top := (c.top + 1) % COUNTER) else d;
        if ii < |c.inputs| then e.(inputs := BumpAt(c.inputs, ii, f)) else e
  }

  /** Every feature is counted up to 65535 times globally, and `top` keeps up with it. */
  lemma CountFeatureMeans(c: Corpus, ii: nat, idx: nat)
    requires |c.global| == FEATURES
    ensures var f, d := idx % 0x20_0000, CountFeature(c, ii, idx);
            && |d.global| == |c.global| && |d.inputs| == |c.inputs|
            && (forall g :: 0 <= g < FEATURES ==>
                  d.global[g] == c.global[g] + if g == f && c.global[g] != 0xFFFF then 1 else 0)
            && d.top == if f in c.rare && c.global[f] == c.top != 0xFFFF then (c.top + 1) % 0x1_0000 else c.top
  {
  }

  /** A rare feature is counted for the input the run mutated, unless it is more frequent
      than noted or its global counter is full; for others nothing is. */
  lemma CountFeatureLocally(c: Corpus, ii: nat, idx: nat, i: nat, g: nat)
    requires |c.global| == FEATURES && i < |c.inputs| && Ordered(c.inputs[i].freqs)
    ensures var f, after := idx % 0x20_0000, CountFeature(c, ii, idx).inputs;
            && |after| == |c.inputs|
            && Count(after[i].freqs, g) ==
               if i == ii && g == f && f in c.rare && c.global[f] <= c.top && c.global[f] != 0xFFFF then
                 (Count(c.inputs[i].freqs, g) + 1) % 0x1_0000
               else Count(c.inputs[i].freqs, g)
  {
    BumpCounts(c.inputs[i].freqs, idx % FEATURES, g);
  }

  function AddToCorpus(c: Corpus, unit: seq<byte>, numFeatures: nat, focus: bool): Corpus {
    c.(inputs := c.inputs + [Info(unit, numFeatures, [], focus, 0)], stale := true)
  }

  function Replace(c: Corpus, ii: nat, unit: seq<byte>): Corpus
    requires ii < |c.inputs| && |c.inputs[ii].unit| > |unit|
  {
    c.(inputs := c.inputs[ii := c.inputs[ii].(unit := unit)], stale := true)
  }

  // ------------------------------------------------------------- ownership

  /** The features owned by input `i`; with `i` one past the end, the features
      found in the current run. */
  ghost function Owned(sizes: seq<nat>, owners: seq<nat>, i: nat): set<nat> {
    set f: nat | f < |sizes| && f < |owners| && sizes[f] != 0 && owners[f] == i
  }

  /** `NumFeatures` counts the owned features. */
  ghost predicate Accounts(inputs: seq<Info>, sizes: seq<nat>, owners: seq<nat>) {
    forall i: nat {:trigger Owned(sizes, owners, i)} :: i < |inputs| ==>
      inputs[i].numFeatures == |Owned(sizes, owners, i)|
  }

  /** Inputs with features have a unit. */
  ghost predicate HaveUnits(inputs: seq<Info>) {
    forall i :: 0 <= i < |inputs| && inputs[i].numFeatures > 0 ==> inputs[i].unit != []
  }

  ghost predicate Accounted(c: Corpus) {
    Accounts(c.inputs, c.sizes, c.owners) && HaveUnits(c.inputs)
  }

  /** The features of the run have its size, and every one of them was an update. */
  ghost predicate Pending(sizes: seq<nat>, owners: seq<nat>, n: nat, size: nat, updates: nat) {
    && (forall f: nat {:trigger sizes[f]} :: f in Owned(sizes, owners, n) ==> sizes[f] == size)
    && updates == |Owned(sizes, owners, n)|
  }

  /** In a run with inputs of `size` bytes that began at `start` updates. */
  ghost predicate Running(c: Corpus, size: nat, start: nat) {
    Shaped(c) && Accounted(c) && start <= c.updated && Pending(c.sizes, c.owners, |c.inputs|, size, c.updated - start)
  }

  /** Between runs every known feature has an input. */
  ghost predicate Settled(c: Corpus) {
    Shaped(c) && Accounted(c) && Owned(c.sizes, c.owners, |c.inputs|) == {}
  }

  lemma RemoveOne(s: set<nat>, t: set<nat>, f: nat)
    requires f in s && t == s - {f}
    ensures |t| == |s| - 1
  {
  }

  /** Taking over `f` moves it from its old owner to the new one. */
  lemma OwnershipMoves(sizes: seq<nat>, owners: seq<nat>, f: nat, size: nat, n: nat, i: nat)
    requires f < |sizes| == |owners| && size > 0
    ensures var after := Owned(sizes[f := size], owners[f := n], i);
            after == (if i == n then Owned(sizes, owners, i) + {f} else Owned(sizes, owners, i) - {f})
  {
  }

  /** The assertion in `AddFeature` cannot fail: the owner to release exists. */
  lemma OwnerExists(c: Corpus, o: Options, f: nat, size: nat, start: nat)
    requires Running(c, size, start) && f < FEATURES
    ensures OwnerIsThere(c, f, size, o.shrink)
  {
    if Takes(c, f, size, o.shrink) && c.sizes[f] != 0 {
      assert f in Owned(c.sizes, c.owners, c.owners[f]);
    }
  }

  /** The same units and the same numbers of features. */
  ghost predicate SameAccounts(a: seq<Info>, b: seq<Info>) {
    |a| == |b| && forall i :: 0 <= i < |a| ==> b[i].numFeatures == a[i].numFeatures && b[i].unit == a[i].unit
  }

  /** Everything but the frequencies is as before. */
  ghost predicate OnlyFrequencies(c: Corpus, d: Corpus) {
    && d == c.(rare := d.rare, inputs := d.inputs, top := d.top, global := d.global, stale := d.stale)
    && SameAccounts(c.inputs, d.inputs) && |c.global| == |d.global|
  }

  lemma EvictKeepsAccount(c: Corpus, o: Options)
    ensures OnlyFrequencies(c, Evict(c, o)) && Evict(c, o).global == c.global
    ensures forall r :: r in Evict(c, o).rare ==> r in c.rare
    decreases |c.rare|
  {
    if |c.rare| > o.rarest && c.top > o.threshold {
      EvictKeepsAccount(EvictOne(c), o);
    }
  }

  lemma AddRareKeepsAccount(c: Corpus, o: Options, idx: nat)
    requires idx < |c.global|
    ensures OnlyFrequencies(c, AddRare(c, o, idx))
    ensures forall r :: r in AddRare(c, o, idx).rare ==> r in c.rare || r == idx
  {
    EvictKeepsAccount(c, o);
  }

  /** What the owner of `f` loses when the run takes `f` over. */
  function Loss(sizes: seq<nat>, owners: seq<nat>, f: nat, i: nat): nat
    requires f < |sizes| == |owners|
  {
    if sizes[f] != 0 && owners[f] == i then 1 else 0
  }

  lemma OneAccountMoves(sizes: seq<nat>, owners: seq<nat>, f: nat, size: nat, n: nat, i: nat)
    requires f < |sizes| == |owners| && size > 0 && i != n
    ensures |Owned(sizes[f := size], owners[f := n], i)| == |Owned(sizes, owners, i)| - Loss(sizes, owners, f, i)
  {
    OwnershipMoves(sizes, owners, f, size, n, i);
    if Loss(sizes, owners, f, i) == 1 {
      RemoveOne(Owned(sizes, owners, i), Owned(sizes[f := size], owners[f := n], i), f);
    } else {
      assert Owned(sizes[f := size], owners[f := n], i) == Owned(sizes, owners, i);
    }
  }

  lemma AccountsMove(inputs: seq<Info>, after: seq<Info>, sizes: seq<nat>, owners: seq<nat>, f: nat, size: nat)
    requires f < |sizes| == |owners| && size > 0 && |inputs| == |after| && Accounts(inputs, sizes, owners)
    requires forall i: nat {:trigger after[i]} :: i < |inputs| ==>
               after[i].numFeatures == inputs[i].numFeatures - Loss(sizes, owners, f, i)
    ensures Accounts(after, sizes[f := size], owners[f := |inputs|])
  {
    forall i: nat | i < |inputs|
      ensures after[i].numFeatures == |Owned(sizes[f := size], owners[f := |inputs|], i)|
    {
      OneAccountMoves(sizes, owners, f, size, |inputs|, i);
    }
  }

  lemma PendingGrows(sizes: seq<nat>, owners: seq<nat>, f: nat, size: nat, n: nat, updates: nat)
    requires f < |sizes| == |owners| && size > 0 && Pending(sizes, owners, n, size, updates) &&
             f !in Owned(sizes, owners, n)
    ensures Pending(sizes[f := size], owners[f := n], n, size, updates + 1)
  {
    OwnershipMoves(sizes, owners, f, size, n, n);
  }

  /** `after` is `inputs` after the owner of `f`, if any, lost it: evicted with its last one. */
  ghost predicate Vacated(inputs: seq<Info>, after: seq<Info>, sizes: seq<nat>, owners: seq<nat>, f: nat)
    requires f < |sizes| == |owners|
  {
    && |after| == |inputs|
    && (forall i: nat {:trigger after[i]} :: i < |inputs| ==>
        after[i].numFeatures == inputs[i].numFeatures - Loss(sizes, owners, f, i))
    && (forall i: nat {:trigger after[i]} :: i < |inputs| ==>
        after[i].unit == inputs[i].unit || (after[i].unit == [] && after[i].numFeatures == 0))
  }

  lemma VacateAccounts(c: Corpus, o: Options, f: nat)
    requires f < |c.sizes| == |c.owners| == |c.global|
    requires c.sizes[f] > 0 ==> c.owners[f] < |c.inputs| && c.inputs[c.owners[f]].numFeatures > 0
    ensures var d := Vacate(c, o, f);
            && Vacated(c.inputs, d.inputs, c.sizes, c.owners, f)
            && |d.global| == |c.global| && forall r :: r in d.rare ==> r in c.rare || r == f
  {
    if c.sizes[f] == 0 && o.entropic {
      AddRareKeepsAccount(Added(c), o, f);
    }
  }

  /** One `AddFeature` of a run: the assertion in it holds, the accounts stay right,
      and the number of updates counts the features found in the run. */
  lemma AddFeatureRuns(c: Corpus, o: Options, idx: nat, size: nat, start: nat)
    requires Running(c, size, start) && size > 0
    ensures OwnerIsThere(c, idx % FEATURES, size, o.shrink)
    ensures Running(AddFeature(c, o, idx, size).0, size, start)
  {
    var f, n := idx % FEATURES, |c.inputs|;
    OwnerExists(c, o, f, size, start);
    if Takes(c, f, size, o.shrink) {
      VacateAccounts(c, o, f);
      var d := Vacate(c, o, f);
      AccountsMove(c.inputs, d.inputs, c.sizes, c.owners, f, size);
      PendingGrows(c.sizes, c.owners, f, size, n, c.updated - start);
      assert OwnersExist(c.sizes[f := size], c.owners[f := n], n);
    }
  }
}
