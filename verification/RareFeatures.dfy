/** The globally rare features and the local frequencies of every input: what the
    16-bit counters and the unsigned subtraction in `UpdateEnergy` rely on. */
module RareFeatures {
  import opened Bytes
  import opened FeatureFreqs
  import opened CorpusModel
  import opened Sequences

  /** The frequencies of one input are sorted, and all of rare features. */
  ghost predicate OfRare(fs: Freqs, rare: seq<nat>) {
    Ordered(fs) && forall k: nat {:trigger Has(fs, k)} :: Has(fs, k) ==> k in rare
  }

  ghost predicate AllOfRare(inputs: seq<Info>, rare: seq<nat>) {
    forall i: nat {:trigger inputs[i]} :: i < |inputs| ==> OfRare(inputs[i].freqs, rare)
  }

  /** How often the inputs together counted `f`. */
  ghost function LocalSum(inputs: seq<Info>, f: nat): nat {
    if inputs == [] then 0 else LocalSum(inputs[..|inputs| - 1], f) + Count(inputs[|inputs| - 1].freqs, f)
  }

  /** For rare features the global counter covers the local ones. */
  ghost predicate Covered(inputs: seq<Info>, global: seq<nat>, rare: seq<nat>) {
    forall r {:trigger LocalSum(inputs, r)} :: r in rare ==> r < |global| && LocalSum(inputs, r) <= global[r]
  }

  ghost predicate InRange(global: seq<nat>, top: nat) {
    top < COUNTER && forall f :: 0 <= f < |global| ==> global[f] < COUNTER
  }

  ghost predicate Counted(inputs: seq<Info>, global: seq<nat>, rare: seq<nat>) {
    Distinct(rare) && AllOfRare(inputs, rare) && Covered(inputs, global, rare)
  }

  /** Every rare feature is known: it has a smallest input. */
  ghost predicate RareKnown(rare: seq<nat>, sizes: seq<nat>) {
    forall r :: r in rare ==> r < |sizes| && sizes[r] != 0
  }

  ghost predicate RareInv(c: Corpus) {
    Counted(c.inputs, c.global, c.rare) && InRange(c.global, c.top) && RareKnown(c.rare, c.sizes)
  }

  // ------------------------------------------------------------- local sums

  lemma {:induction false} CountAtMostSum(inputs: seq<Info>, i: nat, f: nat)
    requires i < |inputs|
    ensures Count(inputs[i].freqs, f) <= LocalSum(inputs, f)
  {
    if i < |inputs| - 1 {
      CountAtMostSum(inputs[..|inputs| - 1], i, f);
    }
  }

  lemma {:induction false} SumOfDropped(inputs: seq<Info>, key: nat, f: nat)
    requires forall i: nat {:trigger inputs[i]} :: i < |inputs| ==> Ordered(inputs[i].freqs)
    ensures LocalSum(DropAll(inputs, key), f) == if f == key then 0 else LocalSum(inputs, f)
  {
    if inputs != [] {
      var front := inputs[..|inputs| - 1];
      SumOfDropped(front, key, f);
      DeleteForgets(inputs[|inputs| - 1].freqs, key, f);
      assert DropAll(inputs, key)[..|inputs| - 1] == DropAll(front, key);
    }
  }

  lemma BumpOne(fs: Freqs, key: nat, f: nat)
    requires Ordered(fs) && Count(fs, key) + 1 < COUNTER
    ensures Count(Bump(fs, key), f) == Count(fs, f) + if f == key then 1 else 0
  {
    BumpCounts(fs, key, f);
  }

  lemma {:induction false} SumOfBumped(inputs: seq<Info>, i: nat, key: nat, f: nat)
    requires i < |inputs| && Ordered(inputs[i].freqs) && Count(inputs[i].freqs, key) + 1 < COUNTER
    ensures LocalSum(BumpAt(inputs, i, key), f) == LocalSum(inputs, f) + if f == key then 1 else 0
  {
    var n := |inputs| - 1;
    var front, after := inputs[..n], BumpAt(inputs, i, key);
    if i == n {
      BumpOne(inputs[i].freqs, key, f);
      LastSum(inputs, after, f);
    } else {
      SumOfBumped(front, i, key, f);
      assert after[..n] == BumpAt(front, i, key) && after[n] == inputs[n];
    }
  }

  lemma LastSum(a: seq<Info>, b: seq<Info>, f: nat)
    requires a != [] && |a| == |b| && a[..|a| - 1] == b[..|b| - 1]
    ensures LocalSum(b, f) - Count(b[|b| - 1].freqs, f) == LocalSum(a, f) - Count(a[|a| - 1].freqs, f)
  {
  }

  /** Sums depend on the frequencies alone. */
  lemma {:induction false} SumOfSame(a: seq<Info>, b: seq<Info>, f: nat)
    requires |a| == |b| && forall i: nat {:trigger b[i]} :: i < |a| ==> b[i].freqs == a[i].freqs
    ensures LocalSum(a, f) == LocalSum(b, f)
  {
    if a != [] {
      var n := |a| - 1;
      forall i: nat | i < n
        ensures b[..n][i].freqs == a[..n][i].freqs
      {
        assert b[..n][i] == b[i];
      }
      SumOfSame(a[..n], b[..n], f);
      assert b[n].freqs == a[n].freqs;
    }
  }

  lemma CountedForSame(a: seq<Info>, b: seq<Info>, global: seq<nat>, rare: seq<nat>)
    requires Counted(a, global, rare) && |a| == |b|
    requires forall i: nat {:trigger b[i]} :: i < |a| ==> b[i].freqs == a[i].freqs
    ensures Counted(b, global, rare)
  {
    forall r | r in rare
      ensures r < |global| && LocalSum(b, r) <= global[r]
    {
      SumOfSame(a, b, r);
    }
  }

  // ------------------------------------------------------------- eviction

  lemma {:induction false} RemoveAtMeans(rare: seq<nat>, pos: nat, x: nat)
    requires pos < |rare| && Distinct(rare)
    ensures Distinct(RemoveAt(rare, pos))
    ensures x in RemoveAt(rare, pos) <==> x in rare && x != rare[pos]
  {
    var after := RemoveAt(rare, pos);
    if x in rare && x != rare[pos] {
      var i :| 0 <= i < |rare| && rare[i] == x;
      assert after[if i == |rare| - 1 then pos else i] == x;
    }
  }

  lemma DropOfRare(fs: Freqs, key: nat, rare: seq<nat>, after: seq<nat>)
    requires OfRare(fs, rare) && forall r :: r in rare && r != key ==> r in after
    ensures OfRare(Delete(fs, key), after)
  {
    DeleteForgets(fs, key, key);
    forall k: nat | Has(Delete(fs, key), k)
      ensures k in after
    {
      DeleteForgets(fs, key, k);
    }
  }

  lemma DropAllCounted(inputs: seq<Info>, global: seq<nat>, rare: seq<nat>, key: nat, after: seq<nat>)
    requires Counted(inputs, global, rare) && Distinct(after)
    requires forall r :: r in after ==> r in rare && r != key
    requires forall r :: r in rare && r != key ==> r in after
    ensures Counted(DropAll(inputs, key), global, after)
  {
    var dropped := DropAll(inputs, key);
    forall i: nat | i < |dropped|
      ensures OfRare(dropped[i].freqs, after)
    {
      DropOfRare(inputs[i].freqs, key, rare, after);
    }
    forall r | r in after
      ensures r < |global| && LocalSum(dropped, r) <= global[r]
    {
      SumOfDropped(inputs, key, r);
    }
  }

  /** Eviction goes by abundance: what is dropped is at least as frequent as what
      is kept. It stops only when there are few rare features or the threshold is met. */
  lemma {:induction false} EvictKeepsTheRarest(c: Corpus, o: Options)
    requires Counted(c.inputs, c.global, c.rare) && InRange(c.global, c.top)
    ensures var e := Evict(c, o);
            && Counted(e.inputs, e.global, e.rare) && InRange(e.global, e.top) && e.global == c.global
            && (|e.rare| <= o.rarest || e.top <= o.threshold)
            && (|e.rare| >= o.rarest || e.rare == c.rare)
            && (|c.rare| <= o.rarest || c.top <= o.threshold ==> e == c)
            && (forall r :: r in e.rare ==> r in c.rare)
            && (forall d, k :: d in c.rare && d !in e.rare && k in e.rare ==>
                GlobalCount(c.global, d) >= GlobalCount(c.global, k))
    decreases |c.rare|
  {
    if |c.rare| > o.rarest && c.top > o.threshold {
      var l := MostAbundant(c.rare, c.global, 0, Leaders(c.rare[0], c.rare[0], 0));
      var d := EvictOne(c);
      forall x
        ensures Distinct(d.rare) && (x in d.rare <==> x in c.rare && x != l.first)
      {
        RemoveAtMeans(c.rare, l.pos, x);
      }
      DropAllCounted(c.inputs, c.global, c.rare, l.first, d.rare);
      EvictKeepsTheRarest(d, o);
      assert forall k :: k in c.rare ==> GlobalCount(c.global, l.first) >= GlobalCount(c.global, k);
    }
  }

  lemma AddRareCounted(c: Corpus, o: Options, idx: nat)
    requires Counted(c.inputs, c.global, c.rare) && InRange(c.global, c.top) && idx < |c.global| && idx !in c.rare
    ensures var d := AddRare(c, o, idx);
            Counted(d.inputs, d.global, d.rare) && InRange(d.global, d.top) && forall r :: r in d.rare ==>
              r in c.rare || r == idx
  {
    EvictKeepsTheRarest(c, o);
    var e, d := Evict(c, o), AddRare(c, o, idx);
    forall i: nat | i < |d.inputs|
      ensures OfRare(d.inputs[i].freqs, d.rare)
    {
      DropOfRare(e.inputs[i].freqs, idx, e.rare, d.rare);
    }
    forall r | r in d.rare
      ensures r < |d.global| && LocalSum(d.inputs, r) <= d.global[r]
    {
      SumOfDropped(e.inputs, idx, r);
      if r != idx {
        assert r in e.rare && LocalSum(e.inputs, r) <= e.global[r];
      }
    }
  }

  // ------------------------------------------------------------- one round of eviction

  function CountAt(rare: seq<nat>, global: seq<nat>, k: nat): nat {
    if k < |rare| then GlobalCount(global, rare[k]) else 0
  }

  /** `p` is the last of the most frequent among the first `n` rare features. */
  ghost predicate LastOfMost(rare: seq<nat>, global: seq<nat>, n: nat, p: nat) {
    && p < n <= |rare|
    && (forall k: nat {:trigger CountAt(rare, global, k)} :: k < n ==>
          CountAt(rare, global, k) <= CountAt(rare, global, p))
    && (forall k: nat {:trigger CountAt(rare, global, k)} :: p < k < n ==>
          CountAt(rare, global, k) < CountAt(rare, global, p))
  }

  /** `count` is the count of the first feature if that leads; else the highest count in
      front of the leader at `p`. */
  ghost predicate IsRunnerUp(rare: seq<nat>, global: seq<nat>, p: nat, count: nat) {
    if p == 0 then count == CountAt(rare, global, 0)
    else
      && (exists q: nat {:trigger CountAt(rare, global, q)} :: q < p && CountAt(rare, global, q) == count)
      && (forall k: nat {:trigger CountAt(rare, global, k)} :: k < p ==> CountAt(rare, global, k) <= count)
  }

  ghost predicate Leads(rare: seq<nat>, global: seq<nat>, n: nat, l: Leaders) {
    && LastOfMost(rare, global, n, l.pos) && rare[l.pos] == l.first
    && IsRunnerUp(rare, global, l.pos, GlobalCount(global, l.second))
  }

  lemma ScanOne(rare: seq<nat>, global: seq<nat>, i: nat, l: Leaders)
    requires i < |rare| && Leads(rare, global, i, l)
    ensures Leads(rare, global, i + 1, if GlobalCount(global, rare[i]) >= GlobalCount(global, l.first)
                                       then Leaders(rare[i], l.first, i) else l)
  {
    assert CountAt(rare, global, i) == GlobalCount(global, rare[i]);
    assert CountAt(rare, global, l.pos) == GlobalCount(global, l.first);
  }

  lemma {:induction false} ScanLeads(rare: seq<nat>, global: seq<nat>, i: nat, l: Leaders)
    requires Leads(rare, global, i, l)
    ensures Leads(rare, global, |rare|, MostAbundant(rare, global, i, l))
    decreases |rare| - i
  {
    if i < |rare| {
      ScanOne(rare, global, i, l);
      if GlobalCount(global, rare[i]) >= GlobalCount(global, l.first) {
        ScanLeads(rare, global, i + 1, Leaders(rare[i], l.first, i));
      } else {
        ScanLeads(rare, global, i + 1, l);
      }
    }
  }

  /** A round drops the last of the most frequent rare features, and what the inputs
      counted of it, and notes the highest count in front of it. */
  lemma RoundDrops(c: Corpus) returns (p: nat)
    requires Distinct(c.rare) && c.rare != []
    ensures LastOfMost(c.rare, c.global, |c.rare|, p)
    ensures forall x :: x in EvictOne(c).rare <==> x in c.rare && x != c.rare[p]
    ensures Distinct(EvictOne(c).rare) && |EvictOne(c).rare| == |c.rare| - 1
    ensures EvictOne(c).inputs == DropAll(c.inputs, c.rare[p]) && EvictOne(c).global == c.global
    ensures IsRunnerUp(c.rare, c.global, p, EvictOne(c).top)
  {
    var start := Leaders(c.rare[0], c.rare[0], 0);
    var l := MostAbundant(c.rare, c.global, 0, start);
    assert l == MostAbundant(c.rare, c.global, 1, start);
    ScanLeads(c.rare, c.global, 1, start);
    p := l.pos;
    forall x
      ensures Distinct(EvictOne(c).rare) && (x in EvictOne(c).rare <==> x in c.rare && x != c.rare[p])
    {
      RemoveAtMeans(c.rare, p, x);
    }
  }

  /** No rare feature is more frequent than noted. */
  ghost predicate TopCovers(c: Corpus) {
    forall r :: r in c.rare ==> GlobalCount(c.global, r) <= c.top
  }

  ghost predicate TopIsMet(c: Corpus) {
    exists r :: r in c.rare && GlobalCount(c.global, r) == c.top
  }

  /** Every feature behind `p` is matched by one in front of it. */
  ghost predicate FrontLeads(rare: seq<nat>, global: seq<nat>, p: nat) {
    forall k: nat {:trigger CountAt(rare, global, k)} :: p < k < |rare| ==>
      exists q: nat {:trigger CountAt(rare, global, q)} :: q < p && CountAt(rare, global, k) <= CountAt(rare, global, q)
  }

  /** What a round notes is the count of the most frequent feature left exactly when
      the one dropped was not the first and every feature behind it is matched in front. */
  lemma NotesTheNextIff(c: Corpus, p: nat)
    requires Distinct(c.rare) && |c.rare| > 1 && LastOfMost(c.rare, c.global, |c.rare|, p)
    ensures TopCovers(EvictOne(c)) <==> p == 0 || FrontLeads(c.rare, c.global, p)
    ensures TopIsMet(EvictOne(c)) && TopCovers(EvictOne(c)) <==> p > 0 && FrontLeads(c.rare, c.global, p)
  {
    var d := EvictOne(c);
    var q := RoundDrops(c);
    assert CountAt(c.rare, c.global, p) <= CountAt(c.rare, c.global, q);
    assert CountAt(c.rare, c.global, q) <= CountAt(c.rare, c.global, p);
    assert p == q;
    LeftBehind(c, d, p);
    if p > 0 {
      var k: nat :| k < p && CountAt(c.rare, c.global, k) == d.top;
      assert c.rare[k] in d.rare;
    }
  }

  lemma LeftBehind(c: Corpus, d: Corpus, p: nat)
    requires Distinct(c.rare) && LastOfMost(c.rare, c.global, |c.rare|, p) && d.global == c.global
    requires forall x :: x in d.rare <==> x in c.rare && x != c.rare[p]
    requires IsRunnerUp(c.rare, c.global, p, d.top)
    ensures TopCovers(d) <==> forall k: nat {:trigger CountAt(c.rare, c.global, k)} ::
              k < |c.rare| && k != p ==> CountAt(c.rare, c.global, k) <= d.top
    ensures p == 0 ==> !TopIsMet(d)
  {
    if TopCovers(d) {
      forall k: nat | k < |c.rare| && k != p
        ensures CountAt(c.rare, c.global, k) <= d.top
      {
        assert c.rare[k] in d.rare;
      }
    }
    forall r | r in d.rare
      ensures exists k: nat {:trigger CountAt(c.rare, c.global, k)} ::
                k < |c.rare| && k != p && c.rare[k] == r && CountAt(c.rare, c.global, k) == GlobalCount(c.global, r)
    {
      var k :| 0 <= k < |c.rare| && c.rare[k] == r;
      assert CountAt(c.rare, c.global, k) == GlobalCount(c.global, r);
    }
  }

  /** With counts of 3, 5 and 4 a round notes 3 although 4 is left; with 5, 1 and 4 it
      notes 5, which is gone. */
  lemma NotesAnother(c: Corpus)
    requires c.rare == [0, 1, 2] && |c.global| >= 3
    ensures c.global[..3] == [3, 5, 4] ==>
              2 in EvictOne(c).rare && GlobalCount(c.global, 2) == 4 && EvictOne(c).top == 3
    ensures c.global[..3] == [5, 1, 4] ==>
              EvictOne(c).top == 5 && forall r :: r in EvictOne(c).rare ==> GlobalCount(c.global, r) <= 4
  {
    var start := Leaders(0, 0, 0);
    var one := MostAbundant(c.rare, c.global, 1, start);
    assert MostAbundant(c.rare, c.global, 0, start) == one;
    assert c.global[..3][0] == c.global[0] && c.global[..3][1] == c.global[1] && c.global[..3][2] == c.global[2];
    if c.global[..3] == [3, 5, 4] {
      assert one == MostAbundant(c.rare, c.global, 2, Leaders(1, 0, 1));
      assert one == MostAbundant(c.rare, c.global, 3, Leaders(1, 0, 1));
      assert EvictOne(c).rare[1] == 2;
    }
    if c.global[..3] == [5, 1, 4] {
      assert one == MostAbundant(c.rare, c.global, 2, start);
      assert one == MostAbundant(c.rare, c.global, 3, start);
    }
  }

  /** With counts of 5, 1 and 1, one rarest feature to keep and a threshold of 3, a
      feature below the threshold is dropped as well. */
  lemma DropsBelowThreshold(c: Corpus, o: Options)
    requires c.rare == [0, 1, 2] && |c.global| >= 3 && c.global[..3] == [5, 1, 1] && c.top == 5
    requires o.rarest == 1 && o.threshold == 3
    ensures 1 !in Evict(c, o).rare && GlobalCount(c.global, 1) == 1
  {
    assert c.global[..3][0] == c.global[0] && c.global[..3][1] == c.global[1] && c.global[..3][2] == c.global[2];
    var start := Leaders(0, 0, 0);
    var l := MostAbundant(c.rare, c.global, 0, start);
    assert l == MostAbundant(c.rare, c.global, 1, start);
    assert l == MostAbundant(c.rare, c.global, 2, start);
    assert l == MostAbundant(c.rare, c.global, 3, start) == start;
    var d := EvictOne(c);
    assert d.rare == [2, 1] && d.top == 5;
    var next := Leaders(2, 2, 0);
    var m := MostAbundant(d.rare, d.global, 0, next);
    assert m == MostAbundant(d.rare, d.global, 1, next);
    assert m == MostAbundant(d.rare, d.global, 2, Leaders(1, 2, 1)) == Leaders(1, 2, 1);
    var e := EvictOne(d);
    assert e.rare == [2] && Evict(c, o) == Evict(d, o) == Evict(e, o) == e;
  }

  /** The guard of the loop means what it is for: when some rare feature is as frequent
      as noted, a round drops one above the threshold; else possibly none is. */
  lemma DropsAboveThresholdIff(c: Corpus, o: Options, p: nat)
    requires Distinct(c.rare) && LastOfMost(c.rare, c.global, |c.rare|, p)
    ensures GlobalCount(c.global, c.rare[p]) > o.threshold <==>
              exists r :: r in c.rare && GlobalCount(c.global, r) > o.threshold
    ensures TopIsMet(c) && c.top > o.threshold ==> GlobalCount(c.global, c.rare[p]) > o.threshold
  {
    forall r | r in c.rare
      ensures GlobalCount(c.global, r) <= GlobalCount(c.global, c.rare[p])
    {
      var k :| 0 <= k < |c.rare| && c.rare[k] == r;
      assert CountAt(c.rare, c.global, k) <= CountAt(c.rare, c.global, p);
    }
  }

  // ------------------------------------------------------------- what every operation keeps

  lemma ReleaseRare(c: Corpus, owner: nat)
    requires RareInv(c) && owner < |c.inputs| && c.inputs[owner].numFeatures > 0
    ensures RareInv(Release(c, owner))
  {
    CountedForSame(c.inputs, Release(c, owner).inputs, c.global, c.rare);
  }

  lemma AddFeatureRare(c: Corpus, o: Options, idx: nat, size: nat)
    requires Shaped(c) && OwnerIsThere(c, idx % FEATURES, size, o.shrink) && RareInv(c) && size > 0
    ensures RareInv(AddFeature(c, o, idx, size).0)
  {
    var f := idx % FEATURES;
    if Takes(c, f, size, o.shrink) {
      if c.sizes[f] > 0 {
        ReleaseRare(c, c.owners[f]);
      } else if o.entropic {
        AddRareCounted(Added(c), o, f);
      }
    }
  }

  /** No local counter is full when it is bumped: the global one, which is not full,
      covers it. */
  lemma BumpNeverWraps(c: Corpus, f: nat, i: nat)
    requires RareInv(c) && f in c.rare && f < |c.global| && c.global[f] != 0xFFFF && i < |c.inputs|
    ensures Count(c.inputs[i].freqs, f) + 1 < COUNTER
  {
    assert LocalSum(c.inputs, f) <= c.global[f];
    CountAtMostSum(c.inputs, i, f);
  }

  lemma BumpOfRare(fs: Freqs, key: nat, rare: seq<nat>)
    requires OfRare(fs, rare) && key in rare && Count(fs, key) + 1 < COUNTER
    ensures OfRare(Bump(fs, key), rare)
  {
    BumpCounts(fs, key, key);
    forall k: nat | Has(Bump(fs, key), k)
      ensures k in rare
    {
      BumpCounts(fs, key, k);
    }
  }

  lemma BumpCounted(inputs: seq<Info>, global: seq<nat>, rare: seq<nat>, i: nat, f: nat)
    requires Counted(inputs, global, rare) && f in rare && i < |inputs| && f < |global| &&
             Count(inputs[i].freqs, f) + 1 < COUNTER
    ensures Counted(BumpAt(inputs, i, f), global[f := global[f] + 1], rare)
  {
    var after := BumpAt(inputs, i, f);
    BumpOfRare(inputs[i].freqs, f, rare);
    forall r | r in rare
      ensures r < |global| && LocalSum(after, r) <= global[f := global[f] + 1][r]
    {
      SumOfBumped(inputs, i, f, r);
    }
  }

  lemma CountFeatureRare(c: Corpus, ii: nat, idx: nat)
    requires Shaped(c) && RareInv(c)
    ensures RareInv(CountFeature(c, ii, idx))
  {
    var f := idx % FEATURES;
    if c.global[f] != 0xFFFF {
      if f in c.rare && ii < |c.inputs| {
        BumpNeverWraps(c, f, ii);
        BumpCounted(c.inputs, c.global, c.rare, ii, f);
      }
      assert Covered(c.inputs, c.global[f := c.global[f] + 1], c.rare);
    }
  }

  lemma AddToCorpusRare(c: Corpus, unit: seq<byte>, numFeatures: nat, focus: bool)
    requires RareInv(c)
    ensures RareInv(AddToCorpus(c, unit, numFeatures, focus))
  {
    var after := AddToCorpus(c, unit, numFeatures, focus).inputs;
    forall r | r in c.rare
      ensures r < |c.global| && LocalSum(after, r) <= c.global[r]
    {
      assert after[..|after| - 1] == c.inputs && LocalSum(after, r) == LocalSum(c.inputs, r);
    }
  }

  // ------------------------------------------------------------- what follows

  lemma {:induction false} NoMoreThanKeys(fs: Freqs, s: set<nat>)
    requires Ordered(fs) && forall i :: 0 <= i < |fs| ==> fs[i].0 in s
    ensures |fs| <= |s|
  {
    if fs != [] {
      var last := fs[|fs| - 1].0;
      NoMoreThanKeys(fs[..|fs| - 1], s - {last});
      assert |s - {last}| == |s| - 1;
    }
  }

  lemma {:induction false} ElementsAtMost(s: set<nat>, q: seq<nat>)
    requires forall x :: x in s ==> x in q
    ensures |s| <= |q|
  {
    if q != [] {
      var last := q[|q| - 1];
      ElementsAtMost(s - {last}, q[..|q| - 1]);
      assert |s| <= |s - {last}| + 1 by {
        assert last in s ==> |s - {last}| == |s| - 1;
        assert last !in s ==> s - {last} == s;
      }
    }
  }

  /** `GlobalNumberOfFeatures - FeatureFreqs.size()` does not underflow, and no
      16-bit counter is ever out of range. */
  lemma EnergySubtractionIsSafe(c: Corpus, i: nat)
    requires RareInv(c) && i < |c.inputs|
    ensures |c.inputs[i].freqs| <= |c.rare|
    ensures forall k :: 0 <= k < |c.inputs[i].freqs| ==> c.inputs[i].freqs[k].1 < COUNTER
  {
    var fs := c.inputs[i].freqs;
    assert OfRare(fs, c.rare);
    var rare := set r | r in c.rare;
    forall k | 0 <= k < |fs|
      ensures fs[k].0 in rare
    {
      CountMeans(fs, k);
    }
    NoMoreThanKeys(fs, rare);
    ElementsAtMost(rare, c.rare);
    forall k | 0 <= k < |fs|
      ensures fs[k].1 < COUNTER
    {
      CountMeans(fs, k);
      CountAtMostSum(c.inputs, i, fs[k].0);
      assert LocalSum(c.inputs, fs[k].0) <= c.global[fs[k].0];
    }
  }
}
