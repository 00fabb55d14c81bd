/** Which parameters share a definition with a stored value: a search against the edges
    of the value-flow graph for the nodes that have no predecessor. */
module RootSearch {
  import opened Paths
  import opened Wrappers
  import opened Sequences

  /** For every node the sources of its incoming edges. */
  type Graph = seq<seq<nat>>

  predicate Proper(g: Graph) {
    forall x, k :: 0 <= x < |g| && 0 <= k < |g[x]| ==> g[x][k] < |g|
  }

  ghost function Up(g: Graph): set<(nat, nat)> {
    set x: nat, y | x < |g| && y in g[x] :: (x, y)
  }

  /** The nodes from which one of `from` can be reached. */
  ghost function Ancestors(g: Graph, from: seq<nat>): set<nat> {
    set v: nat | v < |g| && ReachedFrom(g, from, v)
  }

  ghost predicate ReachedFrom(g: Graph, from: seq<nat>, v: nat) {
    exists s :: s in from && Reach(Up(g), s, v)
  }

  /** The ancestors without a predecessor. */
  ghost function Definitions(g: Graph, from: seq<nat>): set<nat> {
    set r | r in Ancestors(g, from) && g[r] == []
  }

  // ------------------------------------------------------------- the search

  /** Nodes seen and settled: their predecessors are seen. */
  ghost predicate Settled(g: Graph, visited: set<nat>, waiting: seq<nat>) {
    forall x, y {:trigger x in visited, y in g[x]} :: x in visited && x !in waiting && x < |g| && y in g[x] ==>
      y in visited
  }

  /** Of the nodes seen and not waiting, the roots were reported, each once. */
  ghost predicate Reported(g: Graph, visited: set<nat>, waiting: seq<nat>, roots: seq<nat>) {
    Distinct(roots) && (forall r :: r in roots <==> r in visited && r !in waiting && r < |g| && g[r] == [])
  }

  ghost predicate Searching(g: Graph, from: seq<nat>, visited: set<nat>, waiting: seq<nat>, roots: seq<nat>) {
    && visited <= Ancestors(g, from) && Distinct(waiting) && (forall x :: x in waiting ==> x in visited)
    && Settled(g, visited, waiting) && Reported(g, visited, waiting, roots)
  }

  lemma ParentIsAncestor(g: Graph, from: seq<nat>, x: nat, y: nat)
    requires x in Ancestors(g, from) && y in g[x] && y < |g|
    ensures y in Ancestors(g, from)
  {
    var s :| s in from && Reach(Up(g), s, x);
    assert (x, y) in Up(g);
    ReachSnoc(Up(g), s, x, y);
  }

  lemma SourceIsAncestor(g: Graph, from: seq<nat>, s: nat)
    requires s in from && s < |g|
    ensures s in Ancestors(g, from)
  {
    ReachRefl(Up(g), s);
  }

  /** When nothing waits and the sources were seen, all ancestors were. */
  lemma AllSeen(g: Graph, from: seq<nat>, visited: set<nat>)
    requires Settled(g, visited, []) && forall s :: s in from ==> s in visited
    ensures Ancestors(g, from) <= visited
  {
    forall v | v in Ancestors(g, from)
      ensures v in visited
    {
      var s :| s in from && Reach(Up(g), s, v);
      forall x, y | x in visited && (x, y) in Up(g)
        ensures y in visited
      {
        assert y in g[x];
      }
      ReachStaysInside(Up(g), visited, s, v);
    }
  }

  /** See the predecessors of `x`, which was waiting. */
  method Expand(g: Graph, ghost from: seq<nat>, x: nat, visited: set<nat>, waiting: seq<nat>, ghost roots: seq<nat>)
    returns (visited': set<nat>, waiting': seq<nat>)
    requires Proper(g) && Searching(g, from, visited, waiting + [x], roots) && x < |g| && g[x] != []
    ensures Searching(g, from, visited', waiting', roots) && visited <= visited'
    ensures visited' == visited ==> waiting' == waiting
  {
    visited', waiting' := visited, waiting;
    for k := 0 to |g[x]|
      invariant Searching(g, from, visited', waiting' + [x], roots) && visited <= visited'
      invariant visited' == visited ==> waiting' == waiting
      invariant forall j :: 0 <= j < k ==> g[x][j] in visited'
    {
      var parent := g[x][k];
      if parent !in visited' {
        ParentIsAncestor(g, from, x, parent);
        SeeNew(g, from, x, parent, visited', waiting', roots);
        visited', waiting' := visited' + {parent}, waiting' + [parent];
      }
    }
    SettleOne(g, from, x, visited', waiting', roots);
  }

  /** The predecessors of `x` are seen, and it is not a root. */
  lemma SettleOne(g: Graph, from: seq<nat>, x: nat, visited: set<nat>, waiting: seq<nat>, roots: seq<nat>)
    requires Searching(g, from, visited, waiting + [x], roots) && x < |g| && g[x] != []
    requires forall y :: y in g[x] ==> y in visited
    ensures Searching(g, from, visited, waiting, roots)
  {
    assert forall y :: y in waiting + [x] <==> y in waiting || y == x;
    assert forall i :: 0 <= i < |waiting| ==> (waiting + [x])[i] == waiting[i];
  }

  lemma SeeNew(g: Graph, from: seq<nat>, x: nat, parent: nat, visited: set<nat>, waiting: seq<nat>, roots: seq<nat>)
    requires Searching(g, from, visited, waiting + [x], roots) && parent !in visited && parent in Ancestors(g, from)
    ensures Searching(g, from, visited + {parent}, waiting + [parent] + [x], roots)
  {
    var w := waiting + [parent] + [x];
    assert forall y :: y in w <==> y in waiting + [x] || y == parent;
    assert forall i :: 0 <= i < |waiting| ==> w[i] == (waiting + [x])[i];
    assert (waiting + [x])[|waiting|] == x;
    assert forall i :: 0 <= i < |waiting| ==> w[i] in waiting + [x] && w[i] != x;
  }

  /** The next root is reported; the search goes on unless told to stop. */
  lemma ReportRoot(g: Graph, from: seq<nat>, x: nat, visited: set<nat>, waiting: seq<nat>, roots: seq<nat>)
    requires Searching(g, from, visited, waiting + [x], roots) && x < |g| && g[x] == []
    ensures Searching(g, from, visited, waiting, roots + [x]) && x in Definitions(g, from)
  {
    var w := waiting + [x];
    assert forall y :: y in w <==> y in waiting || y == x;
    assert forall i :: 0 <= i < |waiting| ==> w[i] == waiting[i];
    assert w[|waiting|] == x;
    assert forall r :: r in roots + [x] <==> r in roots || r == x;
  }

  /** One source more to search from. */
  lemma MoreSources(g: Graph, from: seq<nat>, s: nat, visited: set<nat>, roots: seq<nat>)
    requires Searching(g, from, visited, [], roots) && s < |g|
    ensures Searching(g, from + [s], visited + {s}, if s in visited then [] else [s], roots)
  {
    assert s in visited ==> visited + {s} == visited;
    assert forall x :: x in from ==> x in from + [s];
    assert s in from + [s];
    SourceIsAncestor(g, from + [s], s);
  }

  /** `stop` said no to the roots reported so far, each time. */
  ghost predicate WentOn(stop: seq<nat> -> bool, roots: seq<nat>) {
    forall k {:trigger roots[..k]} :: 0 < k <= |roots| ==> !stop(roots[..k])
  }

  lemma GoesOn(stop: seq<nat> -> bool, roots: seq<nat>, x: nat)
    requires WentOn(stop, roots) && !stop(roots + [x])
    ensures WentOn(stop, roots + [x])
  {
    var more := roots + [x];
    assert more[..|more|] == more;
    assert forall k :: 0 <= k <= |roots| ==> more[..k] == roots[..k];
  }

  /** It did so until the last one. */
  ghost predicate StoppedAt(stop: seq<nat> -> bool, roots: seq<nat>) {
    roots != [] && stop(roots) && WentOn(stop, roots[..|roots| - 1])
  }

  lemma SplitLast(w: seq<nat>)
    requires w != []
    ensures w[|w| - 1] in w && w == w[..|w| - 1] + [w[|w| - 1]]
  {
  }

  /** Drain the worklist. `stop` sees the roots reported so far. */
  method Drain(g: Graph, ghost from: seq<nat>, visited: set<nat>, waiting: seq<nat>, roots: seq<nat>,
               stop: seq<nat> -> bool)
    returns (visited': set<nat>, roots': seq<nat>, stopped: bool)
    requires Proper(g) && Searching(g, from, visited, waiting, roots) && WentOn(stop, roots)
    ensures visited <= visited'
    ensures stopped ==> StoppedAt(stop, roots') && FromDefinitions(g, from, roots') && Distinct(roots')
    ensures !stopped ==> Searching(g, from, visited', [], roots') && WentOn(stop, roots')
  {
    visited', roots', stopped := visited, roots, false;
    var w := waiting;
    ghost var all := Ancestors(g, from);
    while w != []
      invariant Searching(g, from, visited', w, roots') && visited <= visited' <= all == Ancestors(g, from) &&
                WentOn(stop, roots')
      decreases |all - visited'|, |w|
    {
      var curr := w[|w| - 1];
      SplitLast(w);
      w := w[..|w| - 1];
      if g[curr] == [] {
        ReportRoot(g, from, curr, visited', w, roots');
        if stop(roots' + [curr]) {
          roots', stopped := roots' + [curr], true;
          ReportedAreDefinitions(g, from, visited', w, roots');
          return;
        }
        GoesOn(stop, roots', curr);
        roots' := roots' + [curr];
      } else {
        ghost var before := visited';
        visited', w := Expand(g, from, curr, visited', w, roots');
        if visited' != before {
          Fewer(all, before, visited');
        }
      }
    }
  }

  lemma Fewer(all: set<nat>, a: set<nat>, b: set<nat>)
    requires a < b <= all
    ensures |all - b| < |all - a|
  {
    var x :| x in b && x !in a;
    assert all - b <= all - a - {x};
    Smaller(all - b, all - a - {x});
  }

  lemma Smaller(a: set<nat>, b: set<nat>)
    requires a <= b
    ensures |a| <= |b|
  {
    assert b == a + (b - a);
  }

  ghost predicate FromDefinitions(g: Graph, from: seq<nat>, roots: seq<nat>) {
    forall r :: r in roots ==> r in Definitions(g, from)
  }

  lemma ReportedAreDefinitions(g: Graph, from: seq<nat>, visited: set<nat>, waiting: seq<nat>, roots: seq<nat>)
    requires Searching(g, from, visited, waiting, roots)
    ensures FromDefinitions(g, from, roots) && Distinct(roots)
  {
  }

  lemma MoreDefinitions(g: Graph, from: seq<nat>, more: seq<nat>)
    requires forall s :: s in from ==> s in more
    ensures Definitions(g, from) <= Definitions(g, more)
  {
    forall v | v in Ancestors(g, from)
      ensures v in Ancestors(g, more)
    {
      var s :| s in from && Reach(Up(g), s, v);
      assert s in more;
    }
  }

  /** Report the roots of `sources`, each once, until `stop` says so. Unless stopped,
      all of them are reported. */
  method FindDefinitions(g: Graph, sources: seq<nat>, stop: seq<nat> -> bool) returns (roots: seq<nat>, stopped: bool)
    requires Proper(g) && forall s :: s in sources ==> s < |g|
    ensures FromDefinitions(g, sources, roots) && Distinct(roots)
    ensures stopped ==> StoppedAt(stop, roots)
    ensures !stopped ==> WentOn(stop, roots) && forall r :: r in Definitions(g, sources) ==> r in roots
  {
    var visited: set<nat> := {};
    roots, stopped := [], false;
    for i := 0 to |sources|
      invariant !stopped && Searching(g, sources[..i], visited, [], roots) && WentOn(stop, roots)
      invariant forall s :: s in sources[..i] ==> s in visited
    {
      var s := sources[i];
      assert sources[..i + 1] == sources[..i] + [s] && s in sources;
      MoreSources(g, sources[..i], s, visited, roots);
      var waiting := if s in visited then [] else [s];
      visited := visited + {s};
      visited, roots, stopped := Drain(g, sources[..i + 1], visited, waiting, roots, stop);
      if stopped {
        MoreDefinitions(g, sources[..i + 1], sources);
        return;
      }
    }
    assert sources[..|sources|] == sources;
    AllSeen(g, sources, visited);
    ReportedAreDefinitions(g, sources, visited, [], roots);
  }

  // ------------------------------------------------------------- parameters and stored values

  /** Parameters by root: the positions of the parameters that have the root among their
      definitions. */
  type Roots = map<nat, seq<nat>>

  function ParamsAt(m: Roots, r: nat): seq<nat> {
    if r in m then m[r] else []
  }

  /** A parameter other than the current one that has a node. */
  predicate Candidate(params: seq<Option<nat>>, current: nat, i: nat) {
    i < |params| && i != current && params[i].Some?
  }

  /** Parameter `i` has an ancestor without a predecessor in common with a stored value. */
  ghost predicate SharesDefinition(g: Graph, params: seq<Option<nat>>, i: nat, stored: seq<nat>)
    requires i < |params| && params[i].Some?
  {
    exists r :: r in Definitions(g, [params[i].value]) && r in Definitions(g, stored)
  }

  /** `m` maps roots to the candidates below `n` whose definitions they are. */
  ghost predicate MapsRoots(g: Graph, params: seq<Option<nat>>, current: nat, n: nat, m: Roots) {
    && (forall r: nat, i: nat {:trigger i in ParamsAt(m, r)} :: i in ParamsAt(m, r) <==>
          i < n && Candidate(params, current, i) && r in Definitions(g, [params[i].value]))
    && (forall r :: r in m ==> m[r] != [])
  }

  lemma AddOne(m: Roots, root: nat, idx: nat)
    ensures var m' := m[root := ParamsAt(m, root) + [idx]];
            forall r: nat, i: nat {:trigger i in ParamsAt(m', r)} :: i in ParamsAt(m', r) <==>
              i in ParamsAt(m, r) || (i == idx && r == root)
  {
  }

  method AddParam(m: Roots, roots: seq<nat>, idx: nat) returns (m': Roots)
    requires Distinct(roots) && forall r :: r in m ==> m[r] != []
    ensures forall r: nat, i: nat {:trigger i in ParamsAt(m', r)} :: i in ParamsAt(m', r) <==>
              i in ParamsAt(m, r) || (i == idx && r in roots)
    ensures forall r :: r in m' ==> m'[r] != []
  {
    m' := m;
    for k := 0 to |roots|
      invariant forall r: nat, i: nat {:trigger i in ParamsAt(m', r)} :: i in ParamsAt(m', r) <==>
                  i in ParamsAt(m, r) || (i == idx && r in roots[..k])
      invariant forall r :: r in m' ==> m'[r] != []
    {
      assert roots[..k + 1] == roots[..k] + [roots[k]];
      AddOne(m', roots[k], idx);
      m' := m'[roots[k] := ParamsAt(m', roots[k]) + [idx]];
    }
    assert roots[..|roots|] == roots;
  }

  ghost function Candidates(params: seq<Option<nat>>, current: nat, n: nat): set<nat> {
    set i: nat | i < n && Candidate(params, current, i)
  }

  method CollectRoots(g: Graph, params: seq<Option<nat>>, current: nat) returns (m: Roots, numCandidates: nat)
    requires Proper(g) && forall i :: 0 <= i < |params| && params[i].Some? ==> params[i].value < |g|
    ensures MapsRoots(g, params, current, |params|, m) && numCandidates == |Candidates(params, current, |params|)|
  {
    m, numCandidates := map[], 0;
    assert Candidates(params, current, 0) == {};
    for idx := 0 to |params|
      invariant MapsRoots(g, params, current, idx, m) && numCandidates == |Candidates(params, current, idx)|
    {
      OneMoreParam(params, current, idx);
      if idx == current || params[idx].None? {
        continue;
      }
      numCandidates := numCandidates + 1;
      var roots, _ := FindDefinitions(g, [params[idx].value], (history: seq<nat>) => false);
      m := AddParam(m, roots, idx);
    }
  }

  lemma OneMoreParam(params: seq<Option<nat>>, current: nat, n: nat)
    ensures Candidates(params, current, n + 1) ==
              Candidates(params, current, n) + if Candidate(params, current, n) then {n} else {}
  {
  }

  /** The parameters that roots reported so far belong to. */
  function FoundBy(m: Roots, history: seq<nat>): set<nat> {
    if history == [] then {}
    else FoundBy(m, history[..|history| - 1]) + Elements(ParamsAt(m, history[|history| - 1]))
  }

  function Elements(s: seq<nat>): set<nat> {
    set i | i in s
  }

  lemma {:induction false} FoundMeans(m: Roots, history: seq<nat>, i: nat)
    ensures i in FoundBy(m, history) <==> exists r :: r in history && i in ParamsAt(m, r)
  {
    if history != [] {
      var front, last := history[..|history| - 1], history[|history| - 1];
      FoundMeans(m, front, i);
      assert forall r :: r in history <==> r in front || r == last;
    }
  }

  /** The flags of the parameters found so far, and their number. */
  datatype Tally = Tally(found: seq<bool>, num: nat)

  function Counted(t: Tally, idx: nat): Tally {
    if idx < |t.found| && !t.found[idx] then Tally(t.found[idx := true], t.num + 1) else t
  }

  function CountedAll(t: Tally, params: seq<nat>): Tally {
    if params == [] then t else Counted(CountedAll(t, params[..|params| - 1]), params[|params| - 1])
  }

  /** The tally after the roots reported so far. */
  function TallyOf(m: Roots, n: nat, history: seq<nat>): Tally {
    if history == [] then Tally(seq(n, _ => false), 0)
    else CountedAll(TallyOf(m, n, history[..|history| - 1]), ParamsAt(m, history[|history| - 1]))
  }

  /** The flags mark the members of `s`, and the number is theirs. */
  ghost predicate Tallies(t: Tally, n: nat, s: set<nat>) {
    && |t.found| == n && t.num == |s|
    && forall i: nat :: i in s <==> i < n && t.found[i]
  }

  lemma CountedTallies(t: Tally, n: nat, s: set<nat>, idx: nat)
    requires Tallies(t, n, s) && idx < n
    ensures Tallies(Counted(t, idx), n, s + {idx})
  {
    if idx in s {
      assert s + {idx} == s;
    }
  }

  lemma {:induction false} CountedAllTallies(t: Tally, n: nat, s: set<nat>, params: seq<nat>)
    requires Tallies(t, n, s) && forall i {:trigger i in params} :: i in params ==> i < n
    ensures Tallies(CountedAll(t, params), n, s + Elements(params))
  {
    if params == [] {
      assert s + Elements([]) == s;
    } else {
      var front, last := params[..|params| - 1], params[|params| - 1];
      forall i | i in front
        ensures i in params
      {
      }
      CountedAllTallies(t, n, s, front);
      assert last in params;
      CountedTallies(CountedAll(t, front), n, s + Elements(front), last);
      assert s + Elements(params) == s + Elements(front) + {last};
    }
  }

  lemma {:induction false} TallyIsFound(m: Roots, n: nat, history: seq<nat>)
    requires forall r, i :: i in ParamsAt(m, r) ==> i < n
    ensures Tallies(TallyOf(m, n, history), n, FoundBy(m, history))
  {
    if history != [] {
      TallyIsFound(m, n, history[..|history| - 1]);
      CountedAllTallies(TallyOf(m, n, history[..|history| - 1]), n, FoundBy(m, history[..|history| - 1]),
                        ParamsAt(m, history[|history| - 1]));
    }
  }

  /** What the callback answers to the last root: a root of no parameter does not stop
      the search. */
  function AllCounted(m: Roots, n: nat, numCandidates: nat, history: seq<nat>): bool {
    history != [] && history[|history| - 1] in m && TallyOf(m, n, history).num == numCandidates
  }

  /** Exactly the other parameters that share a definition with some stored value are
      found, although the search ends as soon as all candidates are. */
  method ExtractDependencies(g: Graph, params: seq<Option<nat>>, current: nat, stored: seq<nat>)
    returns (found: set<nat>)
    requires Proper(g) && forall s :: s in stored ==> s < |g|
    requires forall i :: 0 <= i < |params| && params[i].Some? ==> params[i].value < |g|
    ensures forall i :: i in found <==> Candidate(params, current, i) && SharesDefinition(g, params, i, stored)
  {
    var m, numCandidates := CollectRoots(g, params, current);
    if m == map[] {
      NoRoots(g, params, current, m);
      return {};
    }
    var n := |params|;
    var roots, stopped := FindDefinitions(g, stored, (history: seq<nat>) => AllCounted(m, n, numCandidates, history));
    var tally := TallyOf(m, n, roots);
    found := set i | 0 <= i < n && i < |tally.found| && tally.found[i];
    InRange(g, params, current, m);
    TallyIsFound(m, n, roots);
    assert found == FoundBy(m, roots);
    FoundShare(g, params, current, stored, m, roots);
    if stopped {
      EveryoneFound(g, params, current, m, roots);
    } else {
      AllFound(g, params, current, stored, m, roots);
    }
  }

  lemma InRange(g: Graph, params: seq<Option<nat>>, current: nat, m: Roots)
    requires MapsRoots(g, params, current, |params|, m)
    ensures forall r, i :: i in ParamsAt(m, r) ==> i < |params|
  {
  }

  lemma NoRoots(g: Graph, params: seq<Option<nat>>, current: nat, m: Roots)
    requires MapsRoots(g, params, current, |params|, m) && m == map[]
    ensures forall i: nat, r :: Candidate(params, current, i) ==> r !in Definitions(g, [params[i].value])
  {
    forall i: nat, r: nat | Candidate(params, current, i)
      ensures r !in Definitions(g, [params[i].value])
    {
      assert i !in ParamsAt(m, r);
    }
  }

  /** Whoever is found shares a definition. */
  lemma FoundShare(g: Graph, params: seq<Option<nat>>, current: nat, stored: seq<nat>, m: Roots, roots: seq<nat>)
    requires MapsRoots(g, params, current, |params|, m) && FromDefinitions(g, stored, roots)
    ensures forall i :: i in FoundBy(m, roots) ==>
              Candidate(params, current, i) && SharesDefinition(g, params, i, stored)
  {
    forall i | i in FoundBy(m, roots)
      ensures Candidate(params, current, i) && SharesDefinition(g, params, i, stored)
    {
      FoundMeans(m, roots, i);
      var r :| r in roots && i in ParamsAt(m, r);
    }
  }

  /** When the search stops early, no candidate is missing. */
  lemma EveryoneFound(g: Graph, params: seq<Option<nat>>, current: nat, m: Roots, roots: seq<nat>)
    requires MapsRoots(g, params, current, |params|, m) &&
             |FoundBy(m, roots)| == |Candidates(params, current, |params|)|
    ensures forall i: nat :: Candidate(params, current, i) ==> i in FoundBy(m, roots)
  {
    var c, f := Candidates(params, current, |params|), FoundBy(m, roots);
    forall i | i in f
      ensures i in c
    {
      FoundMeans(m, roots, i);
      var r :| r in roots && i in ParamsAt(m, r);
    }
    if f != c {
      assert f < c;
      ProperSubset(f, c);
    }
  }

  lemma ProperSubset(a: set<nat>, b: set<nat>)
    requires a < b
    ensures |a| < |b|
  {
    var x :| x in b && x !in a;
    Smaller(a, b - {x});
  }

  /** When it does not, every shared definition was met. */
  lemma AllFound(g: Graph, params: seq<Option<nat>>, current: nat, stored: seq<nat>, m: Roots, roots: seq<nat>)
    requires MapsRoots(g, params, current, |params|, m) && forall r :: r in Definitions(g, stored) ==> r in roots
    ensures forall i: nat :: Candidate(params, current, i) && SharesDefinition(g, params, i, stored) ==>
              i in FoundBy(m, roots)
  {
    forall i: nat | Candidate(params, current, i) && SharesDefinition(g, params, i, stored)
      ensures i in FoundBy(m, roots)
    {
      var r :| r in Definitions(g, [params[i].value]) && r in Definitions(g, stored);
      assert i in ParamsAt(m, r);
      FoundMeans(m, roots, i);
    }
  }
}
