/** Transitive reduction of the dominance relation: an edge is kept when the
    longest path between its ends has length one. */
module TransitiveReduction {
  import opened Paths
  import opened Sequences

  type Matrix = seq<seq<bool>>
  type Relation = set<(nat, nat)>

  ghost predicate Square(reach: Matrix) {
    forall i :: 0 <= i < |reach| ==> |reach[i]| == |reach|
  }

  ghost function EdgesOf(reach: Matrix): Relation
    requires Square(reach)
  {
    set u: nat, v: nat | u < |reach| && v < |reach| && reach[u][v] :: (u, v)
  }

  /** With one of its vertices, `T` holds all from which it can be reached, and no walk
      returns to where it started in `T`. For an acyclic relation these can be all. */
  ghost predicate Acyclic(E: Relation, T: set<nat>) {
    && Downward(E, T)
    && forall p, v {:trigger Walk(E, p, v, v)} :: Walk(E, p, v, v) && v in T ==> |p| == 1
  }

  ghost predicate Downward(E: Relation, T: set<nat>) {
    forall u, v :: (u, v) in E && v in T ==> u in T
  }

  /** `n` is the length of a longest walk from `s` to `d`, or -1 if there is none. */
  ghost predicate IsLongest(E: Relation, s: nat, d: nat, n: int) {
    && n >= -1
    && (n >= 0 ==> exists p :: Walk(E, p, s, d) && |p| == n + 1)
    && (forall p :: Walk(E, p, s, d) ==> |p| <= n + 1)
  }

  // ------------------------------------------------------ topological order

  ghost function Marked(vis: seq<bool>): set<nat> {
    set v | v in Below(|vis|) && vis[v]
  }

  /** Every successor, in `T`, of a pushed vertex was pushed earlier. */
  ghost predicate SuccessorsFirst(E: Relation, T: set<nat>, stack: seq<nat>) {
    forall i, y :: 0 <= i < |stack| && y in T && (stack[i], y) in E ==> y in stack[..i]
  }

  /** The visited vertices are the pushed ones and the ones still being expanded. */
  ghost predicate Sorting(E: Relation, T: set<nat>, vis: seq<bool>, stack: seq<nat>, expanding: set<nat>) {
    && (forall v :: v in Marked(vis) <==> v in stack || v in expanding)
    && (forall v :: v in stack ==> v !in expanding)
    && Distinct(stack)
    && SuccessorsFirst(E, T, stack)
  }

  /** The target of such an edge does not reach its source. */
  lemma NoWayBack(E: Relation, T: set<nat>, u: nat, x: nat)
    requires Acyclic(E, T) && x in T && (u, x) in E
    ensures !Reach(E, x, u)
  {
    forall p | Walk(E, p, x, u)
      ensures Walk(E, [u, x] + p[1..], u, u)
    {
      assert Walk(E, [u, x], u, x);
      WalkJoin(E, [u, x], p, u, x, u);
    }
  }

  /** Pushing `u` once all its successors are visited. */
  lemma PushKeeps(E: Relation, T: set<nat>, vis: seq<bool>, stack: seq<nat>, expanding: set<nat>, u: nat)
    requires Acyclic(E, T) && Sorting(E, T, vis, stack, expanding + {u}) && u !in expanding
    requires forall y :: (u, y) in E ==> y in Marked(vis)
    requires AllReach(E, expanding, u)
    ensures Sorting(E, T, vis, stack + [u], expanding)
  {
    ReachRefl(E, u);
    forall i, y | 0 <= i < |stack| + 1 && y in T && ((stack + [u])[i], y) in E
      ensures y in (stack + [u])[..i]
    {
      if i < |stack| {
        assert (stack + [u])[..i] == stack[..i];
      } else {
        assert (stack + [u])[..i] == stack;
        NoWayBack(E, T, u, y);
      }
    }
  }

  ghost predicate AllReach(E: Relation, S: set<nat>, u: nat) {
    forall x {:trigger Reach(E, x, u)} :: x in S ==> Reach(E, x, u)
  }

  lemma AllReachStep(E: Relation, S: set<nat>, u: nat, v: nat)
    requires AllReach(E, S, u) && (u, v) in E
    ensures AllReach(E, S + {u}, v)
  {
    forall x | x in S + {u}
      ensures Reach(E, x, v)
    {
      ReachEdge(E, u, v);
      if x in S {
        ReachTrans(E, x, u, v);
      }
    }
  }

  lemma MarkKeeps(E: Relation, T: set<nat>, vis: seq<bool>, stack: seq<nat>, expanding: set<nat>, u: nat)
    requires Sorting(E, T, vis, stack, expanding) && u < |vis| && !vis[u]
    ensures Sorting(E, T, vis[u := true], stack, expanding + {u}) && u !in expanding
    ensures Unmarked(vis[u := true]) < Unmarked(vis)
  {
    assert u !in Marked(vis);
    assert forall v :: v in Marked(vis[u := true]) <==> v in Marked(vis) || v == u;
    assert u in Unmarked(vis) && u !in Unmarked(vis[u := true]);
  }

  ghost function Unmarked(vis: seq<bool>): set<nat> {
    Below(|vis|) - Marked(vis)
  }

  lemma MarkingShrinks(vis: seq<bool>, vis': seq<bool>)
    requires |vis| == |vis'| && forall v :: 0 <= v < |vis| && vis[v] ==> vis'[v]
    ensures Unmarked(vis') <= Unmarked(vis)
  {
  }

  method TopoSort(u: nat, vis: array<bool>, stack: seq<nat>, reach: Matrix, ghost T: set<nat>,
                  ghost expanding: set<nat>)
    returns (stack': seq<nat>)
    requires Square(reach) && vis.Length == |reach| && u < |reach| && !vis[u] && Acyclic(EdgesOf(reach), T)
    requires Sorting(EdgesOf(reach), T, vis[..], stack, expanding) && AllReach(EdgesOf(reach), expanding, u)
    modifies vis
    ensures Sorting(EdgesOf(reach), T, vis[..], stack', expanding)
    ensures forall v :: 0 <= v < vis.Length && (old(vis[v]) || v == u) ==> vis[v]
    decreases Unmarked(vis[..])
  {
    ghost var E := EdgesOf(reach);
    ghost var before := vis[..];
    MarkKeeps(E, T, before, stack, expanding, u);
    vis[u] := true;
    assert vis[..] == before[u := true];
    stack' := stack;
    for v := 0 to |reach|
      invariant Sorting(E, T, vis[..], stack', expanding + {u})
      invariant forall y :: 0 <= y < vis.Length && (before[y] || y == u) ==> vis[y]
      invariant Unmarked(vis[..]) < Unmarked(before)
      invariant forall y :: 0 <= y < v && (u, y) in E ==> vis[y]
    {
      if reach[u][v] {
        assert (u, v) in E;
        if !vis[v] {
          AllReachStep(E, expanding, u, v);
          ghost var middle := vis[..];
          stack' := TopoSort(v, vis, stack', reach, T, expanding + {u});
          MarkingShrinks(middle, vis[..]);
        }
      }
    }
    assert forall y :: (u, y) in E ==> y in Marked(vis[..]);
    PushKeeps(E, T, vis[..], stack', expanding, u);
    stack' := stack' + [u];
  }

  /** The vertices in an order in which, where the relation is acyclic, successors come first. */
  method SortAll(reach: Matrix, ghost T: set<nat>) returns (stack: seq<nat>)
    requires Square(reach) && Acyclic(EdgesOf(reach), T)
    ensures Distinct(stack) && (forall v: nat :: v in stack <==> v < |reach|) &&
            SuccessorsFirst(EdgesOf(reach), T, stack)
  {
    var vis := new bool[|reach|](_ => false);
    stack := [];
    for i := 0 to |reach|
      invariant Sorting(EdgesOf(reach), T, vis[..], stack, {})
      invariant forall v :: 0 <= v < i ==> vis[v]
    {
      if !vis[i] {
        stack := TopoSort(i, vis, stack, reach, T, {});
      }
    }
    AllMarked(vis[..], stack);
  }

  lemma AllMarked(vis: seq<bool>, stack: seq<nat>)
    requires (forall v :: 0 <= v < |vis| ==> vis[v]) && forall v :: v in Marked(vis) <==> v in stack
    ensures forall v: nat :: v in stack <==> v < |vis|
  {
  }

  // ------------------------------------------------------------ longest path

  /** `dist[v]` is the length of some walk from `s` to `v`. */
  ghost predicate Attained(E: Relation, s: nat, v: nat, n: int) {
    n >= 0 && exists p :: Walk(E, p, s, v) && |p| == n + 1
  }

  ghost predicate Walked(E: Relation, s: nat, dist: seq<int>) {
    && s < |dist| && dist[s] >= 0
    && forall v: nat {:trigger Attained(E, s, v, dist[v])} :: v < |dist| ==> dist[v] == -1 || Attained(E, s, v, dist[v])
  }

  /** Edges out of processed vertices, to a vertex of `T`, are accounted for. */
  ghost predicate Relaxed(E: Relation, T: set<nat>, dist: seq<int>, processed: seq<nat>) {
    forall x: nat, y: nat :: x in processed && y in T && (x, y) in E && x < |dist| && y < |dist| && dist[x] != -1 ==>
      dist[y] >= dist[x] + 1
  }

  lemma AttainedSnoc(E: Relation, s: nat, x: nat, y: nat, n: int)
    requires Attained(E, s, x, n) && (x, y) in E
    ensures Attained(E, s, y, n + 1)
  {
    var p :| Walk(E, p, s, x) && |p| == n + 1;
    assert Walk(E, p + [y], s, y);
  }

  /** With every edge accounted for no walk is longer than its distance. */
  lemma {:induction false} NoLongerWalk(E: Relation, T: set<nat>, s: nat, dist: seq<int>, p: seq<nat>, v: nat)
    requires s < |dist| && dist[s] >= 0 && (forall x, y :: (x, y) in E ==> x < |dist| && y < |dist|)
    requires Downward(E, T) && v in T
    requires forall x: nat, y: nat :: y in T && (x, y) in E && x < |dist| && y < |dist| && dist[x] != -1 ==>
               dist[y] >= dist[x] + 1
    requires Walk(E, p, s, v)
    ensures v < |dist| && dist[v] >= |p| - 1
  {
    if |p| > 1 {
      var q := p[..|p| - 1];
      assert (p[|p| - 2], p[|p| - 1]) in E;
      NoLongerWalk(E, T, s, dist, q, q[|q| - 1]);
    }
  }

  /** Try all the out-edges of `x`. */
  method RelaxAll(reach: Matrix, dist: array<int>, x: nat, ghost s: nat)
    requires Square(reach) && dist.Length == |reach| && x < |reach|
    requires Walked(EdgesOf(reach), s, dist[..])
    modifies dist
    ensures Walked(EdgesOf(reach), s, dist[..])
    ensures forall y :: 0 <= y < |reach| ==> dist[y] >= old(dist[y])
    ensures forall y :: 0 <= y < |reach| && (x, y) !in EdgesOf(reach) ==> dist[y] == old(dist[y])
    ensures (x, x) !in EdgesOf(reach) && dist[x] != -1 ==>
              forall y :: 0 <= y < |reach| && (x, y) in EdgesOf(reach) ==> dist[y] >= dist[x] + 1
  {
    ghost var E := EdgesOf(reach);
    if dist[x] != -1 {
      for v := 0 to |reach|
        invariant Walked(E, s, dist[..]) && dist[x] != -1
        invariant forall y :: 0 <= y < |reach| ==> dist[y] >= old(dist[y])
        invariant forall y :: 0 <= y < |reach| && (x, y) !in E ==> dist[y] == old(dist[y])
        invariant (x, x) !in E ==> forall y :: 0 <= y < v && (x, y) in E ==> dist[y] >= dist[x] + 1
      {
        if reach[x][v] {
          assert (x, v) in E;
          if dist[v] < dist[x] + 1 {
            ghost var before := dist[..];
            assert Attained(E, s, x, before[x]);
            AttainedSnoc(E, s, x, v, before[x]);
            dist[v] := dist[x] + 1;
            assert dist[..] == before[v := before[x] + 1];
          }
        }
      }
    }
  }

  /** Process the vertices off the top of `stack`. */
  method Distances(s: nat, reach: Matrix, order: seq<nat>, ghost T: set<nat>) returns (dist: seq<int>)
    requires Square(reach) && s < |reach| && Distinct(order) && forall v :: v in order ==> v < |reach|
    requires Acyclic(EdgesOf(reach), T) && SuccessorsFirst(EdgesOf(reach), T, order)
    ensures |dist| == |reach| && Walked(EdgesOf(reach), s, dist) && Relaxed(EdgesOf(reach), T, dist, order)
  {
    ghost var E := EdgesOf(reach);
    var d := new int[|reach|](_ => -1);
    d[s] := 0;
    assert Attained(E, s, s, 0) by {
      assert Walk(E, [s], s, s);
    }
    var stack := order;
    while stack != []
      invariant |stack| <= |order| && stack == order[..|stack|]
      invariant Walked(E, s, d[..])
      invariant Relaxed(E, T, d[..], order[|stack|..])
      decreases |stack|
    {
      var top := |stack| - 1;
      var next := stack[top];
      assert next == order[top] && next in order;
      ghost var before := d[..];
      RelaxAll(reach, d, next, s);
      NoLoop(E, T, next);
      RelaxKeeps(E, T, order, top, before, d[..]);
      stack := stack[..top];
    }
    dist := d[..];
    assert order[0..] == order;
  }

  /** The length of a longest path, -1 if there is no path or an end is out of range,
      to every vertex that no cycle leads to; to others, that of some path. */
  method GetLongestPath(s: int, d: int, reach: Matrix, ghost T: set<nat>) returns (n: int)
    requires Square(reach) && Acyclic(EdgesOf(reach), T)
    ensures s < 0 || d < 0 || s >= |reach| || d >= |reach| ==> n == -1
    ensures 0 <= s < |reach| && 0 <= d < |reach| ==> n == -1 || Attained(EdgesOf(reach), s, d, n)
    ensures 0 <= s < |reach| && 0 <= d < |reach| && d in T ==> IsLongest(EdgesOf(reach), s, d, n)
  {
    if s < 0 || d < 0 || s >= |reach| || d >= |reach| {
      return -1;
    }
    var stack := SortAll(reach, T);
    var dist := Distances(s, reach, stack, T);
    n := dist[d];
    assert Attained(EdgesOf(reach), s, d, dist[d]) || n == -1;
    if d in T {
      LongestFound(EdgesOf(reach), T, s, d, stack, dist);
    }
  }

  lemma NoLoop(E: Relation, T: set<nat>, x: nat)
    requires Acyclic(E, T)
    ensures (x, x) in E ==> x !in T
  {
    assert (x, x) in E ==> Walk(E, [x, x], x, x);
  }

  /** In topological order, relaxing the next vertex disturbs no earlier one. */
  lemma RelaxKeeps(E: Relation, T: set<nat>, order: seq<nat>, k: nat, before: seq<int>, after: seq<int>)
    requires Downward(E, T) && SuccessorsFirst(E, T, order) && Distinct(order) && k < |order| && |before| == |after|
    requires order[k] < |before| && forall v :: v in order ==> v < |before|
    requires Relaxed(E, T, before, order[k + 1..])
    requires forall y :: 0 <= y < |after| && (order[k], y) !in E ==> after[y] == before[y]
    requires order[k] in T && after[order[k]] != -1 ==>
               forall y :: 0 <= y < |after| && (order[k], y) in E ==> after[y] >= after[order[k]] + 1
    requires forall y :: 0 <= y < |after| ==> after[y] >= before[y]
    ensures Relaxed(E, T, after, order[k..])
  {
    forall x: nat, y: nat | x in order[k..] && y in T && (x, y) in E && x < |after| && y < |after| && after[x] != -1
      ensures after[y] >= after[x] + 1
    {
      var i :| k <= i < |order| && order[i] == x;
      if i > k {
        assert (order[k], x) !in E;
        assert order[k + 1..][i - k - 1] == x;
      }
    }
  }

  lemma LongestFound(E: Relation, T: set<nat>, s: nat, d: nat, order: seq<nat>, dist: seq<int>)
    requires Downward(E, T) && d in T && Walked(E, s, dist) && Relaxed(E, T, dist, order) && d < |dist|
    requires forall v: nat :: v < |dist| ==> v in order
    requires forall x, y :: (x, y) in E ==> x < |dist| && y < |dist|
    ensures IsLongest(E, s, d, dist[d])
  {
    assert dist[d] == -1 || Attained(E, s, d, dist[d]);
    forall p | Walk(E, p, s, d)
      ensures |p| <= dist[d] + 1
    {
      NoLongerWalk(E, T, s, dist, p, d);
    }
  }

  // ------------------------------------------------- the reduction itself

  ghost predicate StrictOrder(E: Relation) {
    && (forall v :: (v, v) !in E)
    && (forall u, v, w :: (u, v) in E && (v, w) in E ==> (u, w) in E)
  }

  /** `v` comes right after `u`: nothing is strictly between them. */
  ghost predicate Covers(E: Relation, u: nat, v: nat) {
    (u, v) in E && forall w :: !((u, w) in E && (w, v) in E)
  }

  ghost function CoverEdges(E: Relation): Relation {
    set e | e in E && Covers(E, e.0, e.1)
  }

  /** A strict order on the vertices of `T` and all below them. */
  ghost predicate OrderBelow(E: Relation, T: set<nat>) {
    && Downward(E, T) && (forall v :: v in T ==> (v, v) !in E)
    && forall u, v, w :: (u, v) in E && (v, w) in E && w in T ==> (u, w) in E
  }

  lemma {:induction false} WalkIsEdge(E: Relation, T: set<nat>, p: seq<nat>, u: nat, v: nat)
    requires OrderBelow(E, T) && v in T && Walk(E, p, u, v) && |p| > 1
    ensures (u, v) in E
  {
    assert (p[0], p[1]) in E;
    if |p| > 2 {
      WalkIsEdge(E, T, p[1..], p[1], v);
    }
  }

  lemma OrderIsAcyclic(E: Relation, T: set<nat>)
    requires OrderBelow(E, T)
    ensures Acyclic(E, T)
  {
    forall p, v | Walk(E, p, v, v) && v in T
      ensures |p| == 1
    {
      if |p| > 1 {
        WalkIsEdge(E, T, p, v, v);
      }
    }
  }

  /** On a strict order, a longest path of length one marks exactly a covering pair. */
  lemma LongestOneCovers(E: Relation, T: set<nat>, u: nat, v: nat, n: int)
    requires OrderBelow(E, T) && v in T && IsLongest(E, u, v, n)
    ensures n == 1 <==> Covers(E, u, v)
  {
    if n == 1 {
      OneIsEdge(E, u, v);
      forall w
        ensures (u, w) in E && (w, v) in E ==> Walk(E, [u, w, v], u, v)
      {
      }
    }
    if Covers(E, u, v) {
      assert Walk(E, [u, v], u, v);
      if n > 1 {
        var p :| Walk(E, p, u, v) && |p| == n + 1;
        assert (p[0], p[1]) in E;
        WalkIsEdge(E, T, p[1..], p[1], v);
      }
    }
  }

  /** A path of length one is an edge. */
  lemma OneIsEdge(E: Relation, u: nat, v: nat)
    requires Attained(E, u, v, 1)
    ensures (u, v) in E
  {
    var p :| Walk(E, p, u, v) && |p| == 2;
    assert (p[0], p[1]) in E;
  }

  ghost function Between(E: Relation, V: set<nat>, u: nat, v: nat): set<nat> {
    set w | w in V && (u, w) in E && (w, v) in E
  }

  /** Every pair of the order is joined by a chain of covering pairs. */
  lemma {:induction false} OrderIsCovered(E: Relation, T: set<nat>, u: nat, v: nat)
    requires OrderBelow(E, T) && v in T && (u, v) in E
    ensures Reach(CoverEdges(E), u, v)
    decreases Between(E, T, u, v)
  {
    var C := CoverEdges(E);
    if Between(E, T, u, v) == {} {
      forall w
        ensures !((u, w) in E && (w, v) in E)
      {
        assert w !in Between(E, T, u, v);
      }
      assert (u, v) in C;
      ReachEdge(C, u, v);
    } else {
      var w :| w in Between(E, T, u, v);
      assert w !in Between(E, T, u, w) && w !in Between(E, T, w, v);
      OrderIsCovered(E, T, u, w);
      OrderIsCovered(E, T, w, v);
      ReachTrans(C, u, w, v);
    }
  }

  /** `F` has, of the pairs that end in `T`, the covering ones. */
  ghost predicate CoversInto(E: Relation, T: set<nat>, F: Relation) {
    F <= E && forall u: nat, v: nat :: v in T ==> ((u, v) in F <==> Covers(E, u, v))
  }

  lemma {:induction false} CoverWalkIsOrder(E: Relation, T: set<nat>, F: Relation, p: seq<nat>, u: nat, v: nat)
    requires OrderBelow(E, T) && F <= E && v in T && Walk(F, p, u, v)
    ensures u == v || (u, v) in E
  {
    if |p| > 1 {
      assert (p[0], p[1]) in F;
      CoverWalkIsOrder(E, T, F, p[1..], p[1], v);
    }
  }

  /** The transitive closure of the covering pairs is the order. */
  lemma ClosureIsOrder(E: Relation, T: set<nat>, F: Relation, u: nat, v: nat)
    requires OrderBelow(E, T) && CoversInto(E, T, F) && v in T && u != v
    ensures Reach(F, u, v) <==> (u, v) in E
  {
    if (u, v) in E {
      OrderIsCovered(E, T, u, v);
      var p :| Walk(CoverEdges(E), p, u, v);
      CoverWalkInto(E, T, F, p, u, v);
    }
    if Reach(F, u, v) {
      var p :| Walk(F, p, u, v);
      CoverWalkIsOrder(E, T, F, p, u, v);
    }
  }

  lemma {:induction false} CoverWalkInto(E: Relation, T: set<nat>, F: Relation, p: seq<nat>, u: nat, v: nat)
    requires OrderBelow(E, T) && CoversInto(E, T, F) && v in T && Walk(CoverEdges(E), p, u, v)
    ensures u in T && Reach(F, u, v)
  {
    if |p| == 1 {
      ReachRefl(F, u);
    } else {
      assert (p[0], p[1]) in CoverEdges(E);
      CoverWalkInto(E, T, F, p[1..], p[1], v);
      ReachEdge(F, u, p[1]);
      ReachTrans(F, u, p[1], v);
    }
  }

  /** No covering pair can be left out: without it the ends are not joined. */
  lemma NoEdgeToSpare(E: Relation, T: set<nat>, F: Relation, u: nat, v: nat)
    requires OrderBelow(E, T) && v in T && F <= E && Covers(E, u, v) && (u, v) !in F
    ensures !Reach(F, u, v)
  {
    if p :| Walk(F, p, u, v) {
      assert (p[0], p[1]) in F;
      forall i | 0 <= i < |p| - 1
        ensures (p[i], p[i + 1]) in E
      {
        assert (p[i], p[i + 1]) in F;
      }
      WalkIsEdge(E, T, p[1..], p[1], v);
    }
  }

  /** The kept edges, for the relation in `reach`: pairs of the relation, and those that
      end where it is a strict order are the covering ones. */
  method ReduceMatrix(reach: Matrix, ghost T: set<nat>) returns (kept: Matrix)
    requires Square(reach) && OrderBelow(EdgesOf(reach), T)
    ensures |kept| == |reach| && Square(kept)
    ensures forall i, j {:trigger kept[i][j]} :: 0 <= i < |reach| && 0 <= j < |reach| ==>
              Keeps(reach, T, i, j, kept[i][j])
  {
    kept := [];
    for i := 0 to |reach|
      invariant |kept| == i && forall k :: 0 <= k < i ==> |kept[k]| == |reach|
      invariant forall k, j {:trigger kept[k][j]} :: 0 <= k < i && 0 <= j < |reach| ==>
                  Keeps(reach, T, k, j, kept[k][j])
    {
      var row := [];
      for j := 0 to |reach|
        invariant |row| == j
        invariant forall k {:trigger row[k]} :: 0 <= k < j ==> Keeps(reach, T, i, k, row[k])
      {
        var cell := KeepEdge(reach, i, j, T);
        row := row + [cell];
      }
      kept := kept + [row];
    }
  }

  ghost predicate Keeps(reach: Matrix, T: set<nat>, i: nat, j: nat, kept: bool)
    requires Square(reach) && i < |reach| && j < |reach|
  {
    (kept ==> reach[i][j]) && (j in T ==> (kept <==> Covers(EdgesOf(reach), i, j)))
  }

  method KeepEdge(reach: Matrix, i: nat, j: nat, ghost T: set<nat>) returns (kept: bool)
    requires Square(reach) && OrderBelow(EdgesOf(reach), T) && i < |reach| && j < |reach|
    ensures Keeps(reach, T, i, j, kept)
  {
    ghost var E := EdgesOf(reach);
    OrderIsAcyclic(E, T);
    var n := GetLongestPath(i, j, reach, T);
    if n == 1 {
      OneIsEdge(E, i, j);
    }
    if j in T {
      LongestOneCovers(E, T, i, j, n);
    }
    kept := n == 1;
  }
}
