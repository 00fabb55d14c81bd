/** The iterative strongly-connected-component search over the call graph:
    an explicit worklist of (node, next edge) pairs, a component stack, and
    depth-first numbers with low links. */
module Tarjan {
  import opened Paths
  import opened Sequences

  type Adjacency = seq<seq<nat>>
  type Relation = set<(nat, nat)>

  ghost predicate WellFormed(adj: Adjacency) {
    forall u, j :: 0 <= u < |adj| && 0 <= j < |adj[u]| ==> adj[u][j] < |adj|
  }

  ghost function EdgesOf(adj: Adjacency): Relation {
    set u: nat, j: nat | u < |adj| && j < |adj[u]| :: (u, adj[u][j])
  }

  /** What the search knows at one moment: the program's `dfs`, `low`, `stack`,
      `on_stack`, the nodes on its worklist (`open`), the number of out-edges
      followed from each node (`explored`; the worklist keeps it for the nodes
      still on it), and the components popped so far. */
  datatype Search = Search(dfs: seq<int>, low: seq<int>, stack: seq<nat>, onStack: seq<bool>,
                           open: seq<nat>, next: nat, explored: seq<nat>, comps: seq<set<nat>>)

  // The parts of the invariant name the variables they depend on, so that a
  // step has to re-establish only the parts whose variables it changes.

  function At(q: seq<int>, v: nat): int {
    if v < |q| then q[v] else -1
  }

  ghost predicate Holds(q: seq<bool>, v: nat) {
    v < |q| && q[v]
  }

  /** Visited and already popped with its component. */
  ghost predicate Done(dfs: seq<int>, onStack: seq<bool>, v: nat) {
    At(dfs, v) != -1 && !Holds(onStack, v)
  }

  ghost predicate Ascending(dfs: seq<int>, q: seq<nat>) {
    forall i, j :: 0 <= i < j < |q| ==> At(dfs, q[i]) < At(dfs, q[j])
  }

  ghost predicate Numbered(n: nat, dfs: seq<int>, next: nat) {
    |dfs| == n && forall v :: 0 <= v < n ==> -1 <= dfs[v] < next
  }

  ghost predicate Stacked(n: nat, dfs: seq<int>, stack: seq<nat>, onStack: seq<bool>, open: seq<nat>) {
    && |onStack| == n
    && Ascending(dfs, stack) && Ascending(dfs, open)
    && (forall v :: v in stack ==> v < n && At(dfs, v) != -1)
    && (forall v :: v in stack <==> Holds(onStack, v))
    && (forall v :: v in open ==> v in stack)
  }

  /** One of the first `explored[x]` out-edges of `x` leads to `w`. */
  ghost predicate Seen(adj: Adjacency, explored: seq<nat>, x: nat, w: nat) {
    x < |adj| && x < |explored| && exists j :: 0 <= j < explored[x] && j < |adj[x]| && adj[x][j] == w
  }

  ghost predicate Followed(adj: Adjacency, dfs: seq<int>, explored: seq<nat>) {
    && |explored| == |adj|
    && (forall v :: 0 <= v < |adj| ==> explored[v] <= |adj[v]|)
    && (forall v: nat :: v < |adj| && At(dfs, v) == -1 ==> explored[v] == 0)
    && (forall x, w :: Seen(adj, explored, x, w) ==> At(dfs, w) != -1)
  }

  /** A visited vertex that left the worklist has followed all its edges, and
      no edge leaves the popped part. */
  ghost predicate Closed(adj: Adjacency, dfs: seq<int>, onStack: seq<bool>, open: seq<nat>, explored: seq<nat>)
    requires |explored| == |adj|
  {
    && (forall x: nat :: x < |adj| && At(dfs, x) != -1 && x !in open ==> explored[x] == |adj[x]|)
    && (forall x, w :: Seen(adj, explored, x, w) && Done(dfs, onStack, x) ==> Done(dfs, onStack, w))
  }

  /** An open vertex that is not above `x` and that `x` reaches. */
  ghost predicate ReachesOpen(R: Relation, dfs: seq<int>, open: seq<nat>, x: nat) {
    exists g :: g in open && At(dfs, g) <= At(dfs, x) && (x, g) in R
  }

  /** Open vertices reach everything above them on the stack, and every stack
      vertex reaches an open one that is not above it. */
  ghost predicate Connected(R: Relation, dfs: seq<int>, stack: seq<nat>, open: seq<nat>) {
    && (forall g, x :: g in open && x in stack && At(dfs, g) <= At(dfs, x) ==> (g, x) in R)
    && (forall x {:trigger ReachesOpen(R, dfs, open, x)} :: x in stack ==> ReachesOpen(R, dfs, open, x))
  }

  /** `low` of an open vertex is the number of a stack vertex it reaches. */
  ghost predicate LowIsReached(R: Relation, dfs: seq<int>, low: seq<int>, stack: seq<nat>, g: nat) {
    exists y :: y in stack && At(dfs, y) == At(low, g) && (g, y) in R
  }

  /** An open vertex between `g` and `x` knows a low link no higher than `w`. */
  ghost predicate Bounded(dfs: seq<int>, low: seq<int>, open: seq<nat>, g: nat, x: nat, w: nat) {
    exists h :: h in open && At(dfs, g) <= At(dfs, h) <= At(dfs, x) && At(low, h) <= At(dfs, w)
  }

  /** Low links account for every followed edge between stack vertices. */
  ghost predicate LowBounds(adj: Adjacency, dfs: seq<int>, low: seq<int>, stack: seq<nat>, open: seq<nat>,
                            explored: seq<nat>) {
    forall g, x, w {:trigger Bounded(dfs, low, open, g, x, w)} ::
      g in open && Seen(adj, explored, x, w) && x in stack && w in stack && At(dfs, g) <= At(dfs, x)
      ==> Bounded(dfs, low, open, g, x, w)
  }

  ghost predicate LowLinks(adj: Adjacency, R: Relation, s: Search) {
    && |s.low| == |adj|
    && (forall g :: g in s.open ==> At(s.low, g) <= At(s.dfs, g))
    && (forall g {:trigger LowIsReached(R, s.dfs, s.low, s.stack, g)} :: g in s.open ==>
        LowIsReached(R, s.dfs, s.low, s.stack, g))
    && LowBounds(adj, s.dfs, s.low, s.stack, s.open, s.explored)
  }

  ghost predicate Popped(n: nat, R: Relation, dfs: seq<int>, onStack: seq<bool>, comps: seq<set<nat>>) {
    && (forall k :: 0 <= k < |comps| ==> comps[k] in Components(R, Below(n)))
    && (forall k, l :: 0 <= k < l < |comps| ==> comps[k] !! comps[l])
    && (forall v: nat :: Done(dfs, onStack, v) <==> exists k :: 0 <= k < |comps| && v in comps[k])
  }

  ghost predicate Shape(adj: Adjacency, s: Search) {
    && WellFormed(adj) && Numbered(|adj|, s.dfs, s.next)
    && Stacked(|adj|, s.dfs, s.stack, s.onStack, s.open)
    && Followed(adj, s.dfs, s.explored)
  }

  ghost predicate Inv(adj: Adjacency, R: Relation, s: Search) {
    && Shape(adj, s)
    && Closed(adj, s.dfs, s.onStack, s.open, s.explored)
    && Connected(R, s.dfs, s.stack, s.open)
    && LowLinks(adj, R, s)
    && Popped(|adj|, R, s.dfs, s.onStack, s.comps)
  }

  // ------------------------------------------------------------------ steps

  /** Number `w` and push it on both stacks. */
  ghost function Discover(s: Search, w: nat): Search
    requires w < |s.dfs| && w < |s.low| && w < |s.onStack|
  {
    s.(dfs := s.dfs[w := s.next], low := s.low[w := s.next], next := s.next + 1,
       stack := s.stack + [w], onStack := s.onStack[w := true], open := s.open + [w])
  }

  /** Move the edge cursor of `v` forward. */
  ghost function Advance(s: Search, v: nat): Search
    requires v < |s.explored|
  {
    s.(explored := s.explored[v := s.explored[v] + 1])
  }

  /** `low[v] := min(low[v], bound)`. */
  ghost function LowerTo(s: Search, v: nat, bound: int): Search
    requires v < |s.low|
  {
    s.(low := s.low[v := if bound < s.low[v] then bound else s.low[v]])
  }

  lemma EmptySearch(adj: Adjacency, R: Relation, s: Search)
    requires WellFormed(adj)
    requires |s.dfs| == |s.low| == |s.onStack| == |s.explored| == |adj|
    requires forall v :: 0 <= v < |adj| ==> s.dfs[v] == -1 && !s.onStack[v] && s.explored[v] == 0
    requires s.stack == [] && s.open == [] && s.comps == [] && s.next == 0
    ensures Inv(adj, R, s)
  {
  }

  /** With nothing on the worklist there is nothing on the stack. */
  lemma StackNeedsOpen(R: Relation, dfs: seq<int>, stack: seq<nat>, open: seq<nat>)
    requires Connected(R, dfs, stack, open)
    ensures stack != [] ==> open != []
  {
    if stack != [] {
      assert stack[0] in stack;
      assert ReachesOpen(R, dfs, open, stack[0]);
    }
  }

  // ---------------------------------------------------------------- discover

  /** `w` is new, and is either the root of a fresh tree or a child of the top. */
  ghost predicate CanDiscover(adj: Adjacency, R: Relation, s: Search, w: nat) {
    && Inv(adj, R, s) && w < |adj| && s.dfs[w] == -1
    && (s.open == [] || (s.open[|s.open| - 1], w) in R) && (w, w) in R
  }

  lemma DiscoverStacks(n: nat, dfs: seq<int>, next: nat, stack: seq<nat>, onStack: seq<bool>, open: seq<nat>, w: nat)
    requires Numbered(n, dfs, next) && Stacked(n, dfs, stack, onStack, open) && w < n && dfs[w] == -1
    ensures Stacked(n, dfs[w := next], stack + [w], onStack[w := true], open + [w])
    ensures forall v :: v in stack ==> v != w && At(dfs[w := next], v) == At(dfs, v) < next
  {
    var dfs' := dfs[w := next];
    assert forall v :: v in stack ==> v != w && At(dfs', v) == At(dfs, v) < next;
    assert Ascending(dfs', stack + [w]);
    assert Ascending(dfs', open + [w]);
  }

  lemma DiscoverShape(adj: Adjacency, s: Search, w: nat)
    requires Shape(adj, s) && |s.low| == |adj| && w < |adj| && s.dfs[w] == -1
    ensures Shape(adj, Discover(s, w))
    ensures forall v :: v in s.stack ==> v != w && At(Discover(s, w).dfs, v) == At(s.dfs, v) < s.next
  {
    DiscoverStacks(|adj|, s.dfs, s.next, s.stack, s.onStack, s.open, w);
  }

  lemma DiscoverDone(s: Search, w: nat)
    requires w < |s.dfs| && w < |s.low| && w < |s.onStack| && s.dfs[w] == -1
    ensures forall x: nat :: Done(Discover(s, w).dfs, Discover(s, w).onStack, x) <==> Done(s.dfs, s.onStack, x)
  {
  }

  lemma TopIsHighest(dfs: seq<int>, open: seq<nat>, g: nat)
    requires Ascending(dfs, open) && g in open
    ensures At(dfs, g) <= At(dfs, open[|open| - 1])
  {
    var i :| 0 <= i < |open| && open[i] == g;
  }

  lemma DiscoverConnected(R: Relation, dfs: seq<int>, dfs': seq<int>, stack: seq<nat>, open: seq<nat>, w: nat)
    requires Transitive(R) && Connected(R, dfs, stack, open) && Ascending(dfs, open)
    requires forall v :: v in open ==> v in stack
    requires forall v :: v in stack ==> At(dfs', v) == At(dfs, v) < At(dfs', w)
    requires (open == [] || (open[|open| - 1], w) in R) && (w, w) in R
    ensures Connected(R, dfs', stack + [w], open + [w])
  {
    forall g, x | g in open + [w] && x in stack + [w] && At(dfs', g) <= At(dfs', x)
      ensures (g, x) in R
    {
      if g in open && x == w {
        TopIsHighest(dfs, open, g);
        Chain(R, g, open[|open| - 1], w);
      }
    }
    forall x | x in stack + [w]
      ensures ReachesOpen(R, dfs', open + [w], x)
    {
      if x in stack {
        assert ReachesOpen(R, dfs, open, x);
        var g :| g in open && At(dfs, g) <= At(dfs, x) && (x, g) in R;
        assert g in open + [w];
      } else {
        assert w in open + [w];
      }
    }
  }

  lemma DiscoverLow(R: Relation, dfs: seq<int>, dfs': seq<int>, low: seq<int>, stack: seq<nat>, open: seq<nat>, w: nat)
    requires w < |dfs| == |low| == |dfs'| && dfs' == dfs[w := dfs'[w]] && w !in stack && (w, w) in R
    requires forall v :: v in open ==> v in stack
    requires forall g {:trigger LowIsReached(R, dfs, low, stack, g)} :: g in open ==>
               LowIsReached(R, dfs, low, stack, g)
    ensures forall g {:trigger LowIsReached(R, dfs', low[w := dfs'[w]], stack + [w], g)} ::
              g in open + [w] ==> LowIsReached(R, dfs', low[w := dfs'[w]], stack + [w], g)
  {
    forall g | g in open + [w]
      ensures LowIsReached(R, dfs', low[w := dfs'[w]], stack + [w], g)
    {
      if g in open {
        assert LowIsReached(R, dfs, low, stack, g);
        var y :| y in stack && At(dfs, y) == At(low, g) && (g, y) in R;
        assert y in stack + [w];
      } else {
        assert w in stack + [w];
      }
    }
  }

  lemma DiscoverBounds(adj: Adjacency, dfs: seq<int>, dfs': seq<int>, low: seq<int>, stack: seq<nat>, open: seq<nat>,
                       explored: seq<nat>, w: nat)
    requires w < |dfs| == |low| == |dfs'| && w < |explored| && dfs' == dfs[w := dfs'[w]] && w !in stack &&
             explored[w] == 0
    requires forall v :: v in stack ==> At(dfs, v) < dfs'[w]
    requires forall v :: v in open ==> v in stack && At(low, v) <= At(dfs, v)
    requires LowBounds(adj, dfs, low, stack, open, explored)
    ensures LowBounds(adj, dfs', low[w := dfs'[w]], stack + [w], open + [w], explored)
  {
    forall g, x, y | g in open + [w] && Seen(adj, explored, x, y) && x in stack + [w] && y in stack + [w]
                     && At(dfs', g) <= At(dfs', x)
      ensures Bounded(dfs', low[w := dfs'[w]], open + [w], g, x, y)
    {
      assert x in stack && g in open;
      if y in stack {
        assert Bounded(dfs, low, open, g, x, y);
        var h :| h in open && At(dfs, g) <= At(dfs, h) <= At(dfs, x) && At(low, h) <= At(dfs, y);
        assert h in open + [w];
      } else {
        assert g in open + [w];
      }
    }
  }

  lemma DiscoverKeeps(adj: Adjacency, R: Relation, s: Search, w: nat)
    requires CanDiscover(adj, R, s, w) && Transitive(R)
    ensures Inv(adj, R, Discover(s, w))
  {
    var t := Discover(s, w);
    DiscoverShape(adj, s, w);
    DiscoverDone(s, w);
    DiscoverConnected(R, s.dfs, t.dfs, s.stack, s.open, w);
    DiscoverLow(R, s.dfs, t.dfs, s.low, s.stack, s.open, w);
    DiscoverBounds(adj, s.dfs, t.dfs, s.low, s.stack, s.open, s.explored, w);
    DiscoverClosed(adj, s, w);
  }

  lemma DiscoverClosed(adj: Adjacency, s: Search, w: nat)
    requires Shape(adj, s) && |s.low| == |adj| && w < |adj| && s.dfs[w] == -1
    requires Closed(adj, s.dfs, s.onStack, s.open, s.explored)
    ensures Closed(adj, Discover(s, w).dfs, Discover(s, w).onStack, s.open + [w], s.explored)
  {
    DiscoverDone(s, w);
  }

  // ------------------------------------------------------- following an edge

  lemma LowerKeeps(adj: Adjacency, R: Relation, s: Search, g: nat, y: nat)
    requires Shape(adj, s) && LowLinks(adj, R, s) && g in s.open && y in s.stack && (g, y) in R
    ensures LowLinks(adj, R, LowerTo(s, g, At(s.dfs, y)))
  {
    var t := LowerTo(s, g, At(s.dfs, y));
    forall h | h in t.open
      ensures LowIsReached(R, t.dfs, t.low, t.stack, h)
    {
      assert LowIsReached(R, s.dfs, s.low, s.stack, h);
    }
    forall h, x, w | h in t.open && Seen(adj, t.explored, x, w) && x in t.stack && w in t.stack
                     && At(t.dfs, h) <= At(t.dfs, x)
      ensures Bounded(t.dfs, t.low, t.open, h, x, w)
    {
      assert Bounded(s.dfs, s.low, s.open, h, x, w);
    }
  }

  lemma SeenAfterAdvance(adj: Adjacency, explored: seq<nat>, g: nat, x: nat, w: nat)
    requires g < |adj| && g < |explored| && explored[g] < |adj[g]|
    ensures Seen(adj, explored[g := explored[g] + 1], x, w)
            <==> Seen(adj, explored, x, w) || (x == g && w == adj[g][explored[g]])
  {
    var after := explored[g := explored[g] + 1];
    if Seen(adj, explored, x, w) {
      var j :| 0 <= j < explored[x] && j < |adj[x]| && adj[x][j] == w;
      assert j < after[x];
    }
    if x == g && w == adj[g][explored[g]] {
      assert 0 <= explored[g] < after[g];
    }
  }

  lemma AdvanceKeeps(adj: Adjacency, R: Relation, s: Search, g: nat, w: nat)
    requires Shape(adj, s) && LowLinks(adj, R, s) && Closed(adj, s.dfs, s.onStack, s.open, s.explored)
    requires g in s.open && s.explored[g] < |adj[g]| && adj[g][s.explored[g]] == w
    requires At(s.dfs, w) != -1 && (w in s.stack ==> At(s.low, g) <= At(s.dfs, w))
    ensures Shape(adj, Advance(s, g)) && LowLinks(adj, R, Advance(s, g))
    ensures Closed(adj, s.dfs, s.onStack, s.open, Advance(s, g).explored)
  {
    var t := Advance(s, g);
    forall x, y
      ensures Seen(adj, t.explored, x, y) <==> Seen(adj, s.explored, x, y) || (x == g && y == w)
    {
      SeenAfterAdvance(adj, s.explored, g, x, y);
    }
    forall h, x, y | h in t.open && Seen(adj, t.explored, x, y) && x in t.stack && y in t.stack
                     && At(t.dfs, h) <= At(t.dfs, x)
      ensures Bounded(t.dfs, t.low, t.open, h, x, y)
    {
      if Seen(adj, s.explored, x, y) {
        assert Bounded(s.dfs, s.low, s.open, h, x, y);
      }
    }
  }

  // ------------------------------------------------- leaving the worklist

  /** `v`, the top of the worklist, has followed all its edges and has handed
      its low link to the vertex under it. */
  ghost predicate CanFinish(adj: Adjacency, R: Relation, s: Search, v: nat) {
    && Shape(adj, s) && s.open != [] && v == s.open[|s.open| - 1] && v < |adj|
    && s.explored[v] == |adj[v]|
    && (|s.open| > 1 ==> At(s.low, s.open[|s.open| - 2]) <= At(s.low, v))
  }

  lemma OpenSplits(dfs: seq<int>, open: seq<nat>, g: nat)
    requires Ascending(dfs, open) && open != []
    ensures g in open <==> g in open[..|open| - 1] || g == open[|open| - 1]
    ensures g in open[..|open| - 1] ==>
              |open| > 1 && At(dfs, g) <= At(dfs, open[|open| - 2]) < At(dfs, open[|open| - 1])
  {
    assert open == open[..|open| - 1] + [open[|open| - 1]];
    if g in open[..|open| - 1] {
      var i :| 0 <= i < |open| - 1 && open[i] == g;
    }
  }

  /** Every stack vertex above the finished `v` still reaches an open one, through `v`. */
  lemma CloseConnected(R: Relation, dfs: seq<int>, low: seq<int>, stack: seq<nat>, open: seq<nat>, v: nat)
    requires Transitive(R) && Connected(R, dfs, stack, open) && Ascending(dfs, open)
    requires open != [] && v == open[|open| - 1]
    requires LowIsReached(R, dfs, low, stack, v) && At(low, v) < At(dfs, v)
    ensures Connected(R, dfs, stack, open[..|open| - 1])
  {
    var y :| y in stack && At(dfs, y) == At(low, v) && (v, y) in R;
    assert ReachesOpen(R, dfs, open, y);
    var h :| h in open && At(dfs, h) <= At(dfs, y) && (y, h) in R;
    OpenSplits(dfs, open, h);
    forall x | x in stack
      ensures ReachesOpen(R, dfs, open[..|open| - 1], x)
    {
      assert ReachesOpen(R, dfs, open, x);
      var g :| g in open && At(dfs, g) <= At(dfs, x) && (x, g) in R;
      OpenSplits(dfs, open, g);
      if g == v {
        Chain(R, x, v, y);
        Chain(R, x, y, h);
      }
    }
  }

  lemma CloseBounds(adj: Adjacency, dfs: seq<int>, low: seq<int>, stack: seq<nat>, open: seq<nat>, explored: seq<nat>)
    requires Ascending(dfs, open) && open != [] && LowBounds(adj, dfs, low, stack, open, explored)
    requires |open| > 1 ==> At(low, open[|open| - 2]) <= At(low, open[|open| - 1])
    ensures LowBounds(adj, dfs, low, stack, open[..|open| - 1], explored)
  {
    var rest := open[..|open| - 1];
    forall g, x, w | g in rest && Seen(adj, explored, x, w) && x in stack && w in stack && At(dfs, g) <= At(dfs, x)
      ensures Bounded(dfs, low, rest, g, x, w)
    {
      OpenSplits(dfs, open, g);
      assert Bounded(dfs, low, open, g, x, w);
      var h :| h in open && At(dfs, g) <= At(dfs, h) <= At(dfs, x) && At(low, h) <= At(dfs, w);
      OpenSplits(dfs, open, h);
      if h == open[|open| - 1] {
        assert rest[|rest| - 1] in rest;
      }
    }
  }

  lemma CloseShape(adj: Adjacency, R: Relation, s: Search, v: nat)
    requires CanFinish(adj, R, s, v) && Closed(adj, s.dfs, s.onStack, s.open, s.explored)
    ensures Shape(adj, s.(open := s.open[..|s.open| - 1]))
    ensures Closed(adj, s.dfs, s.onStack, s.open[..|s.open| - 1], s.explored)
  {
    forall g
      ensures g in s.open <==> g in s.open[..|s.open| - 1] || g == v
    {
      OpenSplits(s.dfs, s.open, g);
    }
  }

  /** `v` reaches below itself: it stays on the stack for an open vertex under it. */
  lemma CloseKeeps(adj: Adjacency, R: Relation, s: Search, v: nat)
    requires CanFinish(adj, R, s, v) && Inv(adj, R, s) && Transitive(R) && At(s.low, v) < At(s.dfs, v)
    ensures Inv(adj, R, s.(open := s.open[..|s.open| - 1]))
  {
    CloseShape(adj, R, s, v);
    assert v in s.open;
    CloseConnected(R, s.dfs, s.low, s.stack, s.open, v);
    CloseBounds(adj, s.dfs, s.low, s.stack, s.open, s.explored);
  }

  // --------------------------------------------------- popping a component

  ghost function SetOf(q: seq<nat>): set<nat> {
    set v | v in q
  }

  /** The stack from `v` upwards, for the finished top `v` with `low[v] == dfs[v]`. */
  ghost predicate CanPop(adj: Adjacency, R: Relation, s: Search, v: nat, k: nat) {
    && CanFinish(adj, R, s, v) && Inv(adj, R, s) && At(s.low, v) == At(s.dfs, v)
    && k < |s.stack| && s.stack[k] == v
  }

  lemma StackSplits(dfs: seq<int>, stack: seq<nat>, k: nat, x: nat)
    requires Ascending(dfs, stack) && k < |stack|
    ensures x in stack[k..] <==> x in stack && At(dfs, stack[k]) <= At(dfs, x)
    ensures x in stack[..k] <==> x in stack && At(dfs, x) < At(dfs, stack[k])
  {
    assert stack == stack[..k] + stack[k..];
    if x in stack[k..] {
      var i :| k <= i < |stack| && stack[i] == x;
    }
    if x in stack[..k] {
      var i :| 0 <= i < k && stack[i] == x;
    }
  }

  /** Nothing above `v` leads back below it: followed edges stay above `v` or
      lead to popped vertices. */
  lemma SegmentCloses(adj: Adjacency, R: Relation, s: Search, v: nat, k: nat, x: nat, w: nat)
    requires CanPop(adj, R, s, v, k) && x in s.stack[k..] && Seen(adj, s.explored, x, w)
    ensures w in s.stack[k..] || Done(s.dfs, s.onStack, w)
  {
    StackSplits(s.dfs, s.stack, k, x);
    StackSplits(s.dfs, s.stack, k, w);
    assert v in s.open;
    if w in s.stack {
      assert Bounded(s.dfs, s.low, s.open, v, x, w);
      var h :| h in s.open && At(s.dfs, v) <= At(s.dfs, h) <= At(s.dfs, x) && At(s.low, h) <= At(s.dfs, w);
      OpenSplits(s.dfs, s.open, h);
    }
  }

  /** No edge leaves `S`. */
  ghost predicate ClosedSet(adj: Adjacency, S: set<nat>) {
    forall x, j :: x in S && x < |adj| && 0 <= j < |adj[x]| ==> adj[x][j] in S
  }

  /** `R` is reachability in the graph `adj`: a preorder that contains the edges
      and stays inside every set that no edge leaves. */
  ghost predicate IsReach(adj: Adjacency, R: Relation) {
    && WellFormed(adj) && Transitive(R)
    && (forall v :: v in Below(|adj|) ==> (v, v) in R)
    && (forall u, j :: 0 <= u < |adj| && 0 <= j < |adj[u]| ==> (u, adj[u][j]) in R)
    && (forall S, u, v {:trigger ClosedSet(adj, S), (u, v) in R} ::
          ClosedSet(adj, S) && u in S && (u, v) in R ==> v in S)
  }

  lemma ReachOf(adj: Adjacency)
    requires WellFormed(adj)
    ensures IsReach(adj, ReachSet(EdgesOf(adj), Below(|adj|)))
  {
    var E, R := EdgesOf(adj), ReachSet(EdgesOf(adj), Below(|adj|));
    ReachSetIsPreorder(E, Below(|adj|));
    forall u, j | 0 <= u < |adj| && 0 <= j < |adj[u]|
      ensures (u, adj[u][j]) in R
    {
      assert (u, adj[u][j]) in E;
    }
    forall S, u, v | ClosedSet(adj, S) && u in S && (u, v) in R
      ensures v in S
    {
      ReachSetStaysInside(E, Below(|adj|), S, u, v);
    }
  }

  /** Everything above `v` is connected with `v` in both directions. */
  lemma SegmentConnects(R: Relation, dfs: seq<int>, stack: seq<nat>, open: seq<nat>, v: nat, k: nat, x: nat)
    requires Transitive(R) && Connected(R, dfs, stack, open) && Ascending(dfs, stack) && Ascending(dfs, open)
    requires open != [] && v == open[|open| - 1] && k < |stack| && stack[k] == v && x in stack[k..]
    ensures (v, x) in R && (x, v) in R
  {
    StackSplits(dfs, stack, k, x);
    assert v in open && v in stack;
    assert ReachesOpen(R, dfs, open, x);
    var g :| g in open && At(dfs, g) <= At(dfs, x) && (x, g) in R;
    OpenSplits(dfs, open, g);
    assert (g, v) in R;
    Chain(R, x, g, v);
  }

  /** What is mutually reachable with `v` is not popped yet, so it lies above `v`. */
  lemma SegmentIsMaximal(adj: Adjacency, R: Relation, s: Search, v: nat, k: nat, w: nat)
    requires CanPop(adj, R, s, v, k) && IsReach(adj, R)
    requires (v, w) in R && (w, v) in R
    ensures w in s.stack[k..]
  {
    var popped := set x | x in Below(|adj|) && Done(s.dfs, s.onStack, x);
    var inside := SetOf(s.stack[k..]) + popped;
    forall x, j | x in inside && x < |adj| && 0 <= j < |adj[x]|
      ensures adj[x][j] in inside && (x in popped ==> adj[x][j] in popped)
    {
      StackSplits(s.dfs, s.stack, k, x);
      OpenSplits(s.dfs, s.open, x);
      assert s.explored[x] == |adj[x]|;
      assert Seen(adj, s.explored, x, adj[x][j]);
      if x !in popped {
        SegmentCloses(adj, R, s, v, k, x, adj[x][j]);
      }
    }
    StackSplits(s.dfs, s.stack, k, v);
    assert ClosedSet(adj, inside) && ClosedSet(adj, popped);
  }

  lemma SegmentIsComponent(adj: Adjacency, R: Relation, s: Search, v: nat, k: nat)
    requires CanPop(adj, R, s, v, k) && IsReach(adj, R)
    ensures SetOf(s.stack[k..]) in Components(R, Below(|adj|))
  {
    forall x: nat
      ensures x in s.stack[k..] <==> x < |adj| && (v, x) in R && (x, v) in R
    {
      SegmentIsClass(adj, R, s, v, k, x);
    }
    ClassIsComponent(|adj|, R, s.stack[k..], v);
  }

  lemma SegmentIsClass(adj: Adjacency, R: Relation, s: Search, v: nat, k: nat, x: nat)
    requires CanPop(adj, R, s, v, k) && IsReach(adj, R)
    ensures x in s.stack[k..] <==> x < |adj| && (v, x) in R && (x, v) in R
  {
    if x in s.stack[k..] {
      SegmentConnects(R, s.dfs, s.stack, s.open, v, k, x);
      StackSplits(s.dfs, s.stack, k, x);
    }
    if (v, x) in R && (x, v) in R {
      SegmentIsMaximal(adj, R, s, v, k, x);
    }
  }

  lemma ClassIsComponent(n: nat, R: Relation, seg: seq<nat>, v: nat)
    requires v < n && forall x: nat :: x in seg <==> x < n && (v, x) in R && (x, v) in R
    ensures SetOf(seg) in Components(R, Below(n))
  {
    assert SetOf(seg) == Component(R, Below(n), v);
  }

  /** The state once the component of `v` left the stack. */
  ghost function Pop(s: Search, k: nat, onStack': seq<bool>): Search
    requires k <= |s.stack| && s.open != []
  {
    s.(stack := s.stack[..k], onStack := onStack', open := s.open[..|s.open| - 1],
       comps := s.comps + [SetOf(s.stack[k..])])
  }

  ghost predicate Unmarked(onStack: seq<bool>, onStack': seq<bool>, popped: seq<nat>) {
    |onStack'| == |onStack| && forall x :: Holds(onStack', x) <==> Holds(onStack, x) && x !in popped
  }

  lemma PopShape(adj: Adjacency, R: Relation, s: Search, v: nat, k: nat, onStack': seq<bool>)
    requires CanPop(adj, R, s, v, k) && Unmarked(s.onStack, onStack', s.stack[k..])
    ensures Shape(adj, Pop(s, k, onStack'))
    ensures forall x :: Done(s.dfs, onStack', x) <==> Done(s.dfs, s.onStack, x) || x in s.stack[k..]
  {
    var t := Pop(s, k, onStack');
    forall x
      ensures x in t.stack <==> Holds(onStack', x)
      ensures x in t.open ==> x in t.stack
      ensures x in s.stack[k..] ==> x in s.stack
    {
      StackSplits(s.dfs, s.stack, k, x);
      OpenSplits(s.dfs, s.open, x);
    }
  }

  lemma PopClosed(adj: Adjacency, R: Relation, s: Search, v: nat, k: nat, onStack': seq<bool>)
    requires CanPop(adj, R, s, v, k) && Unmarked(s.onStack, onStack', s.stack[k..])
    ensures Closed(adj, s.dfs, onStack', s.open[..|s.open| - 1], s.explored)
  {
    PopShape(adj, R, s, v, k, onStack');
    forall x
      ensures x in s.open <==> x in s.open[..|s.open| - 1] || x == v
    {
      OpenSplits(s.dfs, s.open, x);
    }
    forall x, w | Seen(adj, s.explored, x, w) && Done(s.dfs, onStack', x)
      ensures Done(s.dfs, onStack', w)
    {
      if x in s.stack[k..] {
        SegmentCloses(adj, R, s, v, k, x, w);
      }
    }
  }

  lemma PopConnected(R: Relation, dfs: seq<int>, stack: seq<nat>, open: seq<nat>, v: nat, k: nat)
    requires Connected(R, dfs, stack, open) && Ascending(dfs, stack) && Ascending(dfs, open)
    requires open != [] && v == open[|open| - 1] && k < |stack| && stack[k] == v
    ensures Connected(R, dfs, stack[..k], open[..|open| - 1])
  {
    forall x | x in stack[..k]
      ensures x in stack && ReachesOpen(R, dfs, open[..|open| - 1], x)
    {
      StackSplits(dfs, stack, k, x);
      assert ReachesOpen(R, dfs, open, x);
      var g :| g in open && At(dfs, g) <= At(dfs, x) && (x, g) in R;
      OpenSplits(dfs, open, g);
    }
  }

  lemma PopLow(adj: Adjacency, R: Relation, s: Search, v: nat, k: nat, onStack': seq<bool>)
    requires CanPop(adj, R, s, v, k)
    ensures LowLinks(adj, R, Pop(s, k, onStack'))
  {
    var t := Pop(s, k, onStack');
    forall g | g in t.open
      ensures g in s.open && LowIsReached(R, t.dfs, t.low, t.stack, g)
    {
      OpenSplits(s.dfs, s.open, g);
      assert LowIsReached(R, s.dfs, s.low, s.stack, g);
      var y :| y in s.stack && At(s.dfs, y) == At(s.low, g) && (g, y) in R;
      StackSplits(s.dfs, s.stack, k, y);
    }
    PopBounds(adj, s.dfs, s.low, s.stack, s.open, s.explored, k);
  }

  lemma PopBounds(adj: Adjacency, dfs: seq<int>, low: seq<int>, stack: seq<nat>, open: seq<nat>, explored: seq<nat>,
                  k: nat)
    requires Ascending(dfs, stack) && Ascending(dfs, open) && LowBounds(adj, dfs, low, stack, open, explored)
    requires open != [] && k < |stack| && stack[k] == open[|open| - 1]
    ensures LowBounds(adj, dfs, low, stack[..k], open[..|open| - 1], explored)
  {
    forall g, x, w | g in open[..|open| - 1] && Seen(adj, explored, x, w) && x in stack[..k] && w in stack[..k]
                     && At(dfs, g) <= At(dfs, x)
      ensures Bounded(dfs, low, open[..|open| - 1], g, x, w)
    {
      StackSplits(dfs, stack, k, x);
      StackSplits(dfs, stack, k, w);
      OpenSplits(dfs, open, g);
      assert Bounded(dfs, low, open, g, x, w);
      var h :| h in open && At(dfs, g) <= At(dfs, h) <= At(dfs, x) && At(low, h) <= At(dfs, w);
      OpenSplits(dfs, open, h);
    }
  }

  lemma PopPopped(n: nat, R: Relation, dfs: seq<int>, onStack: seq<bool>, onStack': seq<bool>,
                  comps: seq<set<nat>>, seg: seq<nat>)
    requires Popped(n, R, dfs, onStack, comps) && SetOf(seg) in Components(R, Below(n))
    requires forall x :: x in seg ==> Holds(onStack, x)
    requires forall x :: Done(dfs, onStack', x) <==> Done(dfs, onStack, x) || x in seg
    ensures Popped(n, R, dfs, onStack', comps + [SetOf(seg)])
  {
    var after := comps + [SetOf(seg)];
    forall k | 0 <= k < |comps|
      ensures comps[k] !! SetOf(seg)
    {
      forall x | x in comps[k]
        ensures x !in SetOf(seg)
      {
        assert Done(dfs, onStack, x);
      }
    }
    forall x: nat
      ensures Done(dfs, onStack', x) <==> exists k :: 0 <= k < |after| && x in after[k]
    {
      if x in seg {
        assert x in after[|comps|];
      } else if Done(dfs, onStack, x) {
        var k :| 0 <= k < |comps| && x in comps[k];
        assert x in after[k];
      }
    }
  }

  /** `low[v] == dfs[v]`: what lies above `v` is one whole component. */
  lemma PopKeeps(adj: Adjacency, R: Relation, s: Search, v: nat, k: nat, onStack': seq<bool>)
    requires CanPop(adj, R, s, v, k) && IsReach(adj, R)
    requires Unmarked(s.onStack, onStack', s.stack[k..])
    ensures Inv(adj, R, Pop(s, k, onStack'))
  {
    PopShape(adj, R, s, v, k, onStack');
    PopClosed(adj, R, s, v, k, onStack');
    PopConnected(R, s.dfs, s.stack, s.open, v, k);
    PopLow(adj, R, s, v, k, onStack');
    SegmentIsComponent(adj, R, s, v, k);
    forall x | x in s.stack[k..]
      ensures Holds(s.onStack, x)
    {
      StackSplits(s.dfs, s.stack, k, x);
    }
    PopPopped(|adj|, R, s.dfs, s.onStack, onStack', s.comps, s.stack[k..]);
  }

  // ------------------------------------------------------------- the search

  /** Out-edges still to follow, over the whole graph. */
  ghost function ToFollow(adj: Adjacency, explored: seq<nat>): set<(nat, nat)> {
    set u: nat, j: nat | u < |adj| && u < |explored| && explored[u] <= j < |adj[u]| :: (u, j)
  }

  lemma ToFollowShrinks(adj: Adjacency, explored: seq<nat>, v: nat)
    requires |explored| == |adj| && v < |adj| && explored[v] < |adj[v]|
    ensures ToFollow(adj, explored[v := explored[v] + 1]) < ToFollow(adj, explored)
  {
    assert (v, explored[v]) in ToFollow(adj, explored);
    assert (v, explored[v]) !in ToFollow(adj, explored[v := explored[v] + 1]);
  }

  function CountCyclic(comps: seq<set<nat>>): nat {
    if comps == [] then 0
    else CountCyclic(comps[..|comps| - 1]) + if |comps[|comps| - 1]| > 1 then 1 else 0
  }

  /** The vertices `C` by their call-graph ids. */
  ghost function Named(ids: seq<nat>, C: set<nat>): set<nat> {
    set v: nat | v in C && v < |ids| :: ids[v]
  }

  lemma {:induction false} DistinctSize(q: seq<nat>)
    requires Distinct(q)
    ensures |SetOf(q)| == |q|
  {
    if q == [] {
      assert SetOf(q) == {};
    } else {
      var m := |q| - 1;
      DistinctSize(q[..m]);
      assert SetOf(q) == SetOf(q[..m]) + {q[m]};
    }
  }

  /** The results kept so far describe the components popped so far. */
  ghost predicate Summary(ids: seq<nat>, comps: seq<set<nat>>, previous: seq<nat>,
                          largest: nat, members: seq<nat>, cyclic: nat) {
    && cyclic == CountCyclic(comps)
    && (forall k :: 0 <= k < |comps| ==> |comps[k]| <= largest)
    && (if comps == [] then largest == 0 && members == previous
        else exists k ::
               0 <= k < |comps| && largest == |comps[k]| == |members| && SetOf(members) == Named(ids, comps[k]))
  }

  lemma SummaryGrows(ids: seq<nat>, comps: seq<set<nat>>, previous: seq<nat>, largest: nat, members: seq<nat>,
                     cyclic: nat,
                     scc: seq<nat>, largest': nat, members': seq<nat>, cyclic': nat)
    requires Summary(ids, comps, previous, largest, members, cyclic)
    requires Distinct(scc) && scc != [] && forall v :: v in scc ==> v < |ids|
    requires cyclic' == cyclic + if |scc| > 1 then 1 else 0
    requires if |scc| > largest
             then largest' == |scc| == |members'| && forall i :: 0 <= i < |scc| && scc[i] < |ids| ==>
               members'[i] == ids[scc[i]]
             else largest' == largest && members' == members
    ensures Summary(ids, comps + [SetOf(scc)], previous, largest', members', cyclic')
  {
    var after := comps + [SetOf(scc)];
    DistinctSize(scc);
    assert after[..|comps|] == comps;
    if |scc| > largest {
      assert SetOf(members') == Named(ids, SetOf(scc)) by {
        forall x
          ensures x in SetOf(members') <==> x in Named(ids, SetOf(scc))
        {
          if x in SetOf(members') {
            var i :| 0 <= i < |members'| && members'[i] == x;
            assert scc[i] in SetOf(scc);
          }
          if x in Named(ids, SetOf(scc)) {
            var v: nat :| v in scc && v < |ids| && ids[v] == x;
            var i :| 0 <= i < |scc| && scc[i] == v;
            assert members'[i] == x;
          }
        }
      }
      assert after[|comps|] == SetOf(scc);
    } else {
      var k :| 0 <= k < |comps| && largest == |comps[k]| == |members| && SetOf(members) == Named(ids, comps[k]);
      assert after[k] == comps[k];
    }
  }

  /** The inner do-while: take vertices off the stack down to `v`. */
  method PopDownTo(stack: seq<nat>, onStack: seq<bool>, v: nat, ghost k: nat)
    returns (rest: seq<nat>, marks: seq<bool>, scc: seq<nat>)
    requires k < |stack| && stack[k] == v && Distinct(stack) && forall x :: x in stack ==> x < |onStack|
    ensures rest == stack[..k] && Unmarked(onStack, marks, stack[k..])
    ensures |scc| == |stack| - k && Distinct(scc) && SetOf(scc) == SetOf(stack[k..])
  {
    rest, marks, scc := stack, onStack, [];
    assert v in stack;
    var w := |onStack|;
    while w != v
      invariant k <= |rest| <= |stack| && rest == stack[..|rest|]
      invariant |rest| == k <==> w == v
      invariant |scc| == |stack| - |rest| && forall i :: 0 <= i < |scc| ==> scc[i] == stack[|stack| - 1 - i]
      invariant Unmarked(onStack, marks, stack[|rest|..])
      decreases |rest|
    {
      w := rest[|rest| - 1];
      assert w == stack[|rest| - 1] && w in stack;
      assert stack[|rest| - 1..] == [w] + stack[|rest|..];
      rest := rest[..|rest| - 1];
      marks := marks[w := false];
      scc := scc + [w];
    }
    assert SetOf(scc) == SetOf(stack[k..]) by {
      forall x
        ensures x in scc <==> x in stack[k..]
      {
        if x in stack[k..] {
          var i :| k <= i < |stack| && stack[i] == x;
          assert scc[|stack| - 1 - i] == x;
        }
        if x in scc {
          var i :| 0 <= i < |scc| && scc[i] == x;
          assert stack[|stack| - 1 - i] == x;
        }
      }
    }
  }

  // The loops below carry the invariant as a whole; the lemmas that make a step
  // look inside it. `Kept` states it behind a quantifier that only `Consult`
  // wakes up, so that the loops do not reason about its parts.

  ghost predicate Consult(s: Search, k: nat) { true }

  ghost predicate Kept(adj: Adjacency, R: Relation, s: Search) {
    forall k {:trigger Consult(s, k)} :: Consult(s, k) ==> Inv(adj, R, s)
  }

  lemma Unfold(adj: Adjacency, R: Relation, s: Search)
    requires Kept(adj, R, s)
    ensures Inv(adj, R, s)
  {
    assert Consult(s, 0);
  }

  lemma NothingSearched(adj: Adjacency, R: Relation, s: Search)
    requires WellFormed(adj)
    requires |s.dfs| == |s.low| == |s.onStack| == |s.explored| == |adj|
    requires forall v :: 0 <= v < |adj| ==> s.dfs[v] == -1 && !s.onStack[v] && s.explored[v] == 0
    requires s.stack == [] && s.open == [] && s.comps == [] && s.next == 0
    ensures Kept(adj, R, s)
  {
    EmptySearch(adj, R, s);
  }

  /** The worklist pairs each open node with its edge cursor. */
  ghost predicate Cursors(work: seq<(nat, nat)>, open: seq<nat>, explored: seq<nat>) {
    && |work| == |open|
    && forall i :: 0 <= i < |work| ==> open[i] < |explored| && work[i] == (open[i], explored[open[i]])
  }

  /** The program's variables are those of `s`. */
  ghost predicate Tracks(s: Search, dfs: seq<int>, low: seq<int>, stack: seq<nat>, onStack: seq<bool>, next: nat) {
    s.dfs == dfs && s.low == low && s.stack == stack && s.onStack == onStack && s.next == next
  }

  /** `v` is the top of the worklist, with `cursor` edges followed. */
  ghost predicate OnTop(adj: Adjacency, R: Relation, s: Search, work: seq<(nat, nat)>, v: nat, cursor: nat) {
    && IsReach(adj, R) && Kept(adj, R, s) && Cursors(work, s.open, s.explored)
    && work != [] && work[|work| - 1] == (v, cursor)
  }

  lemma TopIsOpen(adj: Adjacency, s: Search, i: nat)
    requires Shape(adj, s) && i < |s.open|
    ensures s.open[i] in s.open && s.open[i] in s.stack && s.open[i] < |adj|
  {
    assert s.open[i] in s.open;
  }

  lemma TopInRange(adj: Adjacency, R: Relation, s: Search, work: seq<(nat, nat)>, v: nat, cursor: nat)
    requires OnTop(adj, R, s, work, v, cursor)
    ensures |s.dfs| == |s.low| == |s.onStack| == |s.explored| == |adj| && v < |adj| && cursor <= |adj[v]|
    ensures s.open != [] && v == s.open[|s.open| - 1] && s.explored[v] == cursor && v in s.stack
    ensures forall x :: x in s.stack ==> x < |adj|
    ensures forall j :: 0 <= j < |adj[v]| ==> adj[v][j] < |adj|
    ensures Distinct(s.stack)
    ensures |work| > 1 ==>
              && work[|work| - 2].0 < |adj| && work[|work| - 2].0 != v
              && work[|work| - 2].0 == s.open[|s.open| - 2]
  {
    Unfold(adj, R, s);
    TopIsOpen(adj, s, |s.open| - 1);
    if |work| > 1 {
      TopIsOpen(adj, s, |s.open| - 2);
    }
  }

  lemma CursorAdvances(work: seq<(nat, nat)>, dfs: seq<int>, open: seq<nat>, explored: seq<nat>, v: nat, cursor: nat)
    requires Cursors(work, open, explored) && Ascending(dfs, open) && work != [] && work[|work| - 1] == (v, cursor)
    ensures Cursors(work[|work| - 1 := (v, cursor + 1)], open, explored[v := explored[v] + 1])
  {
  }

  /** Following the next edge of the top moves its cursor and leaves less to do. */
  lemma CursorMoves(adj: Adjacency, R: Relation, s: Search, work: seq<(nat, nat)>, v: nat, cursor: nat)
    requires OnTop(adj, R, s, work, v, cursor) && v < |adj| && cursor < |adj[v]|
    ensures v < |s.explored| && Cursors(work[|work| - 1 := (v, cursor + 1)], s.open, s.explored[v := cursor + 1])
    ensures ToFollow(adj, s.explored[v := cursor + 1]) < ToFollow(adj, s.explored)
  {
    TopInRange(adj, R, s, work, v, cursor);
    ToFollowShrinks(adj, s.explored, v);
    assert Ascending(s.dfs, s.open) by {
      Unfold(adj, R, s);
    }
    CursorAdvances(work, s.dfs, s.open, s.explored, v, cursor);
  }

  /** The next edge of the top leads to a new vertex. */
  lemma TreeStep(adj: Adjacency, R: Relation, s: Search, work: seq<(nat, nat)>, v: nat, cursor: nat, w: nat)
    requires OnTop(adj, R, s, work, v, cursor) && v < |adj| && cursor < |adj[v]| && adj[v][cursor] == w
    requires w < |adj| == |s.dfs| == |s.low| == |s.onStack| == |s.explored| && s.dfs[w] == -1
    ensures Kept(adj, R, Advance(Discover(s, w), v))
  {
    Unfold(adj, R, s);
    TopInRange(adj, R, s, work, v, cursor);
    DiscoverKeeps(adj, R, s, w);
    var t := Discover(s, w);
    assert v in t.open;
    AdvanceKeeps(adj, R, t, v, w);
  }

  lemma TreeCursor(adj: Adjacency, R: Relation, s: Search, work: seq<(nat, nat)>, v: nat, cursor: nat, w: nat)
    requires OnTop(adj, R, s, work, v, cursor) && v < |adj| && cursor < |adj[v]|
    requires w < |adj| == |s.dfs| && s.dfs[w] == -1
    ensures v < |s.explored| && Cursors(work[|work| - 1 := (v, cursor + 1)] + [(w, 0)], s.open + [w],
                                        s.explored[v := cursor + 1])
  {
    TopInRange(adj, R, s, work, v, cursor);
    CursorMoves(adj, R, s, work, v, cursor);
    assert s.explored[w] == 0 && s.dfs[v] != -1 by {
      Unfold(adj, R, s);
    }
  }

  /** The next edge of the top leads to a vertex on the stack. */
  lemma BackStep(adj: Adjacency, R: Relation, s: Search, work: seq<(nat, nat)>, v: nat, cursor: nat, w: nat)
    requires OnTop(adj, R, s, work, v, cursor) && v < |adj| && cursor < |adj[v]| && adj[v][cursor] == w
    requires w < |adj| == |s.dfs| == |s.low| == |s.onStack| == |s.explored| && s.onStack[w]
    ensures Kept(adj, R, Advance(LowerTo(s, v, s.dfs[w]), v))
  {
    Unfold(adj, R, s);
    TopInRange(adj, R, s, work, v, cursor);
    assert Holds(s.onStack, w);
    LowerKeeps(adj, R, s, v, w);
    AdvanceKeeps(adj, R, LowerTo(s, v, s.dfs[w]), v, w);
  }

  /** The next edge of the top leads to a popped vertex. */
  lemma CrossStep(adj: Adjacency, R: Relation, s: Search, work: seq<(nat, nat)>, v: nat, cursor: nat, w: nat)
    requires OnTop(adj, R, s, work, v, cursor) && v < |adj| && cursor < |adj[v]| && adj[v][cursor] == w
    requires w < |adj| == |s.dfs| == |s.onStack| == |s.explored| && s.dfs[w] != -1 && !s.onStack[w]
    ensures Kept(adj, R, Advance(s, v))
  {
    Unfold(adj, R, s);
    TopInRange(adj, R, s, work, v, cursor);
    assert !Holds(s.onStack, w);
    AdvanceKeeps(adj, R, s, v, w);
  }

  /** The state after the finished top handed its low link to the vertex under it. */
  ghost predicate Handed(adj: Adjacency, s: Search, t: Search, v: nat) {
    && s.open != [] && v < |s.low| == |adj|
    && if |s.open| == 1 then t == s
       else s.open[|s.open| - 2] < |s.low| && t == LowerTo(s, s.open[|s.open| - 2], s.low[v])
  }

  lemma ParentReaches(R: Relation, dfs: seq<int>, low: seq<int>, stack: seq<nat>, open: seq<nat>, p: nat, v: nat)
    returns (y: nat)
    requires Transitive(R) && Connected(R, dfs, stack, open) && LowIsReached(R, dfs, low, stack, v)
    requires p in open && v in stack && At(dfs, p) <= At(dfs, v)
    ensures y in stack && At(dfs, y) == At(low, v) && (p, y) in R
  {
    y :| y in stack && At(dfs, y) == At(low, v) && (v, y) in R;
    Chain(R, p, v, y);
  }

  lemma HandOver(adj: Adjacency, R: Relation, s: Search, t: Search, v: nat)
    requires Transitive(R) && Inv(adj, R, s) && Handed(adj, s, t, v)
    requires v == s.open[|s.open| - 1] && v < |adj| && s.explored[v] == |adj[v]|
    ensures CanFinish(adj, R, t, v) && Inv(adj, R, t) && At(t.low, v) == At(s.low, v) <= At(s.dfs, v)
  {
    TopIsOpen(adj, s, |s.open| - 1);
    if |s.open| > 1 {
      var p := s.open[|s.open| - 2];
      TopIsOpen(adj, s, |s.open| - 2);
      assert LowIsReached(R, s.dfs, s.low, s.stack, v);
      var y := ParentReaches(R, s.dfs, s.low, s.stack, s.open, p, v);
      LowerKeeps(adj, R, s, p, y);
    }
  }

  /** The finished `v` has to stay on the stack. */
  lemma StayStep(adj: Adjacency, R: Relation, s: Search, work: seq<(nat, nat)>, t: Search, v: nat, cursor: nat)
    requires OnTop(adj, R, s, work, v, cursor) && v < |adj| && cursor == |adj[v]| && Handed(adj, s, t, v)
    requires At(s.low, v) != At(s.dfs, v)
    ensures t.open != [] && Kept(adj, R, t.(open := t.open[..|t.open| - 1]))
  {
    Unfold(adj, R, s);
    TopInRange(adj, R, s, work, v, cursor);
    HandOver(adj, R, s, t, v);
    CloseKeeps(adj, R, t, v);
  }

  /** The component of the finished `v` leaves the stack. */
  lemma PopStep(adj: Adjacency, R: Relation, s: Search, work: seq<(nat, nat)>, t: Search, v: nat, cursor: nat,
                k: nat, marks: seq<bool>)
    requires OnTop(adj, R, s, work, v, cursor) && v < |adj| && cursor == |adj[v]| && Handed(adj, s, t, v)
    requires At(s.low, v) == At(s.dfs, v)
    requires k < |s.stack| && s.stack[k] == v && Unmarked(s.onStack, marks, s.stack[k..])
    ensures t.open != [] && k <= |t.stack| && Kept(adj, R, Pop(t, k, marks))
  {
    Unfold(adj, R, s);
    TopInRange(adj, R, s, work, v, cursor);
    HandOver(adj, R, s, t, v);
    PopKeeps(adj, R, t, v, k, marks);
  }

  ghost predicate Listed(comps: seq<set<nat>>, v: nat) {
    exists k :: 0 <= k < |comps| && v in comps[k]
  }

  /** `comps` lists all the components, each once. */
  ghost predicate AllPopped(n: nat, R: Relation, comps: seq<set<nat>>) {
    && (forall k :: 0 <= k < |comps| ==> comps[k] in Components(R, Below(n)))
    && (forall k, l :: 0 <= k < l < |comps| ==> comps[k] !! comps[l])
    && (forall v {:trigger Listed(comps, v)} :: v in Below(n) ==> Listed(comps, v))
  }

  lemma AllVisited(adj: Adjacency, R: Relation, s: Search)
    requires Kept(adj, R, s) && s.open == [] && |s.dfs| == |adj| && forall v :: 0 <= v < |adj| ==> s.dfs[v] != -1
    ensures AllPopped(|adj|, R, s.comps)
  {
    Unfold(adj, R, s);
    StackNeedsOpen(R, s.dfs, s.stack, s.open);
    forall v | v in Below(|adj|)
      ensures Listed(s.comps, v)
    {
      assert v !in s.stack;
      assert Done(s.dfs, s.onStack, v);
    }
  }

  // -------------------------------------------------------------- the program

  /** The loop body while the top of the worklist still has an edge to follow. */
  method FollowEdge(adj: Adjacency, dfs: seq<int>, low: seq<int>, stack: seq<nat>, onStack: seq<bool>,
                    work: seq<(nat, nat)>, next: nat, ghost R: Relation, ghost s: Search)
    returns (dfs': seq<int>, low': seq<int>, stack': seq<nat>, onStack': seq<bool>,
             work': seq<(nat, nat)>, next': nat, ghost s': Search)
    requires work != [] && OnTop(adj, R, s, work, work[|work| - 1].0, work[|work| - 1].1)
    requires Tracks(s, dfs, low, stack, onStack, next)
    requires work[|work| - 1].0 < |adj| && work[|work| - 1].1 < |adj[work[|work| - 1].0]|
    ensures Kept(adj, R, s') && Tracks(s', dfs', low', stack', onStack', next')
    ensures Cursors(work', s'.open, s'.explored) && s'.comps == s.comps
    ensures ToFollow(adj, s'.explored) < ToFollow(adj, s.explored)
    ensures |dfs'| == |dfs| && forall v :: 0 <= v < |dfs| && dfs[v] != -1 ==> dfs'[v] != -1
  {
    dfs', low', stack', onStack', work', next' := dfs, low, stack, onStack, work, next;
    var (v, cursor) := work[|work| - 1];
    TopInRange(adj, R, s, work, v, cursor);
    CursorMoves(adj, R, s, work, v, cursor);
    var w := adj[v][cursor];
    work' := work'[|work| - 1 := (v, cursor + 1)];
    if dfs[w] == -1 {
      dfs', low' := dfs'[w := next], low'[w := next];
      next' := next + 1;
      stack', onStack' := stack' + [w], onStack'[w := true];
      work' := work' + [(w, 0)];
      TreeStep(adj, R, s, work, v, cursor, w);
      TreeCursor(adj, R, s, work, v, cursor, w);
      s' := Advance(Discover(s, w), v);
    } else if onStack[w] {
      low' := low'[v := if dfs[w] < low[v] then dfs[w] else low[v]];
      BackStep(adj, R, s, work, v, cursor, w);
      s' := Advance(LowerTo(s, v, dfs[w]), v);
    } else {
      CrossStep(adj, R, s, work, v, cursor, w);
      s' := Advance(s, v);
    }
    assert s'.explored == s.explored[v := cursor + 1];
  }

  /** The loop body once the top of the worklist has no edge left. */
  method FinishTop(adj: Adjacency, dfs: seq<int>, low: seq<int>, stack: seq<nat>, onStack: seq<bool>,
                   work: seq<(nat, nat)>, next: nat, ghost R: Relation, ghost s: Search)
    returns (low': seq<int>, stack': seq<nat>, onStack': seq<bool>, work': seq<(nat, nat)>, scc: seq<nat>,
             ghost s': Search)
    requires work != [] && OnTop(adj, R, s, work, work[|work| - 1].0, work[|work| - 1].1)
    requires Tracks(s, dfs, low, stack, onStack, next)
    requires work[|work| - 1].0 < |adj| && work[|work| - 1].1 == |adj[work[|work| - 1].0]|
    ensures Kept(adj, R, s') && Tracks(s', dfs, low', stack', onStack', next)
    ensures Cursors(work', s'.open, s'.explored)
    ensures |work'| == |work| - 1 && s'.explored == s.explored
    ensures Distinct(scc) && forall v :: v in scc ==> v < |adj|
    ensures s'.comps == if scc == [] then s.comps else s.comps + [SetOf(scc)]
  {
    var (v, cursor) := work[|work| - 1];
    TopInRange(adj, R, s, work, v, cursor);
    low', stack', onStack', scc := low, stack, onStack, [];
    work' := work[..|work| - 1];
    ghost var t := s;
    if work' != [] {
      var p := work'[|work'| - 1].0;
      low' := low'[p := if low[v] < low[p] then low[v] else low[p]];
      t := LowerTo(s, p, low[v]);
    }
    if low'[v] == dfs[v] {
      ghost var k: nat :| k < |stack| && stack[k] == v;
      stack', onStack', scc := PopDownTo(stack, onStack, v, k);
      PopStep(adj, R, s, work, t, v, cursor, k, onStack');
      s' := Pop(t, k, onStack');
      forall x | x in scc
        ensures x < |adj|
      {
        assert x in SetOf(stack[k..]) && x in stack;
      }
    } else {
      StayStep(adj, R, s, work, t, v, cursor);
      s' := t.(open := t.open[..|t.open| - 1]);
    }
  }

  /** Keep the component if it is larger than the largest one so far. */
  method Record(ids: seq<nat>, ghost comps: seq<set<nat>>, ghost previous: seq<nat>, scc: seq<nat>,
                largest: nat, members: seq<nat>, cyclic: nat)
    returns (largest': nat, members': seq<nat>, cyclic': nat)
    requires Summary(ids, comps, previous, largest, members, cyclic)
    requires Distinct(scc) && forall v :: v in scc ==> v < |ids|
    ensures Summary(ids, if scc == [] then comps else comps + [SetOf(scc)], previous, largest', members', cyclic')
  {
    largest', members', cyclic' := largest, members, cyclic;
    if |scc| > 1 {
      cyclic' := cyclic + 1;
    }
    if |scc| > largest {
      largest', members' := |scc|, [];
      for i := 0 to |scc|
        invariant |members'| == i && forall j :: 0 <= j < i ==> scc[j] < |ids| && members'[j] == ids[scc[j]]
      {
        assert scc[i] in scc;
        members' := members' + [ids[scc[i]]];
      }
    }
    if scc != [] {
      SummaryGrows(ids, comps, previous, largest, members, cyclic, scc, largest', members', cyclic');
    }
  }

  lemma RootStep(adj: Adjacency, R: Relation, s: Search, root: nat)
    requires IsReach(adj, R) && Kept(adj, R, s) && s.open == [] && root < |adj| && At(s.dfs, root) == -1
    ensures root < |s.dfs| == |s.low| == |s.onStack| == |s.explored| == |adj| && s.stack == []
    ensures Kept(adj, R, Discover(s, root)) && s.explored[root] == 0
    ensures forall v :: 0 <= v < |adj| && (s.dfs[v] != -1 || v == root) ==> Discover(s, root).dfs[v] != -1
  {
    Unfold(adj, R, s);
    StackNeedsOpen(R, s.dfs, s.stack, s.open);
    DiscoverKeeps(adj, R, s, root);
  }

  lemma NothingLeft(adj: Adjacency, R: Relation, s: Search)
    requires Kept(adj, R, s) && s.open == []
    ensures s.stack == [] && |s.dfs| == |adj|
  {
    Unfold(adj, R, s);
    StackNeedsOpen(R, s.dfs, s.stack, s.open);
  }

  /** Explore everything reachable from the new vertex `root`. */
  method ExploreFrom(adj: Adjacency, ids: seq<nat>, root: nat, ghost previous: seq<nat>, ghost R: Relation,
                     ghost s0: Search,
                     dfs0: seq<int>, low0: seq<int>, onStack0: seq<bool>, next0: nat,
                     largest0: nat, members0: seq<nat>, cyclic0: nat)
    returns (dfs: seq<int>, low: seq<int>, onStack: seq<bool>, next: nat,
             largest: nat, members: seq<nat>, cyclic: nat, ghost s: Search)
    requires IsReach(adj, R) && Kept(adj, R, s0) && Tracks(s0, dfs0, low0, [], onStack0, next0) && s0.open == []
    requires |ids| == |adj| && root < |adj| == |dfs0| && dfs0[root] == -1
    requires Summary(ids, s0.comps, previous, largest0, members0, cyclic0)
    ensures Kept(adj, R, s) && Tracks(s, dfs, low, [], onStack, next) && s.open == []
    ensures |dfs| == |adj| && dfs[root] != -1 && forall v :: 0 <= v < |adj| && dfs0[v] != -1 ==> dfs[v] != -1
    ensures Summary(ids, s.comps, previous, largest, members, cyclic)
  {
    largest, members, cyclic := largest0, members0, cyclic0;
    RootStep(adj, R, s0, root);
    s := Discover(s0, root);
    dfs, low := dfs0[root := next0], low0[root := next0];
    next := next0 + 1;
    var stack := [root];
    onStack := onStack0[root := true];
    var work: seq<(nat, nat)> := [(root, 0)];
    while work != []
      invariant Kept(adj, R, s) && Tracks(s, dfs, low, stack, onStack, next)
      invariant Cursors(work, s.open, s.explored)
      invariant |dfs| == |adj| && dfs[root] != -1 && forall v :: 0 <= v < |adj| && dfs0[v] != -1 ==> dfs[v] != -1
      invariant Summary(ids, s.comps, previous, largest, members, cyclic)
      decreases ToFollow(adj, s.explored), |work|
    {
      TopInRange(adj, R, s, work, work[|work| - 1].0, work[|work| - 1].1);
      if work[|work| - 1].1 < |adj[work[|work| - 1].0]| {
        dfs, low, stack, onStack, work, next, s := FollowEdge(adj, dfs, low, stack, onStack, work, next, R, s);
      } else {
        ghost var before := s.comps;
        var scc;
        low, stack, onStack, work, scc, s := FinishTop(adj, dfs, low, stack, onStack, work, next, R, s);
        largest, members, cyclic := Record(ids, before, previous, scc, largest, members, cyclic);
      }
    }
    NothingLeft(adj, R, s);
  }

  method SearchComponents(adj: Adjacency, ids: seq<nat>, previous: seq<nat>, ghost R: Relation)
    returns (largest: nat, members: seq<nat>, cyclic: nat, ghost comps: seq<set<nat>>)
    requires IsReach(adj, R) && |ids| == |adj|
    ensures AllPopped(|adj|, R, comps)
    ensures Summary(ids, comps, previous, largest, members, cyclic)
  {
    var n := |adj|;
    var dfs: seq<int>, low: seq<int> := seq(n, _ => -1), seq(n, _ => 0);
    var onStack, next := seq(n, _ => false), 0;
    largest, members, cyclic := 0, previous, 0;
    ghost var s := Search(dfs, low, [], onStack, [], next, seq(n, _ => 0), []);
    NothingSearched(adj, R, s);
    for root := 0 to n
      invariant Kept(adj, R, s) && Tracks(s, dfs, low, [], onStack, next) && s.open == []
      invariant |dfs| == n && forall v :: 0 <= v < root ==> dfs[v] != -1
      invariant Summary(ids, s.comps, previous, largest, members, cyclic)
    {
      if dfs[root] == -1 {
        dfs, low, onStack, next, largest, members, cyclic, s :=
          ExploreFrom(adj, ids, root, previous, R, s, dfs, low, onStack, next, largest, members, cyclic);
      }
    }
    AllVisited(adj, R, s);
    comps := s.comps;
  }
}
