/** The graph of immediate dominance that `buildTransientReduction` leaves behind. */
module DominanceTree {
  import opened Paths
  import opened Dominance
  import opened Sequences
  import opened NodeDominance
  import opened Dominators
  import TR = TransitiveReduction

  type Relation = set<(nat, nat)>

  /** `n` dominates the different block `m`. */
  ghost function StrictDominance(g: Flow, dom: DomSets): Relation {
    set n, m | n in g.nodes && m in g.nodes && m in dom && n != m && n in dom[m] :: (n, m)
  }

  /** Strict dominance is a strict order iff at most one block is not derivable. */
  lemma WhenStrictOrder(g: Flow, dom: DomSets)
    requires WellFormed(g) && IsGreatest(g, dom)
    ensures TR.StrictOrder(StrictDominance(g, dom)) <==> !exists n: nat, m: nat :: TwoUnderivable(g, n, m)
  {
    var S := StrictDominance(g, dom);
    if n: nat, m: nat :| TwoUnderivable(g, n, m) {
      MutualDominance(g, dom, n, m);
      assert (n, m) in S && (m, n) in S && (n, n) !in S;
    } else {
      forall u, v, w | (u, v) in S && (v, w) in S
        ensures (u, w) in S
      {
        DominanceIsTransitive(g, dom, u, v, w);
        MutualDominance(g, dom, u, v);
        assert !TwoUnderivable(g, u, v);
      }
    }
  }

  /** The blocks that strict dominance orders: the derivable ones, and all if at most one
      is not. */
  ghost function Ordered(g: Flow): set<nat> {
    set n | n in g.nodes && (Derivable(g, {}, n) || AtMostOneUnderivable(g))
  }

  ghost predicate AtMostOneUnderivable(g: Flow) {
    forall a: nat, b: nat {:trigger TwoUnderivable(g, a, b)} :: !TwoUnderivable(g, a, b)
  }

  /** What dominates such a block is one. */
  lemma OrderedBelow(g: Flow, dom: DomSets, u: nat, v: nat)
    requires WellFormed(g) && IsGreatest(g, dom) && (u, v) in StrictDominance(g, dom) && v in Ordered(g)
    ensures u in Ordered(g) && (v, u) !in StrictDominance(g, dom)
  {
    MutualDominance(g, dom, u, v);
    MutualDominance(g, dom, v, u);
    if u !in Ordered(g) || (v, u) in StrictDominance(g, dom) {
      assert TwoUnderivable(g, u, v);
    }
  }

  lemma OrderedIsOrder(g: Flow, dom: DomSets)
    requires WellFormed(g) && IsGreatest(g, dom)
    ensures TR.OrderBelow(StrictDominance(g, dom), Ordered(g))
  {
    var S := StrictDominance(g, dom);
    forall u, v | (u, v) in S && v in Ordered(g)
      ensures u in Ordered(g) && (v, u) !in S
    {
      OrderedBelow(g, dom, u, v);
    }
    forall u, v, w | (u, v) in S && (v, w) in S && w in Ordered(g)
      ensures (u, w) in S
    {
      DominanceIsTransitive(g, dom, u, v, w);
    }
  }

  /** Row and column numbers of `reach` stand for the blocks listed in `order`. */
  ghost predicate Numbers(order: seq<nat>, nodes: set<nat>) {
    Distinct(order) && forall n :: n in nodes <==> n in order
  }

  lemma CoversByNumber(order: seq<nat>, nodes: set<nat>, S: Relation, E: Relation, u: nat, v: nat)
    requires Numbers(order, nodes) && u < |order| && v < |order|
    requires forall n, m :: (n, m) in S ==> n in nodes && m in nodes
    requires forall i: nat, j: nat {:trigger (i, j) in E} {:trigger (order[i], order[j]) in S} ::
               i < |order| && j < |order| ==> ((i, j) in E <==> (order[i], order[j]) in S)
    requires forall i, j :: (i, j) in E ==> i < |order| && j < |order|
    ensures TR.Covers(E, u, v) <==> TR.Covers(S, order[u], order[v])
  {
    if TR.Covers(E, u, v) {
      forall w
        ensures !((order[u], w) in S && (w, order[v]) in S)
      {
        if (order[u], w) in S {
          var k: nat :| k < |order| && order[k] == w;
          assert (u, k) in E;
        }
      }
    }
    if TR.Covers(S, order[u], order[v]) {
      forall w
        ensures !((u, w) in E && (w, v) in E)
      {
        if (u, w) in E {
          assert (order[u], order[w]) in S;
        }
      }
    }
  }

  /** The numbers of the blocks in `T`. */
  ghost function NumbersOf(order: seq<nat>, T: set<nat>): set<nat> {
    set k: nat | k < |order| && order[k] in T
  }

  lemma OrderByNumber(order: seq<nat>, T: set<nat>, S: Relation, E: Relation)
    requires TR.OrderBelow(S, T)
    requires forall i: nat, j: nat {:trigger (i, j) in E} {:trigger (order[i], order[j]) in S} ::
               i < |order| && j < |order| ==> ((i, j) in E <==> (order[i], order[j]) in S)
    requires forall i, j :: (i, j) in E ==> i < |order| && j < |order|
    ensures TR.OrderBelow(E, NumbersOf(order, T))
  {
    forall u, v | (u, v) in E && v in NumbersOf(order, T)
      ensures u in NumbersOf(order, T)
    {
      assert (order[u], order[v]) in S;
    }
    forall u, v, w | (u, v) in E && (v, w) in E && w in NumbersOf(order, T)
      ensures (u, w) in E
    {
      assert (order[u], order[v]) in S && (order[v], order[w]) in S;
      assert (order[u], order[w]) in S;
    }
    forall v: nat | v in NumbersOf(order, T)
      ensures (v, v) !in E
    {
      assert (order[v], order[v]) !in S;
    }
  }

  ghost predicate Cell(dom: DomSets, n: nat, m: nat) {
    m in dom && n in dom[m]
  }

  ghost predicate IsRow(dom: DomSets, order: seq<nat>, i: nat, row: seq<bool>) {
    && i < |order| == |row|
    && forall j {:trigger row[j]} :: 0 <= j < |order| ==> (row[j] <==> i != j && Cell(dom, order[i], order[j]))
  }

  /** `reach` says which of the blocks in `order` dominate which others. */
  ghost predicate IsMatrix(dom: DomSets, order: seq<nat>, reach: TR.Matrix) {
    |reach| == |order| && forall i: nat {:trigger IsRow(dom, order, i, reach[i])} :: i < |order| ==>
      IsRow(dom, order, i, reach[i])
  }

  ghost predicate Asked(k: nat) {
    true
  }

  /** The analysis was done. (What that means is looked at only where it is asked for.) */
  ghost predicate Ready(d: Dominator, dom: DomSets, blocks: set<nat>)
    reads d
  {
    forall k: nat {:trigger Asked(k)} :: Asked(k) ==>
      d.Valid() && d.isCreated && d.dom == dom && d.layout.blocks.Keys == blocks
  }

  /** Compare the blocks `n` and `m` by their first nodes. */
  method FirstNodeDominates(d: Dominator, n: nat, m: nat, ghost dom: DomSets, ghost blocks: set<nat>) returns (r: bool)
    requires Ready(d, dom, blocks) && n in blocks && m in blocks && n != m
    ensures r <==> Cell(dom, n, m)
  {
    assert Asked(0);
    FirstNodes(d.layout, n);
    FirstNodes(d.layout, m);
    var answer := d.Dominates(d.layout.blocks[n][0], d.layout.blocks[m][0]);
    r := answer.value;
    assert m in DomFlow(d.g, d.entry).nodes;
  }

  method DominanceRow(d: Dominator, order: seq<nat>, i: nat, ghost dom: DomSets, ghost blocks: set<nat>)
    returns (row: seq<bool>)
    requires Ready(d, dom, blocks) && (forall n :: n in order ==> n in blocks) && Distinct(order) && i < |order|
    ensures IsRow(dom, order, i, row)
  {
    row := [];
    for j := 0 to |order|
      invariant |row| == j
      invariant forall k {:trigger row[k]} :: 0 <= k < j ==> (row[k] <==> i != k && Cell(dom, order[i], order[k]))
    {
      var r := false;
      if i != j {
        assert order[i] in order && order[j] in order;
        r := FirstNodeDominates(d, order[i], order[j], dom, blocks);
      }
      row := row + [r];
    }
  }

  method DominanceMatrix(d: Dominator, order: seq<nat>, ghost dom: DomSets, ghost blocks: set<nat>)
    returns (reach: TR.Matrix)
    requires Ready(d, dom, blocks) && (forall n :: n in order ==> n in blocks) && Distinct(order)
    ensures IsMatrix(dom, order, reach)
  {
    reach := [];
    for i := 0 to |order|
      invariant |reach| == i && forall k: nat {:trigger IsRow(dom, order, k, reach[k])} :: k < i ==>
                  IsRow(dom, order, k, reach[k])
    {
      var row := DominanceRow(d, order, i, dom, blocks);
      reach := reach + [row];
    }
  }

  /** The edges of the kept pairs, by block. */
  method AddEdges(order: seq<nat>, kept: TR.Matrix) returns (edges: Relation)
    requires TR.Square(kept) && |kept| == |order|
    ensures forall e :: e in edges <==> exists k, j ::
              0 <= k < |order| && 0 <= j < |order| && kept[k][j] && e == (order[k], order[j])
  {
    edges := {};
    for i := 0 to |order|
      invariant forall e :: e in edges <==> exists k, j ::
                  0 <= k < i && 0 <= j < |order| && kept[k][j] && e == (order[k], order[j])
    {
      for j := 0 to |order|
        invariant forall e :: e in edges <==> exists k, l :: 0 <= k <= i && 0 <= l < |order| && (k < i || l < j)
                                                             && kept[k][l] && e == (order[k], order[l])
      {
        if kept[i][j] {
          edges := edges + {(order[i], order[j])};
        }
      }
    }
  }

  ghost predicate PostReady(d: PostDominator, dom: DomSets, blocks: set<nat>)
    reads d
  {
    forall k: nat {:trigger Asked(k)} :: Asked(k) ==>
      d.Valid() && d.isCreated && d.dom == dom && d.layout.blocks.Keys == blocks
  }

  /** For post-dominance they are compared by their first nodes as well. */
  method FirstNodePostDominates(d: PostDominator, n: nat, m: nat, ghost dom: DomSets, ghost blocks: set<nat>)
    returns (r: bool)
    requires PostReady(d, dom, blocks) && n in blocks && m in blocks && n != m
    ensures r <==> Cell(dom, n, m)
  {
    assert Asked(0);
    FirstNodes(d.layout, n);
    FirstNodes(d.layout, m);
    var answer := d.Dominates(d.layout.blocks[n][0], d.layout.blocks[m][0]);
    r := answer.value;
    assert m in PostDomFlow(d.g, d.exit).nodes;
  }

  method PostDominanceRow(d: PostDominator, order: seq<nat>, i: nat, ghost dom: DomSets, ghost blocks: set<nat>)
    returns (row: seq<bool>)
    requires PostReady(d, dom, blocks) && (forall n :: n in order ==> n in blocks) && Distinct(order) && i < |order|
    ensures IsRow(dom, order, i, row)
  {
    row := [];
    for j := 0 to |order|
      invariant |row| == j
      invariant forall k {:trigger row[k]} :: 0 <= k < j ==> (row[k] <==> i != k && Cell(dom, order[i], order[k]))
    {
      var r := false;
      if i != j {
        assert order[i] in order && order[j] in order;
        r := FirstNodePostDominates(d, order[i], order[j], dom, blocks);
      }
      row := row + [r];
    }
  }

  method PostDominanceMatrix(d: PostDominator, order: seq<nat>, ghost dom: DomSets, ghost blocks: set<nat>)
    returns (reach: TR.Matrix)
    requires PostReady(d, dom, blocks) && (forall n :: n in order ==> n in blocks) && Distinct(order)
    ensures IsMatrix(dom, order, reach)
  {
    reach := [];
    for i := 0 to |order|
      invariant |reach| == i && forall k: nat {:trigger IsRow(dom, order, k, reach[k])} :: k < i ==>
                  IsRow(dom, order, k, reach[k])
    {
      var row := PostDominanceRow(d, order, i, dom, blocks);
      reach := reach + [row];
    }
  }

  /** The edges added to the dominance graph: pairs of strict dominance, and of those
      that end in a block that it orders exactly the covering ones. */
  method BuildTransientReduction(d: Dominator, order: seq<nat>) returns (edges: Relation)
    requires d.Valid() && d.isCreated && Numbers(order, d.g.nodes)
    ensures TR.CoversInto(StrictDominance(DomFlow(d.g, d.entry), d.dom), Ordered(DomFlow(d.g, d.entry)), edges)
  {
    assert Ready(d, d.dom, d.g.nodes);
    var reach := DominanceMatrix(d, order, d.dom, d.g.nodes);
    edges := Reduce(DomFlow(d.g, d.entry), d.dom, order, reach);
  }

  /** The same for post-dominance. */
  method BuildPostReduction(d: PostDominator, order: seq<nat>) returns (edges: Relation)
    requires d.Valid() && d.isCreated && Numbers(order, d.g.nodes)
    ensures TR.CoversInto(StrictDominance(PostDomFlow(d.g, d.exit), d.dom), Ordered(PostDomFlow(d.g, d.exit)), edges)
  {
    assert PostReady(d, d.dom, d.g.nodes);
    var reach := PostDominanceMatrix(d, order, d.dom, d.g.nodes);
    edges := Reduce(PostDomFlow(d.g, d.exit), d.dom, order, reach);
  }

  /** From the dominance matrix on, both are the same. */
  method Reduce(ghost g: Flow, ghost dom: DomSets, order: seq<nat>, reach: TR.Matrix) returns (edges: Relation)
    requires WellFormed(g) && IsGreatest(g, dom) && Numbers(order, g.nodes) && IsMatrix(dom, order, reach)
    ensures TR.CoversInto(StrictDominance(g, dom), Ordered(g), edges)
  {
    ghost var S, T := StrictDominance(g, dom), Ordered(g);
    CellsAreStrict(g, dom, order, reach);
    OrderedIsOrder(g, dom);
    OrderByNumber(order, T, S, TR.EdgesOf(reach));
    var kept := TR.ReduceMatrix(reach, NumbersOf(order, T));
    edges := AddEdges(order, kept);
    KeptIsCover(order, g.nodes, S, T, reach, kept, edges);
  }

  lemma CellsAreStrict(g: Flow, dom: DomSets, order: seq<nat>, reach: TR.Matrix)
    requires Numbers(order, g.nodes) && IsMatrix(dom, order, reach)
    ensures TR.Square(reach)
    ensures forall i: nat, j: nat {:trigger reach[i][j]} {:trigger (order[i], order[j]) in StrictDominance(g, dom)} ::
              i < |order| && j < |order| ==> (reach[i][j] <==> (order[i], order[j]) in StrictDominance(g, dom))
  {
    forall i: nat | i < |order|
      ensures order[i] in g.nodes && IsRow(dom, order, i, reach[i])
    {
      assert order[i] in order;
    }
  }

  lemma KeptIsCover(order: seq<nat>, nodes: set<nat>, S: Relation, T: set<nat>, reach: TR.Matrix, kept: TR.Matrix,
                    edges: Relation)
    requires Numbers(order, nodes) && (forall n, m :: (n, m) in S ==> n in nodes && m in nodes) && T <= nodes
    requires TR.Square(reach) && TR.Square(kept) && |reach| == |kept| == |order|
    requires forall i: nat, j: nat {:trigger reach[i][j]} {:trigger (order[i], order[j]) in S} ::
               i < |order| && j < |order| ==> (reach[i][j] <==> (order[i], order[j]) in S)
    requires forall i, j {:trigger kept[i][j]} :: 0 <= i < |reach| && 0 <= j < |reach| ==>
               TR.Keeps(reach, NumbersOf(order, T), i, j, kept[i][j])
    requires forall e :: e in edges <==> exists k, j ::
               0 <= k < |order| && 0 <= j < |order| && kept[k][j] && e == (order[k], order[j])
    ensures TR.CoversInto(S, T, edges)
  {
    var E := TR.EdgesOf(reach);
    forall k: nat, j: nat | k < |order| && j < |order|
      ensures (kept[k][j] ==> (order[k], order[j]) in S) &&
              (order[j] in T ==> (kept[k][j] <==> TR.Covers(S, order[k], order[j])))
    {
      assert TR.Keeps(reach, NumbersOf(order, T), k, j, kept[k][j]);
      CoversByNumber(order, nodes, S, E, k, j);
    }
    forall u: nat, v: nat | v in T
      ensures (u, v) in edges <==> TR.Covers(S, u, v)
    {
      if TR.Covers(S, u, v) {
        var k: nat :| k < |order| && order[k] == u;
        var j: nat :| j < |order| && order[j] == v;
        assert kept[k][j];
      }
    }
  }

  /** One block dominates another, which strict dominance orders, exactly when the kept
      edges lead from the first to the second, and every kept edge is needed for that. */
  lemma TreeIsDominance(g: Flow, dom: DomSets, edges: Relation, n: nat, m: nat)
    requires WellFormed(g) && IsGreatest(g, dom) && n in g.nodes && m in Ordered(g)
    requires TR.CoversInto(StrictDominance(g, dom), Ordered(g), edges)
    ensures Reach(edges, n, m) <==> n in dom[m]
    ensures (n, m) in edges ==> !Reach(edges - {(n, m)}, n, m)
  {
    var S := StrictDominance(g, dom);
    OrderedIsOrder(g, dom);
    if n == m {
      ReachRefl(edges, n);
      DominanceIsReflexive(g, dom, n);
    } else {
      TR.ClosureIsOrder(S, Ordered(g), edges, n, m);
    }
    if (n, m) in edges {
      TR.NoEdgeToSpare(S, Ordered(g), edges - {(n, m)}, n, m);
    }
  }
}
