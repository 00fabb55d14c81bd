/** `largest_component` of the access tracker: the call graph, filtered by `keep`,
    is turned into adjacency lists over indices and searched; the answer is given
    in call-graph ids. */
module LargestComponent {
  import opened Paths
  import opened Sequences
  import opened Tarjan

  datatype CallEdge = CallEdge(dst: nat, directCalls: set<nat>, indirectCalls: set<nat>)
  datatype CallGraphNode = CallGraphNode(id: nat, outEdges: seq<CallEdge>)
  type Keep = CallEdge -> bool

  /** The call graph is a map from ids to nodes, listed in iteration order. */
  ghost predicate UniqueIds(cg: seq<CallGraphNode>) {
    forall i, j :: 0 <= i < j < |cg| ==> cg[i].id != cg[j].id
  }

  ghost function IdSet(cg: seq<CallGraphNode>): set<nat> {
    set i | 0 <= i < |cg| :: cg[i].id
  }

  /** The edges the filter keeps, between nodes of the graph. */
  ghost function KeptEdges(cg: seq<CallGraphNode>, keep: Keep): set<(nat, nat)> {
    set i, j | 0 <= i < |cg| && 0 <= j < |cg[i].outEdges| && keep(cg[i].outEdges[j])
               && cg[i].outEdges[j].dst in IdSet(cg)
      :: (cg[i].id, cg[i].outEdges[j].dst)
  }

  /** `ids` and `adj` are the kept graph with node `ids[u]` renamed to `u`. */
  ghost predicate Renames(cg: seq<CallGraphNode>, keep: Keep, ids: seq<nat>, adj: Adjacency) {
    && |ids| == |adj| == |cg| && WellFormed(adj)
    && (forall u :: 0 <= u < |cg| ==> ids[u] == cg[u].id)
    && (forall u, v :: 0 <= u < |ids| && 0 <= v < |ids| ==>
        ((u, v) in EdgesOf(adj) <==> (ids[u], ids[v]) in KeptEdges(cg, keep)))
  }

  method BuildRow(edges: seq<CallEdge>, keep: Keep, idx: map<nat, nat>) returns (row: seq<nat>)
    ensures forall v :: v in row <==> exists j ::
              0 <= j < |edges| && keep(edges[j]) && edges[j].dst in idx && idx[edges[j].dst] == v
  {
    row := [];
    for k := 0 to |edges|
      invariant forall v :: v in row <==> exists j ::
                  0 <= j < k && keep(edges[j]) && edges[j].dst in idx && idx[edges[j].dst] == v
    {
      if !keep(edges[k]) {
        continue;
      }
      if edges[k].dst in idx {
        row := row + [idx[edges[k].dst]];
      }
    }
  }

  method BuildAdjacency(cg: seq<CallGraphNode>, keep: Keep) returns (ids: seq<nat>, adj: Adjacency)
    requires UniqueIds(cg)
    ensures Renames(cg, keep, ids, adj)
  {
    ids := [];
    var idx: map<nat, nat> := map[];
    for u := 0 to |cg|
      invariant |ids| == u && forall w :: 0 <= w < u ==> ids[w] == cg[w].id
      invariant forall w :: 0 <= w < u ==> cg[w].id in idx && idx[cg[w].id] == w
      invariant forall x :: x in idx ==> idx[x] < u && cg[idx[x]].id == x
    {
      idx := idx[cg[u].id := u];
      ids := ids + [cg[u].id];
    }
    adj := [];
    for u := 0 to |cg|
      invariant |adj| == u
      invariant forall w, v :: 0 <= w < u ==> (v in adj[w] <==> RowHas(cg[w].outEdges, keep, idx, v))
    {
      var row := BuildRow(cg[u].outEdges, keep, idx);
      adj := adj + [row];
    }
    forall u, j | 0 <= u < |adj| && 0 <= j < |adj[u]|
      ensures adj[u][j] < |adj|
    {
      assert adj[u][j] in adj[u];
    }
    forall u, v | 0 <= u < |ids| && 0 <= v < |ids|
      ensures (u, v) in EdgesOf(adj) <==> (ids[u], ids[v]) in KeptEdges(cg, keep)
    {
      RowIsKept(cg, keep, idx, u, v);
      assert (u, v) in EdgesOf(adj) <==> v in adj[u];
    }
  }

  ghost predicate RowHas(edges: seq<CallEdge>, keep: Keep, idx: map<nat, nat>, v: nat) {
    exists j :: 0 <= j < |edges| && keep(edges[j]) && edges[j].dst in idx && idx[edges[j].dst] == v
  }

  lemma RowIsKept(cg: seq<CallGraphNode>, keep: Keep, idx: map<nat, nat>, u: nat, v: nat)
    requires UniqueIds(cg) && u < |cg| && v < |cg|
    requires forall w :: 0 <= w < |cg| ==> cg[w].id in idx && idx[cg[w].id] == w
    requires forall x :: x in idx ==> idx[x] < |cg| && cg[idx[x]].id == x
    ensures RowHas(cg[u].outEdges, keep, idx, v) <==> (cg[u].id, cg[v].id) in KeptEdges(cg, keep)
  {
    if RowHas(cg[u].outEdges, keep, idx, v) {
      var j :| 0 <= j < |cg[u].outEdges| && keep(cg[u].outEdges[j]) && cg[u].outEdges[j].dst in idx
               && idx[cg[u].outEdges[j].dst] == v;
      assert cg[v].id in IdSet(cg);
    }
    if (cg[u].id, cg[v].id) in KeptEdges(cg, keep) {
      var i, j :| 0 <= i < |cg| && 0 <= j < |cg[i].outEdges| && keep(cg[i].outEdges[j])
                  && cg[i].id == cg[u].id && cg[i].outEdges[j].dst == cg[v].id;
      assert i == u;
    }
  }

  // ----------------------------------------------- components, index to id

  /** Node `u` of the graph `E` is the node `ids[u]` of the graph with vertices `W` and edges `F`. */
  ghost predicate Corresponds(ids: seq<nat>, E: Relation, F: Relation, W: set<nat>) {
    && Distinct(ids)
    && (forall x :: x in W <==> x in ids)
    && (forall u, v {:trigger (u, v) in E} {:trigger (ids[u], ids[v]) in F} ::
          0 <= u < |ids| && 0 <= v < |ids| ==> ((u, v) in E <==> (ids[u], ids[v]) in F))
    && (forall u, v :: (u, v) in E ==> u < |ids| && v < |ids|)
    && (forall x, y :: (x, y) in F ==> x in W && y in W)
  }

  lemma GraphsCorrespond(cg: seq<CallGraphNode>, keep: Keep, ids: seq<nat>, adj: Adjacency)
    requires UniqueIds(cg) && Renames(cg, keep, ids, adj)
    ensures Corresponds(ids, EdgesOf(adj), KeptEdges(cg, keep), IdSet(cg))
  {
    forall x
      ensures x in IdSet(cg) <==> x in ids
    {
      if x in IdSet(cg) {
        var i :| 0 <= i < |cg| && cg[i].id == x;
        assert ids[i] == x;
      }
    }
  }

  lemma ReachForward(ids: seq<nat>, E: Relation, F: Relation, W: set<nat>, u: nat, v: nat)
    requires Corresponds(ids, E, F, W) && u < |ids| && v < |ids|
    requires (u, v) in ReachSet(E, Below(|ids|))
    ensures (ids[u], ids[v]) in ReachSet(F, W)
  {
    var Q := ReachSet(F, W);
    ReachSetIsPreorder(F, W);
    var S := set w | w in Below(|ids|) && (ids[u], ids[w]) in Q;
    forall x, y | x in S && (x, y) in E
      ensures y in S
    {
      Chain(Q, ids[u], ids[x], ids[y]);
    }
    ReachSetStaysInside(E, Below(|ids|), S, u, v);
  }

  lemma ReachBackward(ids: seq<nat>, E: Relation, F: Relation, W: set<nat>, u: nat, v: nat)
    requires Corresponds(ids, E, F, W) && u < |ids| && v < |ids|
    requires (ids[u], ids[v]) in ReachSet(F, W)
    ensures (u, v) in ReachSet(E, Below(|ids|))
  {
    var R := ReachSet(E, Below(|ids|));
    ReachSetIsPreorder(E, Below(|ids|));
    var S := ReachedIds(ids, R, u);
    forall x, y | x in S && (x, y) in F
      ensures y in S
    {
      ReachedIdsFollow(ids, E, F, W, u, x, y);
    }
    assert u in Below(|ids|) && ids[u] in S;
    ReachSetStaysInside(F, W, S, ids[u], ids[v]);
    var w: nat :| w < |ids| && (u, w) in R && ids[w] == ids[v];
    assert w == v;
  }

  ghost function ReachedIds(ids: seq<nat>, R: Relation, u: nat): set<nat> {
    set w: nat | w < |ids| && (u, w) in R :: ids[w]
  }

  lemma ReachedIdsFollow(ids: seq<nat>, E: Relation, F: Relation, W: set<nat>, u: nat, x: nat, y: nat)
    requires Corresponds(ids, E, F, W) && u < |ids| && (x, y) in F
    requires x in ReachedIds(ids, ReachSet(E, Below(|ids|)), u)
    ensures y in ReachedIds(ids, ReachSet(E, Below(|ids|)), u)
  {
    var R := ReachSet(E, Below(|ids|));
    ReachSetIsPreorder(E, Below(|ids|));
    var w: nat :| w < |ids| && (u, w) in R && ids[w] == x;
    var i: nat :| i < |ids| && ids[i] == y;
    assert (w, i) in E;
    Chain(R, u, w, i);
  }

  lemma ComponentRenames(ids: seq<nat>, E: Relation, F: Relation, W: set<nat>, v: nat)
    requires Corresponds(ids, E, F, W) && v < |ids|
    ensures Named(ids, Component(ReachSet(E, Below(|ids|)), Below(|ids|), v)) == Component(ReachSet(F, W), W, ids[v])
  {
    var C, D := Component(ReachSet(E, Below(|ids|)), Below(|ids|), v), Component(ReachSet(F, W), W, ids[v]);
    forall x | x in D
      ensures x in Named(ids, C)
    {
      var w: nat :| w < |ids| && ids[w] == x;
      ReachBackward(ids, E, F, W, v, w);
      ReachBackward(ids, E, F, W, w, v);
      assert w in C;
    }
    forall x | x in Named(ids, C)
      ensures x in D
    {
      var w: nat :| w in C && w < |ids| && ids[w] == x;
      ReachForward(ids, E, F, W, v, w);
      ReachForward(ids, E, F, W, w, v);
    }
  }

  lemma {:induction false} NamedSize(ids: seq<nat>, C: set<nat>)
    requires Distinct(ids) && forall v :: v in C ==> v < |ids|
    ensures |Named(ids, C)| == |C|
  {
    if C == {} {
      assert Named(ids, C) == {};
    } else {
      var v :| v in C;
      NamedSize(ids, C - {v});
      assert Named(ids, C) == Named(ids, C - {v}) + {ids[v]};
    }
  }

  /** The popped components, by id. */
  ghost function NamedAll(ids: seq<nat>, comps: seq<set<nat>>): seq<set<nat>> {
    seq(|comps|, k requires 0 <= k < |comps| => Named(ids, comps[k]))
  }

  /** The popped components are all the components of the kept call graph. */
  lemma ComponentsAreListed(ids: seq<nat>, R: Relation, Q: Relation, W: set<nat>, comps: seq<set<nat>>)
    requires Transitive(R) && AllPopped(|ids|, R, comps)
    requires forall x :: x in W <==> x in ids
    requires forall v :: v in Below(|ids|) ==> (v, v) in R
    requires forall v {:trigger Component(Q, W, ids[v])} :: v in Below(|ids|) ==>
               Named(ids, Component(R, Below(|ids|), v)) == Component(Q, W, ids[v])
    ensures forall C :: C in Components(Q, W) <==> C in NamedAll(ids, comps)
  {
    forall C | C in NamedAll(ids, comps)
      ensures C in Components(Q, W)
    {
      var k :| 0 <= k < |comps| && NamedAll(ids, comps)[k] == C;
      var v :| v in Below(|ids|) && comps[k] == Component(R, Below(|ids|), v);
      assert ids[v] in W;
    }
    forall C | C in Components(Q, W)
      ensures C in NamedAll(ids, comps)
    {
      var x :| x in W && C == Component(Q, W, x);
      var v: nat :| v < |ids| && ids[v] == x;
      assert v in Below(|ids|) && Listed(comps, v);
      var k :| 0 <= k < |comps| && v in comps[k];
      var u :| u in Below(|ids|) && comps[k] == Component(R, Below(|ids|), u);
      ComponentOfMember(R, Below(|ids|), u, v);
      assert NamedAll(ids, comps)[k] == C;
    }
  }

  lemma ComponentOfMember(R: set<(nat, nat)>, V: set<nat>, u: nat, v: nat)
    requires Transitive(R) && v in Component(R, V, u)
    ensures Component(R, V, v) == Component(R, V, u)
  {
    forall x | x in V
      ensures x in Component(R, V, v) <==> x in Component(R, V, u)
    {
      if x in Component(R, V, v) {
        Chain(R, u, v, x);
        Chain(R, x, v, u);
      }
      if x in Component(R, V, u) {
        Chain(R, v, u, x);
        Chain(R, x, u, v);
      }
    }
  }

  ghost function CyclicSets(S: set<set<nat>>): set<set<nat>> {
    set C | C in S && |C| > 1
  }

  lemma {:induction false} CountIsSize(comps: seq<set<nat>>)
    requires forall i, j :: 0 <= i < j < |comps| ==> comps[i] != comps[j]
    ensures CountCyclic(comps) == |CyclicSets(set C | C in comps)|
  {
    if comps == [] {
      assert CyclicSets(set C | C in comps) == {};
    } else {
      var m := |comps| - 1;
      CountIsSize(comps[..m]);
      var before, after := CyclicSets(set C | C in comps[..m]), CyclicSets(set C | C in comps);
      if |comps[m]| > 1 {
        assert after == before + {comps[m]};
      } else {
        assert after == before;
      }
    }
  }

  lemma {:induction false} CountRenames(ids: seq<nat>, comps: seq<set<nat>>)
    requires Distinct(ids) && forall k, v :: 0 <= k < |comps| && v in comps[k] ==> v < |ids|
    ensures CountCyclic(NamedAll(ids, comps)) == CountCyclic(comps)
  {
    if comps != [] {
      var m := |comps| - 1;
      CountRenames(ids, comps[..m]);
      NamedSize(ids, comps[m]);
      assert NamedAll(ids, comps)[..m] == NamedAll(ids, comps[..m]);
    }
  }

  /** The popped components are non-empty sets of indices. */
  lemma PoppedInRange(n: nat, R: Relation, comps: seq<set<nat>>)
    requires AllPopped(n, R, comps) && forall v :: v in Below(n) ==> (v, v) in R
    ensures forall k, v :: 0 <= k < |comps| && v in comps[k] ==> v < n
    ensures forall k :: 0 <= k < |comps| ==> comps[k] != {}
    ensures comps == [] <==> n == 0
  {
    assert n > 0 ==> 0 in Below(n) && Listed(comps, 0);
    forall k | 0 <= k < |comps|
      ensures comps[k] != {} && n > 0 && forall v :: v in comps[k] ==> v < n
    {
      assert comps[k] in Components(R, Below(n));
      var u :| u in Below(n) && comps[k] == Component(R, Below(n), u);
      assert u in comps[k];
    }
    assert comps != [] ==> comps[0] != {};
  }

  /** Size of a largest component of the kept call graph, the ids of one such
      component, and the number of components with at least two nodes. An empty
      graph leaves `previous` as it was. */
  method LargestComponent(cg: seq<CallGraphNode>, keep: Keep, previous: seq<nat>)
    returns (largest: nat, members: seq<nat>, cyclic: nat)
    requires UniqueIds(cg)
    ensures forall C :: C in Sccs(KeptEdges(cg, keep), IdSet(cg)) ==> |C| <= largest
    ensures cg != [] ==>
              && SetOf(members) in Sccs(KeptEdges(cg, keep), IdSet(cg))
              && |SetOf(members)| == |members| == largest
    ensures cg == [] ==> largest == 0 && members == previous
    ensures cyclic == |CyclicSets(Sccs(KeptEdges(cg, keep), IdSet(cg)))|
  {
    var ids, adj := BuildAdjacency(cg, keep);
    ghost var comps;
    ReachOf(adj);
    largest, members, cyclic, comps := SearchComponents(adj, ids, previous, ReachSet(EdgesOf(adj), Below(|adj|)));
    GraphsCorrespond(cg, keep, ids, adj);
    AnswerIsRight(ids, EdgesOf(adj), KeptEdges(cg, keep), IdSet(cg), comps, previous, largest, members, cyclic);
  }

  lemma AnswerIsRight(ids: seq<nat>, E: Relation, F: Relation, W: set<nat>, comps: seq<set<nat>>,
                      previous: seq<nat>, largest: nat, members: seq<nat>, cyclic: nat)
    requires Corresponds(ids, E, F, W) && AllPopped(|ids|, ReachSet(E, Below(|ids|)), comps)
    requires Summary(ids, comps, previous, largest, members, cyclic)
    ensures forall C :: C in Sccs(F, W) ==> |C| <= largest
    ensures ids != [] ==> SetOf(members) in Sccs(F, W) && |SetOf(members)| == |members| == largest
    ensures ids == [] ==> largest == 0 && members == previous
    ensures cyclic == |CyclicSets(Sccs(F, W))|
  {
    var R := ReachSet(E, Below(|ids|));
    ReachSetIsPreorder(E, Below(|ids|));
    forall v | v in Below(|ids|)
      ensures Named(ids, Component(R, Below(|ids|), v)) == Component(ReachSet(F, W), W, ids[v])
    {
      ComponentRenames(ids, E, F, W, v);
    }
    ComponentsAreListed(ids, R, ReachSet(F, W), W, comps);
    PoppedInRange(|ids|, R, comps);
    CountsAreRight(ids, Sccs(F, W), comps, previous, largest, members, cyclic);
  }

  lemma CountsAreRight(ids: seq<nat>, S: set<set<nat>>, comps: seq<set<nat>>,
                       previous: seq<nat>, largest: nat, members: seq<nat>, cyclic: nat)
    requires Distinct(ids) && Summary(ids, comps, previous, largest, members, cyclic)
    requires forall C :: C in S <==> C in NamedAll(ids, comps)
    requires forall k, v :: 0 <= k < |comps| && v in comps[k] ==> v < |ids|
    requires forall k :: 0 <= k < |comps| ==> comps[k] != {}
    requires forall k, l :: 0 <= k < l < |comps| ==> comps[k] !! comps[l]
    requires ids == [] <==> comps == []
    ensures forall C :: C in S ==> |C| <= largest
    ensures ids != [] ==> SetOf(members) in S && |SetOf(members)| == |members| == largest
    ensures ids == [] ==> largest == 0 && members == previous
    ensures cyclic == |CyclicSets(S)|
  {
    var named := NamedAll(ids, comps);
    forall k | 0 <= k < |comps|
      ensures |named[k]| == |comps[k]|
    {
      NamedSize(ids, comps[k]);
    }
    if ids != [] {
      var k :| 0 <= k < |comps| && largest == |comps[k]| == |members| && SetOf(members) == Named(ids, comps[k]);
      assert named[k] in named;
    }
    NamedDistinct(ids, comps);
    CountIsSize(named);
    CountRenames(ids, comps);
    assert S == set C | C in named;
  }

  lemma NamedDistinct(ids: seq<nat>, comps: seq<set<nat>>)
    requires Distinct(ids) && forall k, v :: 0 <= k < |comps| && v in comps[k] ==> v < |ids|
    requires forall k :: 0 <= k < |comps| ==> comps[k] != {}
    requires forall k, l :: 0 <= k < l < |comps| ==> comps[k] !! comps[l]
    ensures forall i, j :: 0 <= i < j < |comps| ==> NamedAll(ids, comps)[i] != NamedAll(ids, comps)[j]
  {
    forall i, j | 0 <= i < j < |comps|
      ensures Named(ids, comps[i]) != Named(ids, comps[j])
    {
      var v :| v in comps[i];
      assert ids[v] in Named(ids, comps[i]);
      assert ids[v] !in Named(ids, comps[j]);
    }
  }
}
