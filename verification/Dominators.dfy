/** The dominator and post-dominator analyses over inter-procedural basic blocks:
    each iterates its equations in place until nothing changes. */
module Dominators {
  import opened Dominance
  import opened IBBG
  import opened NodeDominance
  import opened NodeUnavoidability

  /** `dominates` ends the program when the analysis was not run. */
  datatype Answer = NotCreated | Known(value: bool)

  datatype IBBEdge = IBBEdge(id: nat, src: nat, dst: nat)

  /** The block graph with its return edges `R`, its call edges `C`, and the maps
      between a call edge and the matching return edge. */
  datatype IBBFlow = IBBFlow(nodes: set<nat>, inEdges: map<nat, seq<IBBEdge>>, outEdges: map<nat, seq<IBBEdge>>,
                             R: set<IBBEdge>, C: set<IBBEdge>,
                             phi: map<IBBEdge, IBBEdge>, phiInv: map<IBBEdge, IBBEdge>)

  ghost predicate Sound(g: IBBFlow) {
    && g.inEdges.Keys == g.nodes && g.outEdges.Keys == g.nodes
    && (forall n, i :: n in g.nodes && 0 <= i < |g.inEdges[n]| ==> g.inEdges[n][i].src in g.nodes)
    && (forall n, i :: n in g.nodes && 0 <= i < |g.outEdges[n]| ==> g.outEdges[n][i].dst in g.nodes)
    && (forall e :: e in g.R ==> e in g.phiInv && g.phiInv[e].src in g.nodes)
    && (forall e :: e in g.C ==> e in g.phi && g.phi[e].dst in g.nodes)
  }

  /** The heads of an in-edge: its source, and for a return edge also the source
      of the matching call edge. */
  function Ahead(g: IBBFlow, e: IBBEdge): set<nat>
    requires e in g.R ==> e in g.phiInv
  {
    if e !in g.R then {e.src} else {e.src, g.phiInv[e].src}
  }

  /** The tails of an out-edge: its target, and for a call edge also the target
      of the matching return edge. */
  function Behind(g: IBBFlow, e: IBBEdge): set<nat>
    requires e in g.C ==> e in g.phi
  {
    if e !in g.C then {e.dst} else {e.dst, g.phi[e].dst}
  }

  function InHeads(g: IBBFlow, n: nat): (heads: seq<set<nat>>)
    requires n in g.inEdges && forall i :: 0 <= i < |g.inEdges[n]| && g.inEdges[n][i] in g.R ==>
               g.inEdges[n][i] in g.phiInv
    ensures |heads| == |g.inEdges[n]| && forall i :: 0 <= i < |heads| ==> heads[i] == Ahead(g, g.inEdges[n][i])
  {
    seq(|g.inEdges[n]|, i requires 0 <= i < |g.inEdges[n]| => Ahead(g, g.inEdges[n][i]))
  }

  function OutTails(g: IBBFlow, n: nat): (tails: seq<set<nat>>)
    requires n in g.outEdges && forall i :: 0 <= i < |g.outEdges[n]| && g.outEdges[n][i] in g.C ==>
               g.outEdges[n][i] in g.phi
    ensures |tails| == |g.outEdges[n]| && forall i :: 0 <= i < |tails| ==> tails[i] == Behind(g, g.outEdges[n][i])
  {
    seq(|g.outEdges[n]|, i requires 0 <= i < |g.outEdges[n]| => Behind(g, g.outEdges[n][i]))
  }

  ghost function DomFlow(g: IBBFlow, entry: nat): (flow: Flow)
    requires Sound(g)
    ensures entry in g.nodes ==> WellFormed(flow)
  {
    Flow(g.nodes, entry, map n | n in g.nodes :: InHeads(g, n))
  }

  ghost function PostDomFlow(g: IBBFlow, exit: nat): (flow: Flow)
    requires Sound(g)
    ensures exit in g.nodes ==> WellFormed(flow)
  {
    Flow(g.nodes, exit, map n | n in g.nodes :: OutTails(g, n))
  }

  // ------------------------------------------- the equations over the edges

  /** `d` reaches along the in-edge `e`: it is in the set of the source or, for a return,
      in that of the block that the call came from. */
  ghost predicate AlongIn(g: IBBFlow, dom: DomSets, e: IBBEdge, d: nat) {
    || (e.src in dom && d in dom[e.src])
    || (e in g.R && e in g.phiInv && g.phiInv[e].src in dom && d in dom[g.phiInv[e].src])
  }

  /** The dominator equations, read off the edges. */
  ghost predicate SolvesDominators(g: IBBFlow, entry: nat, dom: DomSets)
    requires g.inEdges.Keys == g.nodes
  {
    && dom.Keys == g.nodes && entry in dom && dom[entry] == {entry}
    && forall n, d {:trigger d in dom[n]} :: n in g.nodes && n != entry ==>
         (d in dom[n] <==> d == n || (d in g.nodes && g.inEdges[n] != [] && AlongAllIn(g, dom, n, d)))
  }

  ghost predicate AlongAllIn(g: IBBFlow, dom: DomSets, n: nat, d: nat)
    requires n in g.inEdges
  {
    forall e {:trigger AlongIn(g, dom, e, d)} :: e in g.inEdges[n] ==> AlongIn(g, dom, e, d)
  }

  /** `d` reaches against the out-edge `e`: it is in the set of the target or, for a call,
      in that of the block that the call returns to. */
  ghost predicate AlongOut(g: IBBFlow, dom: DomSets, e: IBBEdge, d: nat) {
    (e.dst in dom && d in dom[e.dst]) || (e in g.C && e in g.phi && g.phi[e].dst in dom && d in dom[g.phi[e].dst])
  }

  ghost predicate SolvesPostDominators(g: IBBFlow, exit: nat, dom: DomSets)
    requires g.outEdges.Keys == g.nodes
  {
    && dom.Keys == g.nodes && exit in dom && dom[exit] == {exit}
    && forall n, d {:trigger d in dom[n]} :: n in g.nodes && n != exit ==>
         (d in dom[n] <==> d == n || (d in g.nodes && g.outEdges[n] != [] && AlongAllOut(g, dom, n, d)))
  }

  ghost predicate AlongAllOut(g: IBBFlow, dom: DomSets, n: nat, d: nat)
    requires n in g.outEdges
  {
    forall e {:trigger AlongOut(g, dom, e, d)} :: e in g.outEdges[n] ==> AlongOut(g, dom, e, d)
  }

  lemma InHeadsMeanEdges(g: IBBFlow, entry: nat, dom: DomSets, n: nat, d: nat)
    requires Sound(g) && n in g.nodes && n != entry && d in g.nodes
    ensures Passes(DomFlow(g, entry), dom, n, d) <==> d == n || (g.inEdges[n] != [] && AlongAllIn(g, dom, n, d))
  {
    var heads, edges := InHeads(g, n), g.inEdges[n];
    assert DomFlow(g, entry).heads[n] == heads;
    forall i | 0 <= i < |edges|
      ensures SomeHead(dom, heads[i], d) <==> AlongIn(g, dom, edges[i], d)
    {
      assert heads[i] == Ahead(g, edges[i]);
      assert edges[i].src in heads[i];
      assert edges[i] in g.R ==> g.phiInv[edges[i]].src in heads[i];
    }
    if AlongAllIn(g, dom, n, d) {
      assert forall i :: 0 <= i < |edges| ==> AlongIn(g, dom, edges[i], d);
    }
  }

  lemma OutTailsMeanEdges(g: IBBFlow, exit: nat, dom: DomSets, n: nat, d: nat)
    requires Sound(g) && n in g.nodes && n != exit && d in g.nodes
    ensures Passes(PostDomFlow(g, exit), dom, n, d) <==> d == n || (g.outEdges[n] != [] && AlongAllOut(g, dom, n, d))
  {
    var tails, edges := OutTails(g, n), g.outEdges[n];
    assert PostDomFlow(g, exit).heads[n] == tails;
    forall i | 0 <= i < |edges|
      ensures SomeHead(dom, tails[i], d) <==> AlongOut(g, dom, edges[i], d)
    {
      assert tails[i] == Behind(g, edges[i]);
      assert edges[i].dst in tails[i];
      assert edges[i] in g.C ==> g.phi[edges[i]].dst in tails[i];
    }
    if AlongAllOut(g, dom, n, d) {
      assert forall i :: 0 <= i < |edges| ==> AlongOut(g, dom, edges[i], d);
    }
  }

  /** The equations that the iteration solves are those of the edges. */
  lemma DominatorsSolveEdges(g: IBBFlow, entry: nat, dom: DomSets)
    requires Sound(g) && entry in g.nodes
    ensures Solves(DomFlow(g, entry), dom) <==> SolvesDominators(g, entry, dom)
  {
    var f := DomFlow(g, entry);
    if dom.Keys == g.nodes {
      assert Transfer(f, dom, entry) == {entry};
      forall n, d | n in g.nodes && n != entry
        ensures d in Transfer(f, dom, n) <==>
                  d == n || (d in g.nodes && g.inEdges[n] != [] && AlongAllIn(g, dom, n, d))
      {
        if d in g.nodes {
          InHeadsMeanEdges(g, entry, dom, n, d);
        }
      }
    }
  }

  lemma PostDominatorsSolveEdges(g: IBBFlow, exit: nat, dom: DomSets)
    requires Sound(g) && exit in g.nodes
    ensures Solves(PostDomFlow(g, exit), dom) <==> SolvesPostDominators(g, exit, dom)
  {
    var f := PostDomFlow(g, exit);
    if dom.Keys == g.nodes {
      assert Transfer(f, dom, exit) == {exit};
      forall n, d | n in g.nodes && n != exit
        ensures d in Transfer(f, dom, n) <==>
                  d == n || (d in g.nodes && g.outEdges[n] != [] && AlongAllOut(g, dom, n, d))
      {
        if d in g.nodes {
          OutTailsMeanEdges(g, exit, dom, n, d);
        }
      }
    }
  }

  /** The greatest of the solutions. */
  lemma GreatestOfEdges(g: IBBFlow, entry: nat, dom: DomSets)
    requires Sound(g) && entry in g.nodes && IsGreatest(DomFlow(g, entry), dom)
    ensures SolvesDominators(g, entry, dom)
    ensures forall e {:trigger SolvesDominators(g, entry, e)} :: SolvesDominators(g, entry, e) ==> Under(e, dom)
  {
    DominatorsSolveEdges(g, entry, dom);
    forall e | SolvesDominators(g, entry, e)
      ensures Under(e, dom)
    {
      DominatorsSolveEdges(g, entry, e);
      assert PostFixed(DomFlow(g, entry), e);
    }
  }

  lemma PostGreatestOfEdges(g: IBBFlow, exit: nat, dom: DomSets)
    requires Sound(g) && exit in g.nodes && IsGreatest(PostDomFlow(g, exit), dom)
    ensures SolvesPostDominators(g, exit, dom)
    ensures forall e {:trigger SolvesPostDominators(g, exit, e)} :: SolvesPostDominators(g, exit, e) ==> Under(e, dom)
  {
    PostDominatorsSolveEdges(g, exit, dom);
    forall e | SolvesPostDominators(g, exit, e)
      ensures Under(e, dom)
    {
      PostDominatorsSolveEdges(g, exit, e);
      assert PostFixed(PostDomFlow(g, exit), e);
    }
  }

  // ----------------------------------------------------- the reversed graph

  function Flip(e: IBBEdge): IBBEdge {
    IBBEdge(e.id, e.dst, e.src)
  }

  ghost function FlipSet(s: set<IBBEdge>): set<IBBEdge> {
    set e | e in s :: Flip(e)
  }

  ghost function FlipEach(s: seq<IBBEdge>): seq<IBBEdge> {
    seq(|s|, i requires 0 <= i < |s| => Flip(s[i]))
  }

  ghost function FlipMap(m: map<IBBEdge, IBBEdge>): map<IBBEdge, IBBEdge> {
    map e | e in FlipSet(m.Keys) && Flip(e) in m :: Flip(m[Flip(e)])
  }

  /** Every edge turned around: calls become returns and returns become calls. */
  ghost function Reverse(g: IBBFlow): IBBFlow {
    IBBFlow(g.nodes,
            map n | n in g.outEdges :: FlipEach(g.outEdges[n]), map n | n in g.inEdges :: FlipEach(g.inEdges[n]),
            FlipSet(g.C), FlipSet(g.R), FlipMap(g.phiInv), FlipMap(g.phi))
  }

  lemma FlippedIn(e: IBBEdge, s: set<IBBEdge>)
    ensures e in FlipSet(s) <==> Flip(e) in s
  {
    if Flip(e) in s {
      assert e == Flip(Flip(e));
    }
  }

  lemma FlippedEdge(e: IBBEdge, s: set<IBBEdge>, m: map<IBBEdge, IBBEdge>, nodes: set<nat>)
    requires e in FlipSet(s)
    requires Flip(e) in s ==> Flip(e) in m
    ensures Flip(e) in m && e in FlipMap(m) && FlipMap(m)[e] == Flip(m[Flip(e)])
  {
    FlippedIn(e, s);
    FlippedIn(e, m.Keys);
  }

  lemma ReverseIsSound(g: IBBFlow)
    requires Sound(g)
    ensures Sound(Reverse(g))
  {
    forall e | e in FlipSet(g.C)
      ensures e in FlipMap(g.phi) && FlipMap(g.phi)[e].src in g.nodes
    {
      FlippedIn(e, g.C);
      FlippedEdge(e, g.C, g.phi, g.nodes);
    }
    forall e | e in FlipSet(g.R)
      ensures e in FlipMap(g.phiInv) && FlipMap(g.phiInv)[e].dst in g.nodes
    {
      FlippedIn(e, g.R);
      FlippedEdge(e, g.R, g.phiInv, g.nodes);
    }
  }

  /** Post-dominance is dominance from the exit on the reversed graph. */
  lemma PostDominanceIsDual(g: IBBFlow, exit: nat)
    requires Sound(g)
    ensures Sound(Reverse(g)) && PostDomFlow(g, exit) == DomFlow(Reverse(g), exit)
  {
    ReverseIsSound(g);
    var a, b := PostDomFlow(g, exit), DomFlow(Reverse(g), exit);
    forall n | n in g.nodes
      ensures a.heads[n] == b.heads[n]
    {
      TailsAreHeads(g, n);
    }
  }

  lemma TailsAreHeads(g: IBBFlow, n: nat)
    requires Sound(g) && Sound(Reverse(g)) && n in g.nodes
    ensures OutTails(g, n) == InHeads(Reverse(g), n)
  {
    forall i | 0 <= i < |g.outEdges[n]|
      ensures OutTails(g, n)[i] == InHeads(Reverse(g), n)[i]
    {
      BehindIsAhead(g, g.outEdges[n][i]);
    }
  }

  /** The blocks listed backwards are the nodes of the equations of post-dominance. */
  lemma ReverseFits(g: IBBFlow, exit: nat, l: Layout, dom: DomSets)
    requires Sound(g) && exit in g.nodes && WellPlaced(l) && l.blocks.Keys == g.nodes &&
             IsGreatest(PostDomFlow(g, exit), dom)
    ensures Fits(ReverseLayout(l), PostDomFlow(g, exit), dom)
  {
    ReverseLayoutIsPlaced(l);
  }

  /** Post-dominance is a partial order on nodes of blocks that are derivable backwards
      from the exit, and on all nodes exactly when it is for dominance: at most one block
      is not derivable. */
  lemma PostDominatesIsPartialOrder(g: IBBFlow, exit: nat, layout: Layout, dom: DomSets, a: nat, b: nat, c: nat)
    requires Sound(g) && exit in g.nodes && WellPlaced(layout) && layout.blocks.Keys == g.nodes
    requires IsGreatest(PostDomFlow(g, exit), dom)
    requires a in layout.blockOf && b in layout.blockOf && c in layout.blockOf
    requires Derivable(PostDomFlow(g, exit), {}, layout.blockOf[a])
    ensures var l := ReverseLayout(layout);
            && Fits(l, PostDomFlow(g, exit), dom) && NodeDominates(l, dom, a, a)
            && (NodeDominates(l, dom, a, b) && NodeDominates(l, dom, b, a) ==> a == b)
            && (NodeDominates(l, dom, a, b) && NodeDominates(l, dom, b, c) ==> NodeDominates(l, dom, a, c))
            && (AntisymmetricEverywhere(l, PostDomFlow(g, exit), dom)
                <==> !exists n: nat, m: nat :: TwoUnderivable(PostDomFlow(g, exit), n, m))
  {
    ReverseFits(g, exit, layout, dom);
    DominatesIsPartialOrder(ReverseLayout(layout), PostDomFlow(g, exit), dom, a, b, c);
    WhenAntisymmetric(ReverseLayout(layout), PostDomFlow(g, exit), dom);
  }

  lemma BehindIsAhead(g: IBBFlow, e: IBBEdge)
    requires Sound(g) && Sound(Reverse(g))
    ensures Behind(g, e) == Ahead(Reverse(g), Flip(e))
  {
    FlippedIn(Flip(e), g.C);
    if e in g.C {
      FlippedEdge(Flip(e), g.C, g.phi, g.nodes);
    }
  }

  // ------------------------------------------------------ one equation

  /** Intersect, over the edges, the union of the sets of the edge's heads. */
  method MeetOverEdges(dom: DomSets, heads: seq<set<nat>>) returns (meet: set<nat>)
    requires forall i, h :: 0 <= i < |heads| && h in heads[i] ==> h in dom
    ensures heads == [] ==> meet == {}
    ensures heads != [] ==> forall d :: d in meet <==> (forall i {:trigger SomeHead(dom, heads[i], d)} ::
                                                         0 <= i < |heads| ==> SomeHead(dom, heads[i], d))
  {
    meet := {};
    var first := true;
    for k := 0 to |heads|
      invariant first <==> k == 0
      invariant k == 0 ==> meet == {}
      invariant k > 0 ==> forall d :: d in meet <==> (forall i {:trigger SomeHead(dom, heads[i], d)} ::
                                                       0 <= i < k ==> SomeHead(dom, heads[i], d))
    {
      var all, todo := {}, heads[k];
      while todo != {}
        invariant todo <= heads[k]
        invariant forall d :: d in all <==> SomeHead(dom, heads[k] - todo, d)
        decreases todo
      {
        var n :| n in todo;
        ghost var seen := heads[k] - todo;
        assert heads[k] - (todo - {n}) == seen + {n};
        forall d
          ensures SomeHead(dom, seen + {n}, d) <==> SomeHead(dom, seen, d) || d in dom[n]
        {
          if d in dom[n] {
            assert n in seen + {n};
          }
          if SomeHead(dom, seen, d) {
            var h :| h in seen && h in dom && d in dom[h];
            assert h in seen + {n};
          }
        }
        all, todo := all + dom[n], todo - {n};
      }
      assert heads[k] - todo == heads[k];
      if first {
        meet, first := all, false;
      } else {
        meet := meet * all;
      }
    }
  }

  // ------------------------------------------------- the iteration in place

  /** All (node, member) pairs: what an update makes strictly smaller. */
  ghost function Pairs(dom: DomSets): set<(nat, nat)> {
    set n, d | n in dom && d in dom[n] :: (n, d)
  }

  /** Above every post-fixed family, and never below its own equations. */
  ghost predicate Approximates(g: Flow, dom: DomSets) {
    && dom.Keys == g.nodes && g.root in dom && dom[g.root] == {g.root}
    && (forall n :: n in g.nodes ==> Transfer(g, dom, n) <= dom[n] <= g.nodes)
    && (forall e {:trigger PostFixed(g, e)} :: PostFixed(g, e) ==> Under(e, dom))
  }

  ghost function InitialSets(g: Flow): DomSets {
    map n | n in g.nodes :: if n == g.root then {g.root} else g.nodes
  }

  lemma InitialApproximates(g: Flow)
    requires WellFormed(g)
    ensures Approximates(g, InitialSets(g))
  {
    forall e | PostFixed(g, e)
      ensures Under(e, InitialSets(g))
    {
      forall n | n in e
        ensures e[n] <= InitialSets(g)[n]
      {
        assert e[n] <= Transfer(g, e, n);
      }
    }
  }

  /** Overwriting one set with the right-hand side of its equation. */
  lemma UpdateKeeps(g: Flow, dom: DomSets, n: nat)
    requires WellFormed(g) && Approximates(g, dom) && n in g.nodes && n != g.root
    ensures Approximates(g, dom[n := Transfer(g, dom, n)])
    ensures dom[n] != Transfer(g, dom, n) ==> Pairs(dom[n := Transfer(g, dom, n)]) < Pairs(dom)
  {
    var next := dom[n := Transfer(g, dom, n)];
    assert Under(next, dom);
    forall m | m in g.nodes
      ensures Transfer(g, next, m) <= next[m]
    {
      TransferGrows(g, next, dom, m);
    }
    forall e | PostFixed(g, e)
      ensures Under(e, next)
    {
      assert Under(e, dom);
      TransferGrows(g, e, dom, n);
    }
    if dom[n] != Transfer(g, dom, n) {
      var d :| d in dom[n] && d !in Transfer(g, dom, n);
      assert (n, d) in Pairs(dom) && (n, d) !in Pairs(next);
    }
  }

  lemma StableIsGreatest(g: Flow, dom: DomSets)
    requires WellFormed(g) && Approximates(g, dom)
    requires forall n :: n in g.nodes && n != g.root ==> dom[n] == Transfer(g, dom, n)
    ensures IsGreatest(g, dom)
  {
    assert Transfer(g, dom, g.root) == {g.root};
  }

  lemma MeetIsTransfer(g: Flow, dom: DomSets, n: nat, meet: set<nat>)
    requires WellFormed(g) && Approximates(g, dom) && n in g.nodes && n != g.root
    requires g.heads[n] == [] ==> meet == {}
    requires g.heads[n] != [] ==> forall d :: d in meet <==> (forall i {:trigger SomeHead(dom, g.heads[n][i], d)} ::
                                                               0 <= i < |g.heads[n]| ==>
                                                                 SomeHead(dom, g.heads[n][i], d))
    ensures meet + {n} == Transfer(g, dom, n)
  {
    forall d | d in meet
      ensures d in g.nodes
    {
      assert SomeHead(dom, g.heads[n][0], d);
    }
  }

  /** Recompute the set of `n` from the sets of its heads. */
  method Visit(ghost flow: Flow, dom: DomSets, n: nat, heads: seq<set<nat>>) returns (dom': DomSets, changed: bool)
    requires WellFormed(flow) && Approximates(flow, dom) && n in flow.nodes && n != flow.root && heads == flow.heads[n]
    ensures Approximates(flow, dom') && dom' == dom[n := Transfer(flow, dom, n)]
    ensures if changed then Pairs(dom') < Pairs(dom) else dom' == dom
  {
    dom', changed := dom, false;
    var newDom := MeetOverEdges(dom, heads);
    MeetIsTransfer(flow, dom, n, newDom);
    UpdateKeeps(flow, dom, n);
    newDom := newDom + {n};
    if dom[n] != newDom {
      dom', changed := dom[n := newDom], true;
    }
  }

  class Dominator {
    const g: IBBFlow
    const entry: nat
    const layout: Layout
    var dom: DomSets
    var isCreated: bool

    constructor (g: IBBFlow, entry: nat, layout: Layout)
      ensures this.g == g && this.entry == entry && this.layout == layout && !isCreated
    {
      this.g, this.entry, this.layout, dom, isCreated := g, entry, layout, map[], false;
    }

    /** One round over all the nodes, in any order. */
    method Round() returns (isChanged: bool)
      requires Sound(g) && entry in g.nodes && Approximates(DomFlow(g, entry), dom)
      modifies this`dom
      ensures Approximates(DomFlow(g, entry), dom)
      ensures if isChanged then Pairs(dom) < Pairs(old(dom)) else dom == old(dom)
      ensures !isChanged ==> forall m :: m in g.nodes && m != entry ==> dom[m] == Transfer(DomFlow(g, entry), dom, m)
    {
      ghost var flow := DomFlow(g, entry);
      isChanged := false;
      var todo := g.nodes;
      while todo != {}
        invariant todo <= g.nodes && Approximates(flow, dom)
        invariant if isChanged then Pairs(dom) < Pairs(old(dom)) else dom == old(dom)
        invariant !isChanged ==> forall m :: m in g.nodes - todo && m != entry ==> dom[m] == Transfer(flow, dom, m)
        decreases todo
      {
        var node :| node in todo;
        todo := todo - {node};
        if node != entry {
          var newDom, changed := Visit(flow, dom, node, InHeads(g, node));
          if changed {
            dom := newDom;
            isChanged := true;
          }
        }
      }
    }

    method BuildDom()
      requires Sound(g) && entry in g.nodes
      modifies this`dom
      ensures IsGreatest(DomFlow(g, entry), dom) && SolvesDominators(g, entry, dom)
      ensures forall e {:trigger SolvesDominators(g, entry, e)} :: SolvesDominators(g, entry, e) ==> Under(e, dom)
    {
      dom := map m | m in g.nodes :: if m == entry then {entry} else g.nodes;
      InitialApproximates(DomFlow(g, entry));
      var isChanged := true;
      while isChanged
        invariant Approximates(DomFlow(g, entry), dom)
        invariant !isChanged ==> forall m :: m in g.nodes && m != entry ==>
                    dom[m] == Transfer(DomFlow(g, entry), dom, m)
        decreases Pairs(dom), isChanged
      {
        isChanged := Round();
      }
      StableIsGreatest(DomFlow(g, entry), dom);
      GreatestOfEdges(g, entry, dom);
    }

    ghost predicate Valid()
      reads this
    {
      && Sound(g) && entry in g.nodes && WellPlaced(layout) && layout.blocks.Keys == g.nodes
      && (isCreated ==> IsGreatest(DomFlow(g, entry), dom))
    }

    /** Runs the analysis once. */
    method CreateDom()
      requires Valid()
      modifies this
      ensures Valid() && isCreated && (old(isCreated) ==> dom == old(dom))
    {
      if !isCreated {
        BuildDom();
        isCreated := true;
      }
    }

    method Dominates(a: nat, b: nat) returns (r: Answer)
      requires Valid() && a in layout.blockOf && b in layout.blockOf
      ensures r == NotCreated <==> !isCreated
      ensures isCreated ==> (r.value <==> NodeDominates(layout, dom, a, b))
      ensures isCreated && Reachable(layout, DomFlow(g, entry), a, b) ==>
                (r.value <==> !Avoids(layout, DomFlow(g, entry), a, b))
    {
      if isCreated && Reachable(layout, DomFlow(g, entry), a, b) {
        DominatesIsUnavoidability(layout, DomFlow(g, entry), dom, a, b);
      }
      if !isCreated {
        return NotCreated;
      }
      if a == b {
        return Known(true);
      }
      var blockA, blockB := layout.blockOf[a], layout.blockOf[b];
      if blockA != blockB {
        return Known(blockA in dom[blockB]);
      }
      var list := layout.blocks[blockA];
      var first := MetFirst(list, a, b);
      r := Known(first);
    }
  }

  class PostDominator {
    const g: IBBFlow
    const exit: nat
    const layout: Layout
    var dom: DomSets
    var isCreated: bool

    constructor (g: IBBFlow, exit: nat, layout: Layout)
      ensures this.g == g && this.exit == exit && this.layout == layout && !isCreated
    {
      this.g, this.exit, this.layout, dom, isCreated := g, exit, layout, map[], false;
    }

    /** One round over all the nodes, in any order. */
    method Round() returns (isChanged: bool)
      requires Sound(g) && exit in g.nodes && Approximates(PostDomFlow(g, exit), dom)
      modifies this`dom
      ensures Approximates(PostDomFlow(g, exit), dom)
      ensures if isChanged then Pairs(dom) < Pairs(old(dom)) else dom == old(dom)
      ensures !isChanged ==> forall m :: m in g.nodes && m != exit ==> dom[m] == Transfer(PostDomFlow(g, exit), dom, m)
    {
      ghost var flow := PostDomFlow(g, exit);
      isChanged := false;
      var todo := g.nodes;
      while todo != {}
        invariant todo <= g.nodes && Approximates(flow, dom)
        invariant if isChanged then Pairs(dom) < Pairs(old(dom)) else dom == old(dom)
        invariant !isChanged ==> forall m :: m in g.nodes - todo && m != exit ==> dom[m] == Transfer(flow, dom, m)
        decreases todo
      {
        var node :| node in todo;
        todo := todo - {node};
        if node != exit {
          var newDom, changed := Visit(flow, dom, node, OutTails(g, node));
          if changed {
            dom := newDom;
            isChanged := true;
          }
        }
      }
    }

    method BuildDom()
      requires Sound(g) && exit in g.nodes
      modifies this`dom
      ensures IsGreatest(PostDomFlow(g, exit), dom) && SolvesPostDominators(g, exit, dom)
      ensures forall e {:trigger SolvesPostDominators(g, exit, e)} :: SolvesPostDominators(g, exit, e) ==> Under(e, dom)
      ensures Sound(Reverse(g)) && IsGreatest(DomFlow(Reverse(g), exit), dom)
    {
      PostDominanceIsDual(g, exit);
      dom := map m | m in g.nodes :: if m == exit then {exit} else g.nodes;
      InitialApproximates(PostDomFlow(g, exit));
      var isChanged := true;
      while isChanged
        invariant Approximates(PostDomFlow(g, exit), dom)
        invariant !isChanged ==> forall m :: m in g.nodes && m != exit ==>
                    dom[m] == Transfer(PostDomFlow(g, exit), dom, m)
        decreases Pairs(dom), isChanged
      {
        isChanged := Round();
      }
      StableIsGreatest(PostDomFlow(g, exit), dom);
      PostGreatestOfEdges(g, exit, dom);
    }

    ghost predicate Valid()
      reads this
    {
      && Sound(g) && exit in g.nodes && WellPlaced(layout) && layout.blocks.Keys == g.nodes
      && (isCreated ==> IsGreatest(PostDomFlow(g, exit), dom))
    }

    /** Runs the analysis once. */
    method CreateDom()
      requires Valid()
      modifies this
      ensures Valid() && isCreated && (old(isCreated) ==> dom == old(dom))
    {
      if !isCreated {
        BuildDom();
        isCreated := true;
      }
    }

    method Dominates(a: nat, b: nat) returns (r: Answer)
      requires Valid() && a in layout.blockOf && b in layout.blockOf
      ensures r == NotCreated <==> !isCreated
      ensures isCreated ==> (r.value <==> NodeDominates(ReverseLayout(layout), dom, a, b))
      ensures isCreated && Reachable(ReverseLayout(layout), PostDomFlow(g, exit), a, b) ==>
                (r.value <==> !Avoids(ReverseLayout(layout), PostDomFlow(g, exit), a, b))
    {
      if isCreated && Reachable(ReverseLayout(layout), PostDomFlow(g, exit), a, b) {
        DominatesIsUnavoidability(ReverseLayout(layout), PostDomFlow(g, exit), dom, a, b);
      }
      if !isCreated {
        return NotCreated;
      }
      if a == b {
        return Known(true);
      }
      var blockA, blockB := layout.blockOf[a], layout.blockOf[b];
      if blockA != blockB {
        return Known(blockA in dom[blockB]);
      }
      var list := layout.blocks[blockA];
      var last := MetLast(list, a, b);
      AfterIsBefore(list, a, b);
      r := Known(last);
    }
  }
}
