/** What `dominates` means between ICFG nodes, without blocks: on the graph of the nodes,
    one cannot be reached but through the other. */
module NodeUnavoidability {
  import opened Sequences
  import opened Dominance
  import opened IBBG
  import opened NodeDominance

  ghost predicate DistinctBlocks(l: Layout) {
    forall b :: b in l.blocks ==> Distinct(l.blocks[b])
  }

  function Position(list: seq<nat>, x: nat): (p: nat)
    requires x in list
    ensures p < |list| && list[p] == x && x !in list[..p]
  {
    if list[0] == x then 0 else 1 + Position(list[1..], x)
  }

  function Last(list: seq<nat>): nat
    requires list != []
  {
    list[|list| - 1]
  }

  ghost predicate Laid(l: Layout, g: Flow) {
    WellPlaced(l) && WellFormed(g) && l.blocks.Keys == g.nodes && DistinctBlocks(l)
  }

  ghost function LastNodes(l: Layout, heads: set<nat>): set<nat>
    requires forall h :: h in heads ==> h in l.blocks && l.blocks[h] != []
  {
    set h | h in heads :: Last(l.blocks[h])
  }

  /** Inside a block a node follows the one before it; the first one follows the last
      nodes of the blocks that the block's edges come from. */
  ghost function NodeHeads(l: Layout, g: Flow, x: nat): (heads: seq<set<nat>>)
    requires Laid(l, g) && x in l.blockOf
  {
    var b := l.blockOf[x];
    var p := Position(l.blocks[b], x);
    if p > 0 then [{l.blocks[b][p - 1]}]
    else seq(|g.heads[b]|, i requires 0 <= i < |g.heads[b]| => LastNodes(l, g.heads[b][i]))
  }

  ghost function NodeFlow(l: Layout, g: Flow): Flow
    requires Laid(l, g)
  {
    Flow(l.blockOf.Keys, l.blocks[g.root][0], map x | x in l.blockOf :: NodeHeads(l, g, x))
  }

  /** Node `x` can be reached without `a`. */
  ghost predicate Avoids(l: Layout, g: Flow, a: nat, x: nat)
    requires Laid(l, g)
  {
    Derivable(NodeFlow(l, g), {a}, x)
  }

  lemma PositionIs(list: seq<nat>, p: nat)
    requires Distinct(list) && p < |list|
    ensures list[p] in list && Position(list, list[p]) == p
  {
    assert list[p] in list;
  }

  lemma InBlock(l: Layout, g: Flow, b: nat, p: nat)
    requires Laid(l, g) && b in l.blocks && p < |l.blocks[b]|
    ensures var x := l.blocks[b][p];
            x in l.blockOf && l.blockOf[x] == b && Position(l.blocks[b], x) == p
  {
    assert l.blocks[b][p] in l.blocks[b];
    PositionIs(l.blocks[b], p);
  }

  // ------------------------------------------------------------- one step

  lemma FirstIsRoot(l: Layout, g: Flow, a: nat, b: nat)
    requires Laid(l, g) && b in l.blocks && IsRoot(g, b) && l.blocks[b] != [] && l.blocks[b][0] != a
    ensures Avoids(l, g, a, l.blocks[b][0])
  {
    InBlock(l, g, b, 0);
    assert IsRoot(NodeFlow(l, g), l.blocks[b][0]);
    assert Derives(NodeFlow(l, g), {a}, l.blocks[b][0], 0);
  }

  lemma FirstFollows(l: Layout, g: Flow, a: nat, b: nat, i: nat)
    requires Laid(l, g) && b in l.blocks && i < |g.heads[b]| && l.blocks[b] != [] && l.blocks[b][0] != a
    requires forall h :: h in g.heads[b][i] ==> h in l.blocks && l.blocks[h] != [] && Avoids(l, g, a, Last(l.blocks[h]))
    ensures Avoids(l, g, a, l.blocks[b][0])
  {
    var f, x := NodeFlow(l, g), l.blocks[b][0];
    InBlock(l, g, b, 0);
    assert f.heads[x][i] == LastNodes(l, g.heads[b][i]);
    forall y | y in f.heads[x][i]
      ensures Derivable(f, {a}, y)
    {
      var h :| h in g.heads[b][i] && y == Last(l.blocks[h]);
      assert Avoids(l, g, a, Last(l.blocks[h]));
    }
    OneEdgeDerives(f, {a}, x, i);
  }

  lemma OneEdgeDerives(f: Flow, avoid: set<nat>, x: nat, i: nat)
    requires x !in avoid && x in f.heads && i < |f.heads[x]|
    requires forall y :: y in f.heads[x][i] ==> Derivable(f, avoid, y)
    ensures Derivable(f, avoid, x)
  {
    var k := CommonHeight(f, avoid, f.heads[x][i]);
    assert AllDerive(f, avoid, f.heads[x][i], k);
    assert Derives(f, avoid, x, k + 1);
  }

  lemma NextFollows(l: Layout, g: Flow, a: nat, b: nat, p: nat)
    requires Laid(l, g) && b in l.blocks && 0 < p < |l.blocks[b]| && l.blocks[b][p] != a
    requires Avoids(l, g, a, l.blocks[b][p - 1])
    ensures Avoids(l, g, a, l.blocks[b][p])
  {
    var f, x := NodeFlow(l, g), l.blocks[b][p];
    InBlock(l, g, b, p);
    assert f.heads[x] == [{l.blocks[b][p - 1]}] && f.heads[x][0] == {l.blocks[b][p - 1]};
    OneEdgeDerives(f, {a}, x, 0);
  }

  lemma {:induction false} ChainFollows(l: Layout, g: Flow, a: nat, b: nat, p: nat)
    requires Laid(l, g) && b in l.blocks && p < |l.blocks[b]| && a !in l.blocks[b][..p + 1]
    requires Avoids(l, g, a, l.blocks[b][0])
    ensures Avoids(l, g, a, l.blocks[b][p])
  {
    if p > 0 {
      assert l.blocks[b][..p + 1] == l.blocks[b][..p] + [l.blocks[b][p]];
      ChainFollows(l, g, a, b, p - 1);
      NextFollows(l, g, a, b, p);
    }
  }

  // ------------------------------------------------------------- from blocks to nodes

  /** A block derived without the block of `a` has its nodes derived without `a`. */
  lemma {:induction false} BlockGivesNodes(l: Layout, g: Flow, a: nat, b: nat, k: nat, p: nat)
    requires Laid(l, g) && a in l.blockOf && b in g.nodes && Derives(g, {l.blockOf[a]}, b, k) && p < |l.blocks[b]|
    ensures Avoids(l, g, a, l.blocks[b][p])
    decreases k
  {
    var A := l.blockOf[a];
    assert a !in l.blocks[b];
    if IsRoot(g, b) {
      FirstIsRoot(l, g, a, b);
    } else {
      var i :| 0 <= i < |g.heads[b]| && AllDerive(g, {A}, g.heads[b][i], k - 1);
      forall h | h in g.heads[b][i]
        ensures h in l.blocks && l.blocks[h] != [] && Avoids(l, g, a, Last(l.blocks[h]))
      {
        BlockGivesNodes(l, g, a, h, k - 1, |l.blocks[h]| - 1);
      }
      FirstFollows(l, g, a, b, i);
    }
    ChainFollows(l, g, a, b, p);
  }

  /** The first node of a derivable block is derived without a later one of the block. */
  lemma {:induction false} FirstWithoutLater(l: Layout, g: Flow, a: nat, b: nat, k: nat)
    requires Laid(l, g) && a in l.blockOf && l.blockOf[a] == b && b in g.nodes && Derives(g, {}, b, k)
    requires l.blocks[b] != [] && l.blocks[b][0] != a
    ensures Avoids(l, g, a, l.blocks[b][0])
    decreases k
  {
    if IsRoot(g, b) {
      FirstIsRoot(l, g, a, b);
    } else {
      var i :| 0 <= i < |g.heads[b]| && AllDerive(g, {}, g.heads[b][i], k - 1);
      if Derives(g, {}, b, k - 1) {
        FirstWithoutLater(l, g, a, b, k - 1);
      } else {
        forall h | h in g.heads[b][i]
          ensures h in l.blocks && l.blocks[h] != [] && Avoids(l, g, a, Last(l.blocks[h]))
        {
          HeadWithout(g, b, h, k - 1);
          BlockGivesNodes(l, g, a, h, k - 1, |l.blocks[h]| - 1);
        }
        FirstFollows(l, g, a, b, i);
      }
    }
  }

  lemma HeadWithout(g: Flow, b: nat, h: nat, k: nat)
    requires WellFormed(g) && h in g.nodes && Derives(g, {}, h, k) && !Derives(g, {}, b, k)
    ensures Derives(g, {b}, h, k)
  {
    LowerDerivation(g, b, h, k);
    if k > 0 && Derives(g, {}, b, k - 1) {
      DerivesMore(g, {}, b, k - 1, k);
    }
  }

  // ------------------------------------------------------------- from nodes to blocks

  /** A node derived without `a` lies before `a` in its block, or in a block that is
      derived without the block of `a`. */
  lemma {:induction false} NodeGivesBlock(l: Layout, g: Flow, a: nat, b: nat, p: nat, k: nat)
    requires Laid(l, g) && a in l.blockOf && b in g.nodes && p < |l.blocks[b]|
    requires Derives(NodeFlow(l, g), {a}, l.blocks[b][p], k)
    ensures if b == l.blockOf[a] then a !in l.blocks[b][..p + 1] && Derivable(g, {}, b)
            else Derivable(g, {l.blockOf[a]}, b)
    decreases k, 1
  {
    var f, x, A := NodeFlow(l, g), l.blocks[b][p], l.blockOf[a];
    InBlock(l, g, b, p);
    if p > 0 {
      InBlock(l, g, g.root, 0);
      assert f.heads[x] == [{l.blocks[b][p - 1]}] && !IsRoot(f, x);
      var i :| 0 <= i < |f.heads[x]| && AllDerive(f, {a}, f.heads[x][i], k - 1);
      assert l.blocks[b][p - 1] in f.heads[x][i];
      NodeGivesBlock(l, g, a, b, p - 1, k - 1);
      assert l.blocks[b][..p + 1] == l.blocks[b][..p] + [x];
    } else {
      FirstGivesBlock(l, g, a, b, k);
      assert l.blocks[b][..1] == [x];
    }
  }

  /** The edge by which the first node of a block was derived. */
  lemma FirstDerivation(l: Layout, g: Flow, a: nat, b: nat, k: nat) returns (i: nat)
    requires Laid(l, g) && b in g.nodes && l.blocks[b] != [] && !IsRoot(g, b)
    requires Derives(NodeFlow(l, g), {a}, l.blocks[b][0], k)
    ensures k > 0 && i < |g.heads[b]| && AllDerive(NodeFlow(l, g), {a}, LastNodes(l, g.heads[b][i]), k - 1)
  {
    var f, x := NodeFlow(l, g), l.blocks[b][0];
    InBlock(l, g, b, 0);
    InBlock(l, g, g.root, 0);
    assert |f.heads[x]| == |g.heads[b]| && !IsRoot(f, x);
    i :| 0 <= i < |f.heads[x]| && AllDerive(f, {a}, f.heads[x][i], k - 1);
    assert f.heads[x][i] == LastNodes(l, g.heads[b][i]);
  }

  lemma {:induction false} LastGivesBlock(l: Layout, g: Flow, a: nat, h: nat, avoid: set<nat>, k: nat)
    requires Laid(l, g) && a in l.blockOf && h in g.nodes && l.blocks[h] != [] && avoid <= {l.blockOf[a]}
    requires Derives(NodeFlow(l, g), {a}, Last(l.blocks[h]), k)
    ensures Derivable(g, avoid, h)
    decreases k, 2
  {
    NodeGivesBlock(l, g, a, h, |l.blocks[h]| - 1, k);
    assert l.blocks[h][..|l.blocks[h]|] == l.blocks[h];
    var m: nat :| Derives(g, {l.blockOf[a]}, h, m);
    DerivableMoreEasily(g, {l.blockOf[a]}, avoid, h, m);
  }

  lemma {:induction false} FirstGivesBlock(l: Layout, g: Flow, a: nat, b: nat, k: nat)
    requires Laid(l, g) && a in l.blockOf && b in g.nodes && l.blocks[b] != []
    requires Derives(NodeFlow(l, g), {a}, l.blocks[b][0], k)
    ensures Derivable(g, if b == l.blockOf[a] then {} else {l.blockOf[a]}, b)
    decreases k, 0
  {
    var avoid := if b == l.blockOf[a] then {} else {l.blockOf[a]};
    if IsRoot(g, b) {
      assert Derives(g, avoid, b, 0);
    } else {
      var i := FirstDerivation(l, g, a, b, k);
      forall h | h in g.heads[b][i]
        ensures Derivable(g, avoid, h)
      {
        assert Last(l.blocks[h]) in LastNodes(l, g.heads[b][i]);
        LastGivesBlock(l, g, a, h, avoid, k - 1);
      }
      OneEdgeDerives(g, avoid, b, i);
    }
  }

  // ------------------------------------------------------------- the theorem

  lemma BeforeMeans(list: seq<nat>, a: nat, b: nat, p: nat)
    requires Distinct(list) && a in list && p < |list| && list[p] == b && a != b
    ensures Before(list, a, b) <==> a in list[..p + 1]
  {
    if Before(list, a, b) {
      var i :| 0 <= i < |list| && list[i] == a && b !in list[..i];
      assert list[..p + 1][i] == a;
    }
    if a in list[..p + 1] {
      var i :| 0 <= i < p + 1 && list[i] == a;
      assert b !in list[..i];
    }
  }

  /** `dominates(a, b)` says that `b` cannot be reached without `a`. Only in a block that
      cannot be reached at all it says less. */
  lemma DominatesIsUnavoidability(l: Layout, g: Flow, dom: DomSets, a: nat, b: nat)
    requires Fits(l, g, dom) && DistinctBlocks(l) && Placed(l, g, a) && Placed(l, g, b)
    ensures NodeDominates(l, dom, a, b) ==> !Avoids(l, g, a, b)
    ensures !Avoids(l, g, a, b) && !NodeDominates(l, dom, a, b) <==>
              && l.blockOf[a] == l.blockOf[b] && Underivable(g, l.blockOf[b])
              && a != b && Before(l.blocks[l.blockOf[b]], b, a)
  {
    var A, B := l.blockOf[a], l.blockOf[b];
    var list := l.blocks[B];
    var p := Position(list, b);
    DominanceIsUnavoidability(g, dom, B, A);
    if A == B && a != b {
      BeforeIsTotal(list, a, b);
      BeforeMeans(list, a, b, p);
    }
    if Avoids(l, g, a, b) {
      var k: nat :| Derives(NodeFlow(l, g), {a}, b, k);
      NodeGivesBlock(l, g, a, B, p, k);
    } else if A != B {
      if Derivable(g, {A}, B) {
        var k: nat :| Derives(g, {A}, B, k);
        BlockGivesNodes(l, g, a, B, k, p);
      }
    } else if a != b && a !in list[..p + 1] && Derivable(g, {}, B) {
      var k: nat :| Derives(g, {}, B, k);
      FirstWithoutLater(l, g, a, B, k);
      ChainFollows(l, g, a, B, p);
    }
  }

  /** Where both say the same. */
  ghost predicate Reachable(l: Layout, g: Flow, a: nat, b: nat) {
    && Laid(l, g) && Placed(l, g, a) && Placed(l, g, b)
    && (l.blockOf[a] == l.blockOf[b] ==> Derivable(g, {}, l.blockOf[b]))
  }
}
