/** Dominance between ICFG nodes: the order inside a block, the dominator sets
    across blocks. */
module NodeDominance {
  import opened Dominance
  import opened IBBG

  /** Going through `list` from the front, `a` is met before `b`. */
  ghost predicate Before(list: seq<nat>, a: nat, b: nat) {
    exists i :: 0 <= i < |list| && list[i] == a && b !in list[..i]
  }

  /** Going through `list` from the back, `a` is met before `b`. */
  ghost predicate After(list: seq<nat>, a: nat, b: nat) {
    exists i :: 0 <= i < |list| && list[i] == a && b !in list[i + 1..]
  }

  ghost predicate Placed(l: Layout, g: Flow, x: nat) {
    x in l.blockOf && l.blockOf[x] in l.blocks && l.blockOf[x] in g.nodes
  }

  /** The answer `dominates(a, b)` stands for. */
  ghost predicate NodeDominates(l: Layout, dom: DomSets, a: nat, b: nat)
    requires a in l.blockOf && b in l.blockOf && l.blockOf[a] in l.blocks && l.blockOf[b] in dom
  {
    || a == b
    || (if l.blockOf[a] == l.blockOf[b] then Before(l.blocks[l.blockOf[a]], a, b)
        else l.blockOf[a] in dom[l.blockOf[b]])
  }

  /** The blocks of the layout are the nodes of the flow graph `dom` solves. */
  ghost predicate Fits(l: Layout, g: Flow, dom: DomSets) {
    WellPlaced(l) && WellFormed(g) && l.blocks.Keys == g.nodes && IsGreatest(g, dom)
  }

  // --------------------------------------------------------- inside a block

  lemma BeforeIsTotal(list: seq<nat>, a: nat, b: nat)
    requires a != b && a in list && b in list
    ensures Before(list, a, b) <==> !Before(list, b, a)
  {
    var i := FirstOf(list, a);
    var j := FirstOf(list, b);
    if i < j {
      assert Before(list, a, b);
    } else {
      assert Before(list, b, a);
    }
  }

  lemma FirstOf(list: seq<nat>, a: nat) returns (i: nat)
    requires a in list
    ensures i < |list| && list[i] == a && a !in list[..i]
    ensures forall b :: b in list && b !in list[..i] && b != a ==> Before(list, a, b)
    ensures forall j :: 0 <= j < |list| && list[j] == a ==> i <= j
  {
    i := 0;
    while list[i] != a
      invariant i < |list| && a !in list[..i] && exists j :: i <= j < |list| && list[j] == a
      decreases |list| - i
    {
      assert list[..i + 1] == list[..i] + [list[i]];
      i := i + 1;
    }
  }

  lemma BeforeIsTransitive(list: seq<nat>, a: nat, b: nat, c: nat)
    requires Before(list, a, b) && Before(list, b, c)
    ensures Before(list, a, c)
  {
    var p :| 0 <= p < |list| && list[p] == a && b !in list[..p];
    var q :| 0 <= q < |list| && list[q] == b && c !in list[..q];
    assert p <= q;
    assert list[..p] == list[..q][..p];
  }

  // ------------------------------------------------------ the relation on nodes

  ghost predicate Underivable(g: Flow, n: nat) {
    n in g.nodes && !Derivable(g, {}, n)
  }

  /** Two different blocks that no derivation from the roots reaches. */
  ghost predicate TwoUnderivable(g: Flow, n: nat, m: nat) {
    n != m && Underivable(g, n) && Underivable(g, m)
  }

  lemma DominatesIsAntisymmetric(l: Layout, g: Flow, dom: DomSets, a: nat, b: nat)
    requires Fits(l, g, dom) && Placed(l, g, a) && Placed(l, g, b)
    requires NodeDominates(l, dom, a, b) && NodeDominates(l, dom, b, a)
    ensures a == b || TwoUnderivable(g, l.blockOf[a], l.blockOf[b])
  {
    var A, B := l.blockOf[a], l.blockOf[b];
    if a != b {
      if A == B {
        BeforeIsTotal(l.blocks[A], a, b);
      } else {
        MutualDominance(g, dom, A, B);
      }
    }
  }

  /** The only way transitivity fails: `c` is in the block of `a`, not after it,
      and `b` is in another block that dominates and is dominated. */
  lemma DominatesIsTransitive(l: Layout, g: Flow, dom: DomSets, a: nat, b: nat, c: nat)
    requires Fits(l, g, dom) && Placed(l, g, a) && Placed(l, g, b) && Placed(l, g, c)
    requires NodeDominates(l, dom, a, b) && NodeDominates(l, dom, b, c)
    ensures NodeDominates(l, dom, a, c) ||
            (a != c && l.blockOf[c] == l.blockOf[a] && TwoUnderivable(g, l.blockOf[a], l.blockOf[b]))
  {
    var A, B, C := l.blockOf[a], l.blockOf[b], l.blockOf[c];
    if a != b && b != c && a != c {
      if A == B == C {
        BeforeIsTransitive(l.blocks[A], a, b, c);
      } else if A != B && B != C {
        if A == C {
          MutualDominance(g, dom, A, B);
        } else {
          DominanceIsTransitive(g, dom, A, B, C);
        }
      }
    }
  }

  /** On nodes of derivable blocks, `dominates` is a partial order. */
  lemma DominatesIsPartialOrder(l: Layout, g: Flow, dom: DomSets, a: nat, b: nat, c: nat)
    requires Fits(l, g, dom) && Placed(l, g, a) && Placed(l, g, b) && Placed(l, g, c)
    requires Derivable(g, {}, l.blockOf[a])
    ensures NodeDominates(l, dom, a, a)
    ensures NodeDominates(l, dom, a, b) && NodeDominates(l, dom, b, a) ==> a == b
    ensures NodeDominates(l, dom, a, b) && NodeDominates(l, dom, b, c) ==> NodeDominates(l, dom, a, c)
  {
    if NodeDominates(l, dom, a, b) && NodeDominates(l, dom, b, a) {
      DominatesIsAntisymmetric(l, g, dom, a, b);
    }
    if NodeDominates(l, dom, a, b) && NodeDominates(l, dom, b, c) {
      DominatesIsTransitive(l, g, dom, a, b, c);
    }
  }

  ghost predicate AntisymmetricEverywhere(l: Layout, g: Flow, dom: DomSets)
    requires Fits(l, g, dom)
  {
    forall a, b :: Placed(l, g, a) && Placed(l, g, b) && NodeDominates(l, dom, a, b) && NodeDominates(l, dom, b, a) ==>
      a == b
  }

  ghost predicate TransitiveEverywhere(l: Layout, g: Flow, dom: DomSets)
    requires Fits(l, g, dom)
  {
    forall a, b, c :: Placed(l, g, a) && Placed(l, g, b) && Placed(l, g, c)
                      && NodeDominates(l, dom, a, b) && NodeDominates(l, dom, b, c)
                      ==> NodeDominates(l, dom, a, c)
  }

  /** Antisymmetric on the whole graph iff at most one block is not derivable. */
  lemma WhenAntisymmetric(l: Layout, g: Flow, dom: DomSets)
    requires Fits(l, g, dom)
    ensures AntisymmetricEverywhere(l, g, dom) <==> !exists n: nat, m: nat :: TwoUnderivable(g, n, m)
  {
    forall a, b | Placed(l, g, a) && Placed(l, g, b) && NodeDominates(l, dom, a, b) && NodeDominates(l, dom, b, a)
      ensures a == b || TwoUnderivable(g, l.blockOf[a], l.blockOf[b])
    {
      DominatesIsAntisymmetric(l, g, dom, a, b);
    }
    if n: nat, m: nat :| TwoUnderivable(g, n, m) {
      var a, b := l.blocks[n][0], l.blocks[m][0];
      FirstNodes(l, n);
      FirstNodes(l, m);
      MutualDominance(g, dom, n, m);
      assert Placed(l, g, a) && Placed(l, g, b) && NodeDominates(l, dom, a, b) && NodeDominates(l, dom, b, a);
    }
  }

  lemma FirstNodes(l: Layout, n: nat)
    requires WellPlaced(l) && n in l.blocks
    ensures l.blocks[n] != [] && l.blocks[n][0] in l.blockOf && l.blockOf[l.blocks[n][0]] == n
  {
    assert l.blocks[n][0] in l.blocks[n];
  }

  /** A block with two different nodes and another block, neither of them derivable. */
  ghost predicate LooseBlock(l: Layout, g: Flow, n: nat, m: nat, x: nat, y: nat) {
    TwoUnderivable(g, n, m) && n in l.blocks && x in l.blocks[n] && y in l.blocks[n] && x != y
  }

  /** Transitive on the whole graph iff there is no such pair of blocks. */
  lemma WhenTransitive(l: Layout, g: Flow, dom: DomSets)
    requires Fits(l, g, dom)
    ensures TransitiveEverywhere(l, g, dom) <==> !exists n: nat, m: nat, x: nat, y: nat :: LooseBlock(l, g, n, m, x, y)
  {
    forall a, b, c | Placed(l, g, a) && Placed(l, g, b) && Placed(l, g, c)
                     && NodeDominates(l, dom, a, b) && NodeDominates(l, dom, b, c)
      ensures NodeDominates(l, dom, a, c) || LooseBlock(l, g, l.blockOf[a], l.blockOf[b], a, c)
    {
      DominatesIsTransitive(l, g, dom, a, b, c);
    }
    if n: nat, m: nat, x: nat, y: nat :| LooseBlock(l, g, n, m, x, y) {
      BeforeIsTotal(l.blocks[n], x, y);
      if Before(l.blocks[n], x, y) {
        TransitivityFails(l, g, dom, n, m, x, y);
      } else {
        TransitivityFails(l, g, dom, n, m, y, x);
      }
    }
  }

  lemma TransitivityFails(l: Layout, g: Flow, dom: DomSets, n: nat, m: nat, x: nat, y: nat)
    requires Fits(l, g, dom) && LooseBlock(l, g, n, m, x, y) && Before(l.blocks[n], x, y)
    ensures !TransitiveEverywhere(l, g, dom)
  {
    var z := l.blocks[m][0];
    FirstNodes(l, m);
    MutualDominance(g, dom, n, m);
    BeforeIsTotal(l.blocks[n], x, y);
    assert Placed(l, g, y) && Placed(l, g, z) && Placed(l, g, x);
    assert NodeDominates(l, dom, y, z) && NodeDominates(l, dom, z, x) && !NodeDominates(l, dom, y, x);
  }

  /** An entry and, off it, a cycle of two blocks, the first of two nodes. */
  function CycleOffEntry(): Flow {
    Flow({0, 1, 2}, 0, map[0 := [], 1 := [{2}], 2 := [{1}]])
  }

  function CycleBlock(b: nat): seq<nat> {
    if b == 1 then [20, 21] else [10 * (b + 1)]
  }

  function CycleLayout(): Layout {
    Layout(map b: nat | b < 3 :: CycleBlock(b), map x: nat | x in {10, 20, 21, 30} :: x / 10 - 1)
  }

  lemma {:induction false} CycleIsUnderivable(n: nat, k: nat)
    requires n == 1 || n == 2
    ensures !Derives(CycleOffEntry(), {}, n, k)
    decreases k
  {
    if k > 0 {
      CycleIsUnderivable(3 - n, k - 1);
    }
  }

  lemma CycleIsLoose()
    ensures LooseBlock(CycleLayout(), CycleOffEntry(), 1, 2, 20, 21)
  {
    var g := CycleOffEntry();
    forall n: nat | n == 1 || n == 2
      ensures !Derivable(g, {}, n)
    {
      if Derivable(g, {}, n) {
        var k: nat :| Derives(g, {}, n, k);
        CycleIsUnderivable(n, k);
      }
    }
  }

  lemma CycleIsPlaced()
    ensures WellPlaced(CycleLayout())
  {
  }

  lemma CycleIsWellFormed()
    ensures WellFormed(CycleOffEntry()) && CycleLayout().blocks.Keys == CycleOffEntry().nodes
  {
  }

  /** Where two such blocks are, `dominates` is neither antisymmetric nor transitive. */
  lemma LooseBlockBreaksTheOrder(l: Layout, g: Flow, dom: DomSets, n: nat, m: nat, x: nat, y: nat)
    requires Fits(l, g, dom) && LooseBlock(l, g, n, m, x, y)
    ensures !AntisymmetricEverywhere(l, g, dom) && !TransitiveEverywhere(l, g, dom)
  {
    WhenAntisymmetric(l, g, dom);
    WhenTransitive(l, g, dom);
  }

  /** As here. */
  lemma CycleBreaksTheOrder(dom: DomSets)
    requires IsGreatest(CycleOffEntry(), dom)
    ensures Fits(CycleLayout(), CycleOffEntry(), dom)
    ensures !AntisymmetricEverywhere(CycleLayout(), CycleOffEntry(), dom)
    ensures !TransitiveEverywhere(CycleLayout(), CycleOffEntry(), dom)
  {
    CycleIsPlaced();
    CycleIsWellFormed();
    CycleIsLoose();
    LooseBlockBreaksTheOrder(CycleLayout(), CycleOffEntry(), dom, 1, 2, 20, 21);
  }

  // -------------------------------------------------------- the reverse scan

  ghost function Backwards(s: seq<nat>): (r: seq<nat>)
    ensures |r| == |s| && forall i :: 0 <= i < |s| ==> r[i] == s[|s| - 1 - i]
  {
    seq(|s|, i requires 0 <= i < |s| => s[|s| - 1 - i])
  }

  /** The same blocks with their nodes listed in the other direction. */
  ghost function ReverseLayout(l: Layout): Layout {
    Layout(map b | b in l.blocks :: Backwards(l.blocks[b]), l.blockOf)
  }

  lemma BackwardsHas(s: seq<nat>, x: nat)
    ensures x in Backwards(s) <==> x in s
  {
    if x in s {
      var i :| 0 <= i < |s| && s[i] == x;
      assert Backwards(s)[|s| - 1 - i] == x;
    }
  }

  lemma ReverseLayoutIsPlaced(l: Layout)
    requires WellPlaced(l)
    ensures WellPlaced(ReverseLayout(l))
  {
    forall b, x | b in l.blocks
      ensures x in Backwards(l.blocks[b]) <==> x in l.blocks[b]
    {
      BackwardsHas(l.blocks[b], x);
    }
  }

  lemma AfterIsBefore(list: seq<nat>, a: nat, b: nat)
    ensures After(list, a, b) <==> Before(Backwards(list), a, b)
  {
    var r, n := Backwards(list), |list|;
    if After(list, a, b) {
      var i :| 0 <= i < n && list[i] == a && b !in list[i + 1..];
      TailIsHead(list, i, b);
      assert r[n - 1 - i] == a;
    }
    if Before(r, a, b) {
      var i :| 0 <= i < n && r[i] == a && b !in r[..i];
      TailIsHead(list, n - 1 - i, b);
    }
  }

  lemma TailIsHead(list: seq<nat>, i: nat, b: nat)
    requires i < |list|
    ensures b in list[i + 1..] <==> b in Backwards(list)[..|list| - 1 - i]
  {
    var r, n := Backwards(list), |list|;
    if b in list[i + 1..] {
      var j :| i + 1 <= j < n && list[j] == b;
      assert r[..n - 1 - i][n - 1 - j] == b;
    }
    if b in r[..n - 1 - i] {
      var j :| 0 <= j < n - 1 - i && r[j] == b;
      assert list[i + 1..][n - 1 - j - (i + 1)] == b;
    }
  }

  /** The scan of `dominates` inside one block. */
  method MetFirst(list: seq<nat>, a: nat, b: nat) returns (r: bool)
    requires a != b && a in list && b in list
    ensures r <==> Before(list, a, b)
  {
    BeforeIsTotal(list, a, b);
    var i := 0;
    while list[i] != a && list[i] != b
      invariant i < |list| && a !in list[..i] && b !in list[..i]
      decreases |list| - i
    {
      assert list == list[..i] + [list[i]] + list[i + 1..];
      i := i + 1;
    }
    r := list[i] == a;
  }

  /** The scan of the post-dominator, from the back. */
  method MetLast(list: seq<nat>, a: nat, b: nat) returns (r: bool)
    requires a != b && a in list && b in list
    ensures r <==> After(list, a, b)
  {
    AfterIsTotal(list, a, b);
    var i := |list| - 1;
    while list[i] != a && list[i] != b
      invariant 0 <= i < |list| && a !in list[i + 1..] && b !in list[i + 1..]
      decreases i
    {
      assert list == list[..i] + [list[i]] + list[i + 1..];
      i := i - 1;
    }
    r := list[i] == a;
  }

  lemma AfterIsTotal(list: seq<nat>, a: nat, b: nat)
    requires a != b && a in list && b in list
    ensures After(list, a, b) <==> !After(list, b, a)
  {
    BackwardsHas(list, a);
    BackwardsHas(list, b);
    BeforeIsTotal(Backwards(list), a, b);
    AfterIsBefore(list, a, b);
    AfterIsBefore(list, b, a);
  }
}
