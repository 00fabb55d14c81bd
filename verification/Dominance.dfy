/** Dominator sets of a flow graph whose in-edges may contribute several heads:
    the greatest fixpoint the analyses compute, and what it means. */
module Dominance {
  import opened Paths

  /** `heads[n]` lists, for each in-edge of `n`, the nodes the edge comes from. */
  datatype Flow = Flow(nodes: set<nat>, root: nat, heads: map<nat, seq<set<nat>>>)

  type DomSets = map<nat, set<nat>>

  ghost predicate WellFormed(g: Flow) {
    && g.root in g.nodes && g.heads.Keys == g.nodes
    && forall n, i, h :: n in g.nodes && 0 <= i < |g.heads[n]| && h in g.heads[n][i] ==> h in g.nodes
  }

  /** Entry, or without in-edges. */
  ghost predicate IsRoot(g: Flow, n: nat) {
    n == g.root || n !in g.heads || g.heads[n] == []
  }

  /** Some head of the edge has `d` in its set. */
  ghost predicate SomeHead(dom: DomSets, heads: set<nat>, d: nat) {
    exists h :: h in heads && h in dom && d in dom[h]
  }

  /** `d` is `n` itself, or `n` is not a root and every in-edge has a head with `d` in its set. */
  ghost predicate Passes(g: Flow, dom: DomSets, n: nat, d: nat) {
    d == n || (!IsRoot(g, n) && forall i {:trigger SomeHead(dom, g.heads[n][i], d)} ::
                                  0 <= i < |g.heads[n]| ==> SomeHead(dom, g.heads[n][i], d))
  }

  /** The right-hand side of the dominator equation of `n`. */
  ghost function Transfer(g: Flow, dom: DomSets, n: nat): set<nat> {
    set d | d in g.nodes && Passes(g, dom, n, d)
  }

  ghost predicate Solves(g: Flow, dom: DomSets) {
    dom.Keys == g.nodes && forall n :: n in g.nodes ==> dom[n] == Transfer(g, dom, n)
  }

  /** Every set is contained in the right-hand side of its equation. */
  ghost predicate PostFixed(g: Flow, dom: DomSets) {
    dom.Keys == g.nodes && forall n :: n in g.nodes ==> dom[n] <= Transfer(g, dom, n)
  }

  ghost predicate Under(a: DomSets, b: DomSets) {
    forall n :: n in a ==> n in b && a[n] <= b[n]
  }

  /** The greatest solution of the dominator equations. */
  ghost predicate IsGreatest(g: Flow, dom: DomSets) {
    Solves(g, dom) && forall e {:trigger PostFixed(g, e)} :: PostFixed(g, e) ==> Under(e, dom)
  }

  lemma TransferGrows(g: Flow, a: DomSets, b: DomSets, n: nat)
    requires Under(a, b)
    ensures Transfer(g, a, n) <= Transfer(g, b, n)
  {
    forall d | d in Transfer(g, a, n)
      ensures Passes(g, b, n, d)
    {
      if d != n {
        forall i | 0 <= i < |g.heads[n]|
          ensures SomeHead(b, g.heads[n][i], d)
        {
          assert SomeHead(a, g.heads[n][i], d);
          var h :| h in g.heads[n][i] && h in a && d in a[h];
          assert h in b && d in b[h];
        }
      }
    }
  }

  /** `n` has a derivation of height at most `k` from the roots in which no node of
      `avoid` occurs: each step takes one in-edge and derives all of its heads. */
  ghost predicate Derives(g: Flow, avoid: set<nat>, n: nat, k: nat)
    decreases k, 0
  {
    n !in avoid && (IsRoot(g, n) || (k > 0 && exists i ::
                                     0 <= i < |g.heads[n]| && AllDerive(g, avoid, g.heads[n][i], k - 1)))
  }

  ghost predicate AllDerive(g: Flow, avoid: set<nat>, heads: set<nat>, k: nat)
    decreases k, 1
  {
    forall h :: h in heads ==> Derives(g, avoid, h, k)
  }

  ghost predicate Derivable(g: Flow, avoid: set<nat>, n: nat) {
    exists k: nat :: Derives(g, avoid, n, k)
  }

  lemma {:induction false} DerivesMore(g: Flow, avoid: set<nat>, n: nat, k: nat, m: nat)
    requires Derives(g, avoid, n, k) && k <= m
    ensures Derives(g, avoid, n, m)
    decreases k
  {
    if !IsRoot(g, n) {
      var i :| 0 <= i < |g.heads[n]| && AllDerive(g, avoid, g.heads[n][i], k - 1);
      forall h | h in g.heads[n][i]
        ensures Derives(g, avoid, h, m - 1)
      {
        DerivesMore(g, avoid, h, k - 1, m - 1);
      }
      assert AllDerive(g, avoid, g.heads[n][i], m - 1);
    }
  }

  /** If every head is derivable there is one height for all of them. */
  lemma {:induction false} CommonHeight(g: Flow, avoid: set<nat>, heads: set<nat>) returns (k: nat)
    requires forall h :: h in heads ==> Derivable(g, avoid, h)
    ensures AllDerive(g, avoid, heads, k)
  {
    if heads == {} {
      k := 0;
    } else {
      var h :| h in heads;
      var a := CommonHeight(g, avoid, heads - {h});
      var b: nat :| Derives(g, avoid, h, b);
      k := if a < b then b else a;
      forall x | x in heads
        ensures Derives(g, avoid, x, k)
      {
        if x == h {
          DerivesMore(g, avoid, h, b, k);
        } else {
          assert x in heads - {h};
          DerivesMore(g, avoid, x, a, k);
        }
      }
    }
  }

  /** A derivation that avoids `d` shows that `d` is not in the set of `n`. */
  lemma {:induction false} DerivationExcludes(g: Flow, dom: DomSets, d: nat, n: nat, k: nat)
    requires WellFormed(g) && Solves(g, dom) && n in g.nodes && Derives(g, {d}, n, k)
    ensures d !in dom[n]
    decreases k
  {
    if d in dom[n] {
      assert Passes(g, dom, n, d);
      var i :| 0 <= i < |g.heads[n]| && AllDerive(g, {d}, g.heads[n][i], k - 1);
      assert SomeHead(dom, g.heads[n][i], d);
      var h :| h in g.heads[n][i] && h in dom && d in dom[h];
      DerivationExcludes(g, dom, d, h, k - 1);
    }
  }

  /** For each node, the nodes that no derivation of it avoids. */
  ghost function Unavoidable(g: Flow): DomSets {
    map n | n in g.nodes :: set d | d in g.nodes && !Derivable(g, {d}, n)
  }

  lemma UnavoidableIsPostFixed(g: Flow)
    requires WellFormed(g)
    ensures PostFixed(g, Unavoidable(g))
  {
    var U := Unavoidable(g);
    forall n, d | n in g.nodes && d in U[n]
      ensures Passes(g, U, n, d)
    {
      if d != n {
        if IsRoot(g, n) {
          assert Derives(g, {d}, n, 0);
        }
        forall i | 0 <= i < |g.heads[n]|
          ensures SomeHead(U, g.heads[n][i], d)
        {
          if forall h :: h in g.heads[n][i] ==> Derivable(g, {d}, h) {
            var k := CommonHeight(g, {d}, g.heads[n][i]);
            assert Derives(g, {d}, n, k + 1);
          }
        }
      }
    }
  }

  /** What the greatest solution means: `d` is in the set of `n` exactly when no
      derivation of `n` from the roots avoids `d`. */
  lemma DominanceIsUnavoidability(g: Flow, dom: DomSets, n: nat, d: nat)
    requires WellFormed(g) && IsGreatest(g, dom) && n in g.nodes && d in g.nodes
    ensures d in dom[n] <==> !Derivable(g, {d}, n)
  {
    UnavoidableIsPostFixed(g);
    assert Under(Unavoidable(g), dom);
    if Derivable(g, {d}, n) {
      var k: nat :| Derives(g, {d}, n, k);
      DerivationExcludes(g, dom, d, n, k);
    } else {
      assert d in Unavoidable(g)[n];
    }
  }

  lemma GreatestIsUnique(g: Flow, a: DomSets, b: DomSets)
    requires IsGreatest(g, a) && IsGreatest(g, b)
    ensures a == b
  {
    assert PostFixed(g, a) && PostFixed(g, b);
    assert Under(a, b) && Under(b, a);
    assert forall n :: n in a ==> a[n] == b[n];
  }

  // ------------------------------------------------ dominance as a relation

  /** A derivation of `m` that avoids `d` avoids `n` too, or contains one of `n`. */
  lemma {:induction false} DerivationSplits(g: Flow, d: nat, n: nat, m: nat, k: nat)
    requires WellFormed(g) && m in g.nodes && Derives(g, {d}, m, k)
    ensures Derives(g, {n}, m, k) || Derives(g, {d}, n, k)
    decreases k
  {
    if m != n && !IsRoot(g, m) {
      var i :| 0 <= i < |g.heads[m]| && AllDerive(g, {d}, g.heads[m][i], k - 1);
      forall h | h in g.heads[m][i]
        ensures Derives(g, {n}, h, k - 1) || Derives(g, {d}, n, k)
      {
        DerivationSplits(g, d, n, h, k - 1);
        if Derives(g, {d}, n, k - 1) {
          DerivesMore(g, {d}, n, k - 1, k);
        }
      }
      if !Derives(g, {d}, n, k) {
        assert AllDerive(g, {n}, g.heads[m][i], k - 1);
      }
    }
  }

  lemma DominanceIsTransitive(g: Flow, dom: DomSets, d: nat, n: nat, m: nat)
    requires WellFormed(g) && IsGreatest(g, dom)
    requires n in g.nodes && m in g.nodes && d in dom[n] && n in dom[m]
    ensures d in dom[m]
  {
    assert d in g.nodes;
    DominanceIsUnavoidability(g, dom, n, d);
    DominanceIsUnavoidability(g, dom, m, n);
    DominanceIsUnavoidability(g, dom, m, d);
    if Derivable(g, {d}, m) {
      var k: nat :| Derives(g, {d}, m, k);
      DerivationSplits(g, d, n, m, k);
    }
  }

  lemma DominanceIsReflexive(g: Flow, dom: DomSets, n: nat)
    requires IsGreatest(g, dom) && n in g.nodes
    ensures n in dom[n]
  {
    assert Passes(g, dom, n, n);
  }

  /** A derivation of `m` of height `k` avoids `n`, or contains a lower derivation of `n`. */
  lemma {:induction false} LowerDerivation(g: Flow, n: nat, m: nat, k: nat)
    requires WellFormed(g) && m in g.nodes && m != n && Derives(g, {}, m, k)
    ensures Derives(g, {n}, m, k) || (k > 0 && Derives(g, {}, n, k - 1))
    decreases k
  {
    if !IsRoot(g, m) {
      var i :| 0 <= i < |g.heads[m]| && AllDerive(g, {}, g.heads[m][i], k - 1);
      if !Derives(g, {}, n, k - 1) {
        forall h | h in g.heads[m][i]
          ensures Derives(g, {n}, h, k - 1)
        {
          LowerDerivation(g, n, h, k - 1);
          if k > 1 && Derives(g, {}, n, k - 2) {
            DerivesMore(g, {}, n, k - 2, k - 1);
          }
        }
        assert AllDerive(g, {n}, g.heads[m][i], k - 1);
      }
    }
  }

  /** Of two different nodes that dominate each other neither is derivable. */
  lemma {:induction false} MutualNotDerivable(g: Flow, dom: DomSets, a: nat, b: nat, k: nat)
    requires WellFormed(g) && IsGreatest(g, dom) && a in g.nodes && b in g.nodes
    requires a != b && a in dom[b] && b in dom[a]
    ensures !Derives(g, {}, a, k)
    decreases k
  {
    if Derives(g, {}, a, k) {
      LowerDerivation(g, b, a, k);
      DominanceIsUnavoidability(g, dom, a, b);
      MutualNotDerivable(g, dom, b, a, k - 1);
    }
  }

  lemma DerivableMoreEasily(g: Flow, a: set<nat>, b: set<nat>, n: nat, k: nat)
    requires b <= a && Derives(g, a, n, k)
    ensures Derives(g, b, n, k)
    decreases k
  {
    if !IsRoot(g, n) {
      var i :| 0 <= i < |g.heads[n]| && AllDerive(g, a, g.heads[n][i], k - 1);
      forall h | h in g.heads[n][i]
        ensures Derives(g, b, h, k - 1)
      {
        DerivableMoreEasily(g, a, b, h, k - 1);
      }
      assert AllDerive(g, b, g.heads[n][i], k - 1);
    }
  }

  /** Two different nodes dominate each other exactly when neither is derivable;
      in particular everything dominates a node that is not derivable. */
  lemma MutualDominance(g: Flow, dom: DomSets, a: nat, b: nat)
    requires WellFormed(g) && IsGreatest(g, dom) && a in g.nodes && b in g.nodes && a != b
    ensures a in dom[b] && b in dom[a] <==> !Derivable(g, {}, a) && !Derivable(g, {}, b)
    ensures !Derivable(g, {}, b) ==> a in dom[b]
  {
    if a in dom[b] && b in dom[a] {
      if Derivable(g, {}, a) {
        var k: nat :| Derives(g, {}, a, k);
        MutualNotDerivable(g, dom, a, b, k);
      }
      if Derivable(g, {}, b) {
        var k: nat :| Derives(g, {}, b, k);
        MutualNotDerivable(g, dom, b, a, k);
      }
    }
    DerivableOrDominated(g, dom, a, b);
    DerivableOrDominated(g, dom, b, a);
  }

  lemma DerivableOrDominated(g: Flow, dom: DomSets, a: nat, b: nat)
    requires WellFormed(g) && IsGreatest(g, dom) && a in g.nodes && b in g.nodes
    ensures a in dom[b] || Derivable(g, {}, b)
  {
    DominanceIsUnavoidability(g, dom, b, a);
    if Derivable(g, {a}, b) {
      var k: nat :| Derives(g, {a}, b, k);
      DerivableMoreEasily(g, {a}, {}, b, k);
    }
  }

  // --------------------------------------------------- without return edges

  ghost predicate OneHeadEach(g: Flow) {
    forall n, i :: n in g.heads && 0 <= i < |g.heads[n]| ==> |g.heads[n][i]| == 1
  }

  ghost function FlowEdges(g: Flow): set<(nat, nat)>
    requires WellFormed(g)
  {
    set n, i, h | n in g.nodes && 0 <= i < |g.heads[n]| && h in g.heads[n][i] :: (h, n)
  }

  /** A walk from a root to `n` that does not meet `d`. */
  ghost predicate RootWalk(g: Flow, p: seq<nat>, d: nat, n: nat)
    requires WellFormed(g)
  {
    |p| > 0 && p[0] in g.nodes && IsRoot(g, p[0]) && Walk(FlowEdges(g), p, p[0], n) && d !in p
  }

  lemma {:induction false} DerivationWalks(g: Flow, d: nat, n: nat, k: nat) returns (p: seq<nat>)
    requires WellFormed(g) && OneHeadEach(g) && n in g.nodes && Derives(g, {d}, n, k)
    ensures RootWalk(g, p, d, n)
    decreases k
  {
    if IsRoot(g, n) {
      p := [n];
    } else {
      var i :| 0 <= i < |g.heads[n]| && AllDerive(g, {d}, g.heads[n][i], k - 1);
      assert g.heads[n][i] != {};
      var h :| h in g.heads[n][i];
      var q := DerivationWalks(g, d, h, k - 1);
      p := q + [n];
      assert (h, n) in FlowEdges(g);
    }
  }

  lemma {:induction false} WalkDerives(g: Flow, p: seq<nat>, d: nat, n: nat)
    requires WellFormed(g) && OneHeadEach(g) && RootWalk(g, p, d, n)
    ensures n in g.nodes && Derives(g, {d}, n, |p| - 1)
    decreases |p|
  {
    assert n in p;
    if |p| > 1 {
      var q := p[..|p| - 1];
      var h := q[|q| - 1];
      WalkDerives(g, q, d, h);
      assert (p[|q| - 1], p[|q|]) in FlowEdges(g);
      if !IsRoot(g, n) {
        var i :| 0 <= i < |g.heads[n]| && h in g.heads[n][i];
        SingletonHead(g.heads[n][i], h);
        assert AllDerive(g, {d}, g.heads[n][i], |p| - 2);
      }
    }
  }

  lemma SingletonHead(heads: set<nat>, h: nat)
    requires |heads| == 1 && h in heads
    ensures heads == {h}
  {
    assert |heads - {h}| == 0;
  }

  /** Without return edges: `d` dominates `n` iff every walk from a root to `n` meets `d`. */
  lemma DominanceIsAllWalks(g: Flow, dom: DomSets, n: nat, d: nat)
    requires WellFormed(g) && OneHeadEach(g) && IsGreatest(g, dom) && n in g.nodes && d in g.nodes
    ensures d in dom[n] <==> !exists p :: RootWalk(g, p, d, n)
  {
    DominanceIsUnavoidability(g, dom, n, d);
    if Derivable(g, {d}, n) {
      var k: nat :| Derives(g, {d}, n, k);
      var p := DerivationWalks(g, d, n, k);
    }
    if p :| RootWalk(g, p, d, n) {
      WalkDerives(g, p, d, n);
    }
  }
}
