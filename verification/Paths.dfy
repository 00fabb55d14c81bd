/** Walks and reachability in a finite directed graph given by its set of edges,
    and the strongly connected components they define. */
module Paths {

  /** The indices below `n`. */
  ghost function Below(n: nat): (s: set<nat>)
    ensures forall v: nat :: v in s <==> v < n
    ensures |s| == n
  {
    if n == 0 then {} else Below(n - 1) + {n - 1}
  }

  /** `p` is a walk along edges of `E` that starts at `u` and ends at `v`. */
  ghost predicate Walk<T>(E: set<(T, T)>, p: seq<T>, u: T, v: T) {
    && |p| > 0 && p[0] == u && p[|p| - 1] == v
    && forall i :: 0 <= i < |p| - 1 ==> (p[i], p[i + 1]) in E
  }

  ghost predicate Reach<T(!new)>(E: set<(T, T)>, u: T, v: T) {
    exists p :: Walk(E, p, u, v)
  }

  lemma ReachRefl<T(!new)>(E: set<(T, T)>, u: T)
    ensures Reach(E, u, u)
  {
    assert Walk(E, [u], u, u);
  }

  lemma ReachEdge<T(!new)>(E: set<(T, T)>, u: T, v: T)
    requires (u, v) in E
    ensures Reach(E, u, v)
  {
    assert Walk(E, [u, v], u, v);
  }

  lemma WalkJoin<T>(E: set<(T, T)>, p: seq<T>, q: seq<T>, u: T, v: T, w: T)
    requires Walk(E, p, u, v) && Walk(E, q, v, w)
    ensures Walk(E, p + q[1..], u, w)
  {
    var r := p + q[1..];
    forall i | 0 <= i < |r| - 1
      ensures (r[i], r[i + 1]) in E
    {
      if i >= |p| - 1 {
        var j := i - (|p| - 1);
        assert r[i] == q[j] && r[i + 1] == q[j + 1];
      }
    }
  }

  lemma ReachTrans<T(!new)>(E: set<(T, T)>, u: T, v: T, w: T)
    requires Reach(E, u, v) && Reach(E, v, w)
    ensures Reach(E, u, w)
  {
    var p :| Walk(E, p, u, v);
    var q :| Walk(E, q, v, w);
    WalkJoin(E, p, q, u, v, w);
  }

  lemma ReachSnoc<T(!new)>(E: set<(T, T)>, u: T, v: T, w: T)
    requires Reach(E, u, v) && (v, w) in E
    ensures Reach(E, u, w)
  {
    ReachEdge(E, v, w);
    ReachTrans(E, u, v, w);
  }

  /** A set closed under the edges keeps every walk that starts in it. */
  lemma {:induction false} WalkStaysInside<T>(E: set<(T, T)>, S: set<T>, p: seq<T>, u: T, v: T)
    requires forall x, y :: x in S && (x, y) in E ==> y in S
    requires u in S && Walk(E, p, u, v)
    ensures v in S
  {
    if |p| > 1 {
      assert (p[0], p[1]) in E;
      WalkStaysInside(E, S, p[1..], p[1], v);
    }
  }

  lemma ReachStaysInside<T(!new)>(E: set<(T, T)>, S: set<T>, u: T, v: T)
    requires forall x, y :: x in S && (x, y) in E ==> y in S
    requires u in S && Reach(E, u, v)
    ensures v in S
  {
    var p :| Walk(E, p, u, v);
    WalkStaysInside(E, S, p, u, v);
  }

  /** The pairs of vertices of `V` the first of which reaches the second. */
  ghost function ReachSet<T(!new)>(E: set<(T, T)>, V: set<T>): set<(T, T)> {
    set u, v | u in V && v in V && Reach(E, u, v) :: (u, v)
  }

  ghost predicate Reflexive<T(!new)>(R: set<(T, T)>, V: set<T>) {
    forall v :: v in V ==> (v, v) in R
  }

  ghost predicate Transitive<T(!new)>(R: set<(T, T)>) {
    forall u, v, w :: (u, v) in R && (v, w) in R ==> (u, w) in R
  }

  lemma Chain<T(!new)>(R: set<(T, T)>, u: T, v: T, w: T)
    requires Transitive(R) && (u, v) in R && (v, w) in R
    ensures (u, w) in R
  {
  }

  lemma ReachSetIsPreorder<T(!new)>(E: set<(T, T)>, V: set<T>)
    ensures Reflexive(ReachSet(E, V), V) && Transitive(ReachSet(E, V))
    ensures forall u, v :: (u, v) in E && u in V && v in V ==> (u, v) in ReachSet(E, V)
  {
    forall v | v in V
      ensures (v, v) in ReachSet(E, V)
    {
      ReachRefl(E, v);
    }
    forall u, v | (u, v) in E && u in V && v in V
      ensures (u, v) in ReachSet(E, V)
    {
      ReachEdge(E, u, v);
    }
    forall u, v, w | (u, v) in ReachSet(E, V) && (v, w) in ReachSet(E, V)
      ensures (u, w) in ReachSet(E, V)
    {
      ReachTrans(E, u, v, w);
    }
  }

  lemma ReachSetStaysInside<T(!new)>(E: set<(T, T)>, V: set<T>, S: set<T>, u: T, v: T)
    requires forall x, y :: x in S && (x, y) in E ==> y in S
    requires u in S && (u, v) in ReachSet(E, V)
    ensures v in S
  {
    ReachStaysInside(E, S, u, v);
  }

  /** The class of `v` under mutual reachability `R`. */
  ghost function Component<T>(R: set<(T, T)>, V: set<T>, v: T): set<T> {
    set w | w in V && (v, w) in R && (w, v) in R
  }

  ghost function Components<T>(R: set<(T, T)>, V: set<T>): set<set<T>> {
    set v | v in V :: Component(R, V, v)
  }

  /** The strongly connected components of the graph with vertices `V` and edges `E`. */
  ghost function Sccs<T(!new)>(E: set<(T, T)>, V: set<T>): set<set<T>> {
    Components(ReachSet(E, V), V)
  }
}
