/** The set of access types: one entry for every path, kind and type, whose nodes and
    recursion counters grow in place. */
module AccessTypeSets {
  import opened Wrappers
  import opened AccessTypes

  /** What tells entries apart, and what orders them. */
  datatype Key = Key(fields: seq<int>, kind: Kind, typ: Id)

  function KeyOf(a: Access): Key {
    Key(a.fields, a.kind, a.typ)
  }

  // ------------------------------------------------------------- the order

  predicate FieldsLess(a: seq<int>, b: seq<int>) {
    b != [] && (a == [] || a[0] < b[0] || (a[0] == b[0] && FieldsLess(a[1..], b[1..])))
  }

  function Rank(k: Kind): nat {
    match k
    case NoAccess => 0
    case Read => 1
    case Write => 2
    case Ret => 3
    case Del => 4
    case Create => 5
    case File => 6
    case InputStream => 7
    case OutputStream => 8
  }

  predicate Less(a: Key, b: Key) {
    if a.fields == b.fields then if a.kind == b.kind then a.typ < b.typ else Rank(a.kind) < Rank(b.kind)
    else FieldsLess(a.fields, b.fields)
  }

  lemma {:induction false} FieldsAreOrdered(a: seq<int>, b: seq<int>, c: seq<int>)
    ensures FieldsLess(a, b) || FieldsLess(b, a) || a == b
    ensures !(FieldsLess(a, b) && FieldsLess(b, a)) && (a == b ==> !FieldsLess(a, b))
    ensures FieldsLess(a, b) && FieldsLess(b, c) ==> FieldsLess(a, c)
  {
    if a != [] && b != [] && a[0] == b[0] {
      FieldsAreOrdered(a[1..], b[1..], if c == [] then [] else c[1..]);
      assert a == [a[0]] + a[1..] && b == [b[0]] + b[1..];
    }
  }

  /** Up to `k` the paths agree; there `a` ends or has the smaller field. */
  predicate DecidedAt(a: seq<int>, b: seq<int>, k: nat) {
    k <= |a| && k < |b| && a[..k] == b[..k] && (k == |a| || a[k] < b[k])
  }

  lemma FirstDecides(a: seq<int>, b: seq<int>, k: nat)
    requires DecidedAt(a, b, k)
    ensures b != [] && (k == 0 ==> a == [] || a[0] < b[0]) && (k > 0 ==> a != [] && a[0] == b[0])
  {
    assert k > 0 ==> a[..k][0] == b[..k][0];
  }

  /** Paths are ordered by their first different field, and a path in front of its extensions. */
  lemma {:induction false} FieldsLessMeans(a: seq<int>, b: seq<int>)
    ensures FieldsLess(a, b) <==> exists k: nat :: DecidedAt(a, b, k)
  {
    if a != [] && b != [] && a[0] == b[0] {
      FieldsLessMeans(a[1..], b[1..]);
      if k: nat :| DecidedAt(a[1..], b[1..], k) {
        assert a[..k + 1] == [a[0]] + a[1..][..k] && b[..k + 1] == [b[0]] + b[1..][..k];
        assert DecidedAt(a, b, k + 1);
      }
      if k: nat :| DecidedAt(a, b, k) {
        assert k > 0 && a[1..][..k - 1] == a[..k][1..] && b[1..][..k - 1] == b[..k][1..];
        assert DecidedAt(a[1..], b[1..], k - 1);
      }
    } else if b != [] && (a == [] || a[0] < b[0]) {
      assert DecidedAt(a, b, 0);
    } else if k: nat :| DecidedAt(a, b, k) {
      FirstDecides(a, b, k);
    }
  }

  /** A strict total order on keys: the ordered set finds an entry exactly by its key,
      which nodes and counters are no part of. */
  lemma OrderIsTotal(a: Key, b: Key, c: Key)
    ensures Less(a, b) || Less(b, a) || a == b
    ensures !(Less(a, b) && Less(b, a)) && (a == b ==> !Less(a, b))
    ensures Less(a, b) && Less(b, c) ==> Less(a, c)
  {
    FieldsAreOrdered(a.fields, b.fields, c.fields);
    FieldsAreOrdered(b.fields, c.fields, a.fields);
  }

  // ------------------------------------------------------------- insertions

  type Entries = map<Key, Access>

  /** The first access type with a key stays; later ones raise its counters. */
  function Found(m: Entries, at: Access): (r: Entries)
    ensures KeyOf(at) in r
  {
    var k := KeyOf(at);
    m[k := if k in m then m[k].(visits := Larger(m[k].visits, at.visits)) else at]
  }

  function WithNodes(m: Entries, k: Key, nodes: set<Id>): Entries
    requires k in m
  {
    m[k := m[k].(icfg := m[k].icfg + nodes)]
  }

  function Inserted(m: Entries, at: Access, nodes: set<Id>): Entries {
    WithNodes(Found(m, at), KeyOf(at), nodes)
  }

  datatype Insertion = Insertion(at: Access, nodes: set<Id>)

  function Run(ops: seq<Insertion>): Entries {
    if ops == [] then map[] else Inserted(Run(ops[..|ops| - 1]), ops[|ops| - 1].at, ops[|ops| - 1].nodes)
  }

  // ------------------------------------------------------------- what is in the set

  predicate At(ops: seq<Insertion>, i: int, k: Key) {
    0 <= i < |ops| && KeyOf(ops[i].at) == k
  }

  ghost predicate Occurs(ops: seq<Insertion>, k: Key) {
    exists i :: At(ops, i, k)
  }

  ghost predicate IsFirst(ops: seq<Insertion>, i: int, k: Key) {
    At(ops, i, k) && forall j :: 0 <= j < i ==> !At(ops, j, k)
  }

  /** The nodes that came with the insertions with key `k`. */
  function Nodes(ops: seq<Insertion>, k: Key): set<Id> {
    if ops == [] then {}
    else
      var last := ops[|ops| - 1];
      Nodes(ops[..|ops| - 1], k) + if KeyOf(last.at) == k then last.nodes else {}
  }

  /** The largest counters of the insertions with key `k`. */
  function Counters(ops: seq<Insertion>, k: Key): Visits {
    if ops == [] then map[]
    else
      var last, before := ops[|ops| - 1], Counters(ops[..|ops| - 1], k);
      if KeyOf(last.at) == k then Larger(before, last.at.visits) else before
  }

  /** The entry that insertion `i` began and all insertions completed. */
  function Entry(ops: seq<Insertion>, i: nat, k: Key): Access
    requires i < |ops|
  {
    ops[i].at.(icfg := ops[i].at.icfg + Nodes(ops, k), visits := Counters(ops, k))
  }

  lemma LargerThanNothing(v: Visits)
    ensures Larger(map[], v) == v
  {
    assert Larger(map[], v).Keys == v.Keys;
  }

  lemma AtFront(ops: seq<Insertion>, k: Key)
    requires ops != []
    ensures forall i :: 0 <= i < |ops| - 1 ==> (At(ops, i, k) <==> At(ops[..|ops| - 1], i, k))
    ensures Occurs(ops, k) <==> Occurs(ops[..|ops| - 1], k) || KeyOf(ops[|ops| - 1].at) == k
  {
    var front, n := ops[..|ops| - 1], |ops| - 1;
    if Occurs(front, k) {
      var i :| At(front, i, k);
      assert At(ops, i, k);
    }
    if KeyOf(ops[n].at) == k {
      assert At(ops, n, k);
    }
    if Occurs(ops, k) {
      var i :| At(ops, i, k);
      assert i < n ==> At(front, i, k);
    }
  }

  /** Exactly the keys inserted are in the set, and every entry is the first access
      type inserted with its key, with all nodes and the largest counters. Keys never
      change in place. */
  lemma {:induction false} EntryIs(ops: seq<Insertion>, k: Key) returns (i: int)
    ensures k in Run(ops) <==> Occurs(ops, k)
    ensures k in Run(ops) ==> IsFirst(ops, i, k) && Run(ops)[k] == Entry(ops, i, k) && KeyOf(Run(ops)[k]) == k
    ensures !Occurs(ops, k) ==> Nodes(ops, k) == {} && Counters(ops, k) == map[]
  {
    i := 0;
    if ops != [] {
      var front, n := ops[..|ops| - 1], |ops| - 1;
      i := EntryIs(front, k);
      AtFront(ops, k);
      if k !in Run(front) && KeyOf(ops[n].at) == k {
        i := n;
        LargerThanNothing(ops[n].at.visits);
        NoneBefore(ops, k);
      }
    }
  }

  lemma NoneBefore(ops: seq<Insertion>, k: Key)
    requires ops != [] && !Occurs(ops[..|ops| - 1], k) && KeyOf(ops[|ops| - 1].at) == k
    ensures IsFirst(ops, |ops| - 1, k)
  {
    forall j | 0 <= j < |ops| - 1
      ensures !At(ops, j, k)
    {
      AtFront(ops, k);
      assert !At(ops[..|ops| - 1], j, k);
    }
  }

  // ------------------------------------------------------------- order and repetition

  /** The same insertions, in any order and any number. */
  ghost predicate SameInsertions(s: seq<Insertion>, t: seq<Insertion>) {
    forall op :: op in s <==> op in t
  }

  lemma {:induction false} NodeIs(ops: seq<Insertion>, k: Key, x: Id)
    ensures x in Nodes(ops, k) <==> exists op :: op in ops && KeyOf(op.at) == k && x in op.nodes
  {
    if ops != [] {
      NodeIs(ops[..|ops| - 1], k, x);
    }
  }

  ghost predicate HasCounter(op: Insertion, k: Key, p: Followed) {
    KeyOf(op.at) == k && p in op.at.visits
  }

  lemma {:induction false} CounterIs(ops: seq<Insertion>, k: Key, p: Followed)
    ensures p in Counters(ops, k) <==> exists op :: op in ops && HasCounter(op, k, p)
    ensures forall op :: op in ops && HasCounter(op, k, p) ==> op.at.visits[p] <= Count(Counters(ops, k), p)
    ensures p in Counters(ops, k) ==> exists op ::
              op in ops && HasCounter(op, k, p) && op.at.visits[p] == Counters(ops, k)[p]
  {
    if ops != [] {
      var last := ops[|ops| - 1];
      CounterIs(ops[..|ops| - 1], k, p);
      assert last in ops;
    }
  }

  lemma SameCounters(s: seq<Insertion>, t: seq<Insertion>, k: Key)
    requires SameInsertions(s, t)
    ensures Counters(s, k) == Counters(t, k)
  {
    forall p
      ensures p in Counters(s, k) <==> p in Counters(t, k)
      ensures Count(Counters(s, k), p) == Count(Counters(t, k), p)
    {
      CounterIs(s, k, p);
      CounterIs(t, k, p);
    }
    forall p | p in Counters(s, k)
      ensures Counters(s, k)[p] == Counters(t, k)[p]
    {
      assert Counters(s, k)[p] == Count(Counters(s, k), p);
    }
  }

  lemma SameNodes(s: seq<Insertion>, t: seq<Insertion>, k: Key)
    requires SameInsertions(s, t)
    ensures Nodes(s, k) == Nodes(t, k)
  {
    forall x
      ensures x in Nodes(s, k) <==> x in Nodes(t, k)
    {
      NodeIs(s, k, x);
      NodeIs(t, k, x);
    }
  }

  lemma SameOccurrence(s: seq<Insertion>, t: seq<Insertion>, k: Key)
    requires SameInsertions(s, t)
    ensures Occurs(s, k) ==> Occurs(t, k)
  {
    if Occurs(s, k) {
      var i :| At(s, i, k);
      assert s[i] in t;
      var j :| 0 <= j < |t| && t[j] == s[i];
      assert At(t, j, k);
    }
  }

  /** What an access type brings along by itself adds nothing to the nodes inserted. */
  ghost predicate NothingOfItsOwn(ops: seq<Insertion>, k: Key) {
    forall op :: op in ops && KeyOf(op.at) == k ==> op.at.icfg <= Nodes(ops, k)
  }

  /** Keys and counters do not depend on order or repetition, and neither do the nodes
      of an entry whose access types bring along nothing of their own. */
  lemma InsertionsCommute(s: seq<Insertion>, t: seq<Insertion>, k: Key)
    requires SameInsertions(s, t)
    ensures k in Run(s) <==> k in Run(t)
    ensures k in Run(s) ==> Run(s)[k].visits == Run(t)[k].visits
    ensures k in Run(s) && NothingOfItsOwn(s, k) ==> Run(s)[k].icfg == Run(t)[k].icfg == Nodes(s, k)
  {
    SameOccurrence(s, t, k);
    SameOccurrence(t, s, k);
    var i := EntryIs(s, k);
    var j := EntryIs(t, k);
    if k in Run(s) {
      SameCounters(s, t, k);
      SameNodes(s, t, k);
      assert s[i] in s && t[j] in s;
    }
  }

  /** The nodes an entry gets when `op` comes first. */
  function NodesFrom(ops: seq<Insertion>, op: Insertion): set<Id> {
    op.at.icfg + Nodes(ops, KeyOf(op.at))
  }

  /** An insertion can be repeated at the front. */
  lemma InFront(ops: seq<Insertion>, op: Insertion)
    requires op in ops
    ensures SameInsertions(ops, [op] + ops) && KeyOf(op.at) in Run([op] + ops)
    ensures Run([op] + ops)[KeyOf(op.at)].icfg == NodesFrom(ops, op)
  {
    var k := KeyOf(op.at);
    assert At([op] + ops, 0, k);
    var i := EntryIs([op] + ops, k);
    assert i == 0;
    SameNodes(ops, [op] + ops, k);
  }

  ghost predicate NodesAreStable(ops: seq<Insertion>, k: Key) {
    forall t {:trigger Run(t)} :: SameInsertions(ops, t) ==>
      k in Run(t) && k in Run(ops) && Run(t)[k].icfg == Run(ops)[k].icfg
  }

  ghost predicate OneOutcome(ops: seq<Insertion>, k: Key) {
    forall a, b {:trigger NodesFrom(ops, a), NodesFrom(ops, b)} ::
      a in ops && b in ops && KeyOf(a.at) == k && KeyOf(b.at) == k ==> NodesFrom(ops, a) == NodesFrom(ops, b)
  }

  /** The nodes of an entry are the same for every order and repetition exactly when
      all access types inserted with its key lead to the same nodes. */
  lemma NodesCommuteIff(ops: seq<Insertion>, k: Key)
    requires Occurs(ops, k)
    ensures NodesAreStable(ops, k) <==> OneOutcome(ops, k)
  {
    if NodesAreStable(ops, k) {
      forall a, b | a in ops && b in ops && KeyOf(a.at) == k && KeyOf(b.at) == k
        ensures NodesFrom(ops, a) == NodesFrom(ops, b)
      {
        InFront(ops, a);
        InFront(ops, b);
      }
    }
    if OneOutcome(ops, k) {
      OneOutcomeIsStable(ops, k);
    }
  }

  lemma OneOutcomeIsStable(ops: seq<Insertion>, k: Key)
    requires Occurs(ops, k) && OneOutcome(ops, k)
    ensures NodesAreStable(ops, k)
  {
    var i := EntryIs(ops, k);
    forall t | SameInsertions(ops, t)
      ensures k in Run(t) && Run(t)[k].icfg == Run(ops)[k].icfg
    {
      SameOccurrence(ops, t, k);
      var j := EntryIs(t, k);
      SameNodes(ops, t, k);
      assert ops[i] in ops && t[j] in ops;
      assert NodesFrom(ops, ops[i]) == NodesFrom(ops, t[j]);
    }
  }

  /** An access type that has node `n` already, inserted with node 0. */
  function WithNode(n: Id): Insertion {
    Insertion(Access({n}, [], Read, 0, 0, false, [], NoAccess, 0, 0, 0, map[]), {0})
  }

  /** Two access types with the same key and a node of their own each, inserted with the
      node of a function's exit: the first one's own node stays, the other's is lost. */
  lemma FirstNodesWin()
    ensures var k, s, t := KeyOf(WithNode(1).at), [WithNode(1), WithNode(2)], [WithNode(2), WithNode(1)];
            && SameInsertions(s, t) && !OneOutcome(s, k)
            && k in Run(s) && k in Run(t) && Run(s)[k].icfg == {0, 1} && Run(t)[k].icfg == {0, 2}
  {
    var k, s := KeyOf(WithNode(1).at), [WithNode(1), WithNode(2)];
    RunOfTwo(WithNode(1), WithNode(2), k);
    RunOfTwo(WithNode(2), WithNode(1), k);
    assert WithNode(1) in s && WithNode(2) in s && 2 !in NodesFrom(s, WithNode(1));
    assert 2 in NodesFrom(s, WithNode(2));
  }

  lemma RunOfTwo(a: Insertion, b: Insertion, k: Key)
    requires KeyOf(a.at) == KeyOf(b.at) == k
    ensures Nodes([a, b], k) == a.nodes + b.nodes
    ensures k in Run([a, b]) && Run([a, b])[k].icfg == a.at.icfg + a.nodes + b.nodes
  {
    assert [a, b][..1] == [a] && [a][..0] == [];
    assert Nodes([a], k) == a.nodes && Run([a])[k].icfg == a.at.icfg + a.nodes;
  }

  // ------------------------------------------------------------- the object

  function Elements(s: seq<Id>): set<Id> {
    set n | n in s
  }

  lemma NoNodes(m: Entries, k: Key)
    requires k in m
    ensures WithNodes(m, k, {}) == m
  {
    assert m[k].icfg + {} == m[k].icfg;
  }

  lemma MoreNodes(m: Entries, k: Key, nodes: seq<Id>, i: nat)
    requires k in m && i < |nodes|
    ensures WithNodes(WithNodes(m, k, Elements(nodes[..i])), k, {nodes[i]}) == WithNodes(m, k, Elements(nodes[..i + 1]))
  {
    assert Elements(nodes[..i + 1]) == Elements(nodes[..i]) + {nodes[i]};
    assert m[k].icfg + Elements(nodes[..i]) + {nodes[i]} == m[k].icfg + Elements(nodes[..i + 1]);
  }

  class AccessTypeSet {
    var ats: Entries

    ghost predicate Valid()
      reads this
    {
      forall k :: k in ats ==> KeyOf(ats[k]) == k
    }

    constructor ()
      ensures Valid() && ats == map[]
    {
      ats := map[];
    }

    /** Find the entry or begin it, and fold in the counters. */
    method FindOrInsert(at: Access) returns (k: Key)
      requires Valid()
      modifies this
      ensures Valid() && k == KeyOf(at) && k in ats && ats == Found(old(ats), at)
    {
      k := KeyOf(at);
      if k in ats {
        ats := ats[k := ats[k].(visits := Larger(ats[k].visits, at.visits))];
      } else {
        ats := ats[k := at];
      }
    }

    method AddICFGNode(k: Key, node: Id)
      requires Valid() && k in ats
      modifies this
      ensures Valid() && ats == WithNodes(old(ats), k, {node})
    {
      ats := ats[k := ats[k].(icfg := ats[k].icfg + {node})];
    }

    method Insert(at: Access, inst: Option<Id>) returns (k: Key)
      requires Valid()
      modifies this
      ensures Valid() && k == KeyOf(at) && k in ats
      ensures ats == Inserted(old(ats), at, if inst.Some? then {inst.value} else {})
    {
      k := FindOrInsert(at);
      NoNodes(ats, k);
      if inst.Some? {
        AddICFGNode(k, inst.value);
      }
    }

    method InsertNodes(at: Access, nodes: seq<Id>) returns (k: Key)
      requires Valid()
      modifies this
      ensures Valid() && k == KeyOf(at) && k in ats && ats == Inserted(old(ats), at, Elements(nodes))
    {
      k := FindOrInsert(at);
      ghost var found := ats;
      NoNodes(found, k);
      assert Elements(nodes[..0]) == {};
      for i := 0 to |nodes|
        invariant Valid() && k in ats && ats == WithNodes(found, k, Elements(nodes[..i]))
      {
        MoreNodes(found, k, nodes, i);
        AddICFGNode(k, nodes[i]);
      }
      assert nodes[..|nodes|] == nodes;
    }
  }
}
