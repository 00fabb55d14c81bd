/** The summary of one formal parameter, made by following paths through the value-flow
    graph, cut at the limits of depth and recursion. What the nodes and calls do to a
    path is a parameter. A function that calls itself reads the summary it is
    adding to. */
module Summaries {
  import opened Wrappers
  import opened AccessTypes
  import opened AccessTypeSets

  /** Where a value is, how it was accessed, the memory it was stored to (zero: none),
      and the value before. */
  datatype Path = Path(node: Id, at: Access, mem: Id, prev: Id)

  /** What paths are told apart by. */
  datatype VisitKey = VisitKey(node: Id, fields: seq<int>, kind: Kind, di: Id, mem: Id)

  datatype Flags = Flags(isArray: bool, isMallocSize: bool, isFilePath: bool)

  /** What a node or a handler sets. Some handlers also set that there is no array. */
  datatype Mark = Array(value: bool) | MallocSize | FilePath

  datatype ExitKey = ExitKey(node: Id, key: Key)

  /** The entries of a set of access types, each under its key. */
  type Effects = m: Entries | forall k :: k in m ==> KeyOf(m[k]) == k

  datatype Summary = Summary(effects: Effects, exits: map<ExitKey, Access>, flags: Flags)

  /** What a node does to a path, what it records, and what it sets. */
  datatype Local = Local(skip: bool, at: Access, prev: Id, recorded: seq<Insertion>, marks: seq<Mark>)

  datatype CalleeExit = CalleeExit(at: Access, resume: Option<Id>, compatible: bool)

  datatype CalleeEffect = CalleeEffect(at: Access, nodes: set<Id>, compatible: bool)

  /** The effects of a callee: those of another summary, or of the very summary that
      they are merged into, which grows meanwhile. */
  datatype Source = Listed(effects: seq<CalleeEffect>) | Own(compatible: Access -> bool)

  /** One possible callee: what its handler records and sets, its summary for the
      parameter, and whether the argument is the address of something. */
  datatype Callee = Callee(handled: seq<Insertion>, marks: seq<Mark>, source: Source, exits: seq<CalleeExit>,
                           flags: Flags, addressOf: bool)

  /** An edge that may be followed: into a call, back to the callers, or on. */
  datatype Edge = Call(site: Id) | Return | Intra(dst: Id, isLoad: bool)

  datatype Graph = Graph(
    transfer: Path -> Local,
    memory: Path -> Id,
    out: (Path, Id) -> seq<Edge>,
    manyTargets: Id -> bool,
    callees: (Id, Path, Summary) -> seq<Callee>,
    pointer: Id -> bool,
    recursionLimit: nat)

  function KeyOfPath(p: Path): VisitKey {
    VisitKey(p.node, p.at.fields, p.at.kind, p.at.di, p.mem)
  }

  // ------------------------------------------------------------- finiteness

  /** The numbers in use and the field indices that nodes append. */
  datatype Bounds = Bounds(nodes: nat, dis: nat, mems: nat, alphabet: set<int>)

  predicate Over(alphabet: set<int>, fields: seq<int>) {
    forall f :: f in fields ==> f in alphabet
  }

  predicate Drawn(b: Bounds, at: Access) {
    at.di < b.dis && Over(b.alphabet, at.fields)
  }

  predicate InBounds(b: Bounds, p: Path) {
    p.node < b.nodes && p.mem < b.mems && Drawn(b, p.at) && |p.at.fields| <= MAX_FIELD_DEPTH
  }

  ghost predicate Shallow(ops: seq<Insertion>) {
    forall k :: 0 <= k < |ops| ==> |ops[k].at.fields| <= MAX_FIELD_DEPTH + 1
  }

  ghost predicate SummaryFits(b: Bounds, s: Summary) {
    forall x :: x in s.exits ==> Drawn(b, s.exits[x])
  }

  ghost predicate ExitsFit(b: Bounds, exits: seq<CalleeExit>) {
    forall k :: 0 <= k < |exits| ==>
      Drawn(b, exits[k].at) && (exits[k].resume.Some? ==> exits[k].resume.value < b.nodes)
  }

  ghost predicate CallsFit(b: Bounds, callees: seq<Callee>) {
    forall k {:trigger callees[k]} :: 0 <= k < |callees| ==>
      Shallow(callees[k].handled) && ExitsFit(b, callees[k].exits)
  }

  ghost predicate EdgesFit(b: Bounds, edges: seq<Edge>) {
    forall k {:trigger edges[k]} :: 0 <= k < |edges| && edges[k].Intra? ==> edges[k].dst < b.nodes
  }

  /** A node may append any number of fields of a finite alphabet, and records a path
      with one more at most. Edges stay within the graph, and the exits of callees are
      drawn from the same alphabet, provided the summary they may be those of is. */
  ghost predicate WellBehaved(b: Bounds, g: Graph) {
    && (forall p {:trigger g.transfer(p)} :: InBounds(b, p) ==>
        Drawn(b, g.transfer(p).at) && Shallow(g.transfer(p).recorded))
    && (forall p {:trigger g.memory(p)} :: InBounds(b, p) ==> g.memory(p) < b.mems)
    && (forall p, m: nat {:trigger g.out(p, m)} :: InBounds(b, p) && m < b.mems ==> EdgesFit(b, g.out(p, m)))
    && (forall site, p, s {:trigger g.callees(site, p, s)} ::
          InBounds(b, p) && SummaryFits(b, s) ==> CallsFit(b, g.callees(site, p, s)))
    && b.mems > 0
  }

  /** The exits of a summary, as a call resumes behind them. */
  ghost function ExitsOf(s: Summary, keys: set<ExitKey>, resume: ExitKey -> Option<Id>, compatible: Access -> bool)
    : (exits: seq<CalleeExit>)
    requires keys <= s.exits.Keys
    ensures forall e :: e in exits <==>
              exists x :: x in keys && e == CalleeExit(s.exits[x], resume(x), compatible(s.exits[x]))
    decreases |keys|
  {
    if keys == {} then []
    else
      var x :| x in keys;
      [CalleeExit(s.exits[x], resume(x), compatible(s.exits[x]))] + ExitsOf(s, keys - {x}, resume, compatible)
  }

  /** A call of the function to itself: its own effects, and the exits of its summary so
      far. Its flags are set already. */
  ghost function SelfCall(s: Summary, resume: ExitKey -> Option<Id>, compatible: Access -> bool): Callee {
    Callee([], [], Own(compatible), ExitsOf(s, s.exits.Keys, resume, compatible), Flags(false, false, false), false)
  }

  /** The graph in which a site calls the function itself, beside its other callees. */
  ghost function WithSelfCall(g: Graph, self: Id, resume: ExitKey -> Option<Id>, compatible: Access -> bool): Graph {
    g.(callees := (site: Id, p: Path, s: Summary) =>
      g.callees(site, p, s) + if site == self then [SelfCall(s, resume, compatible)] else [])
  }

  lemma SelfCallFits(b: Bounds, s: Summary, resume: ExitKey -> Option<Id>, compatible: Access -> bool)
    requires SummaryFits(b, s) && forall x :: resume(x).Some? ==> resume(x).value < b.nodes
    ensures CallsFit(b, [SelfCall(s, resume, compatible)])
  {
    var exits := ExitsOf(s, s.exits.Keys, resume, compatible);
    forall k | 0 <= k < |exits|
      ensures Drawn(b, exits[k].at) && (exits[k].resume.Some? ==> exits[k].resume.value < b.nodes)
    {
      assert exits[k] in exits;
    }
  }

  /** Functions that call themselves are well behaved, whatever they add to the summary
      that they read. */
  lemma SelfCallsAreWellBehaved(b: Bounds, g: Graph, self: Id, resume: ExitKey -> Option<Id>,
                                compatible: Access -> bool)
    requires WellBehaved(b, g) && forall x :: resume(x).Some? ==> resume(x).value < b.nodes
    ensures WellBehaved(b, WithSelfCall(g, self, resume, compatible))
  {
    var h := WithSelfCall(g, self, resume, compatible);
    forall site, p, s | InBounds(b, p) && SummaryFits(b, s)
      ensures CallsFit(b, h.callees(site, p, s))
    {
      SelfCallFits(b, s, resume, compatible);
      assert CallsFit(b, g.callees(site, p, s));
    }
  }

  ghost function Words(alphabet: set<int>, n: nat): set<seq<int>> {
    if n == 0 then {[]} else Words(alphabet, n - 1) + Longer(Words(alphabet, n - 1), alphabet)
  }

  ghost function Longer(words: set<seq<int>>, alphabet: set<int>): set<seq<int>> {
    set w, f | w in words && f in alphabet :: w + [f]
  }

  lemma IsLonger(words: set<seq<int>>, alphabet: set<int>, w: seq<int>, f: int)
    requires w in words && f in alphabet
    ensures w + [f] in Longer(words, alphabet)
  {
  }

  lemma {:induction false} IsWord(alphabet: set<int>, fields: seq<int>, n: nat)
    requires Over(alphabet, fields) && |fields| <= n
    ensures fields in Words(alphabet, n)
  {
    if n == 0 {
    } else if |fields| < n {
      IsWord(alphabet, fields, n - 1);
    } else {
      IsWord(alphabet, fields[..n - 1], n - 1);
      assert fields[n - 1] in fields;
      IsLonger(Words(alphabet, n - 1), alphabet, fields[..n - 1], fields[n - 1]);
      assert fields == fields[..n - 1] + [fields[n - 1]];
    }
  }

  lemma {:induction false} WordIsOver(alphabet: set<int>, n: nat, w: seq<int>)
    requires w in Words(alphabet, n)
    ensures Over(alphabet, w)
  {
    if n > 0 && w !in Words(alphabet, n - 1) {
      var v, f :| v in Words(alphabet, n - 1) && f in alphabet && w == v + [f];
      WordIsOver(alphabet, n - 1, v);
    } else if n > 0 {
      WordIsOver(alphabet, n - 1, w);
    }
  }

  /** All keys of paths within bounds. */
  ghost function Universe(b: Bounds): set<VisitKey> {
    set n: nat, d: nat, m: nat, k: Kind, w | n < b.nodes && d < b.dis && m < b.mems
                                               && w in Words(b.alphabet, MAX_FIELD_DEPTH)
      :: VisitKey(n, w, k, d, m)
  }

  lemma KeyIsKnown(b: Bounds, p: Path)
    requires InBounds(b, p)
    ensures KeyOfPath(p) in Universe(b)
  {
    IsWord(b.alphabet, p.at.fields, MAX_FIELD_DEPTH);
  }

  // ------------------------------------------------------------- growth

  /** An entry with more nodes and higher counters. */
  ghost predicate Raised(a: Access, b: Access) {
    && a.icfg <= b.icfg && (forall k :: k in a.visits ==> k in b.visits && a.visits[k] <= b.visits[k])
    && b == a.(icfg := b.icfg, visits := b.visits)
  }

  ghost predicate EffectGrows(s: Summary, t: Summary, k: Key) {
    k in s.effects ==> k in t.effects && Raised(s.effects[k], t.effects[k])
  }

  ghost predicate ExitStays(s: Summary, t: Summary, x: ExitKey) {
    x in s.exits ==> x in t.exits && t.exits[x] == s.exits[x]
  }

  /** Effects and exits are only added; entries of effects are raised, exits stay. */
  ghost predicate Grows(s: Summary, t: Summary) {
    && (forall k {:trigger EffectGrows(s, t, k)} :: EffectGrows(s, t, k))
    && (forall x {:trigger ExitStays(s, t, x)} :: ExitStays(s, t, x))
  }

  lemma GrowsRefl(s: Summary)
    ensures Grows(s, s)
  {
  }

  lemma GrownKeys(s: Summary, t: Summary)
    requires Grows(s, t)
    ensures s.effects.Keys <= t.effects.Keys && s.exits.Keys <= t.exits.Keys
  {
    forall k | k in s.effects
      ensures k in t.effects
    {
      assert EffectGrows(s, t, k);
    }
    forall x | x in s.exits
      ensures x in t.exits
    {
      assert ExitStays(s, t, x);
    }
  }

  /** Flags do not matter. */
  lemma FlagsAside(s: Summary, t: Summary, u: Summary)
    requires Grows(s, t) && t.effects == u.effects && t.exits == u.exits
    ensures Grows(s, u) && Grows(t, u)
  {
    forall k
      ensures EffectGrows(s, u, k)
    {
      assert EffectGrows(s, t, k);
    }
    forall x
      ensures ExitStays(s, u, x)
    {
      assert ExitStays(s, t, x);
    }
  }

  lemma RaisedTrans(a: Access, b: Access, c: Access)
    requires Raised(a, b) && Raised(b, c)
    ensures Raised(a, c)
  {
  }

  lemma GrowsTrans(s: Summary, t: Summary, u: Summary)
    requires Grows(s, t) && Grows(t, u)
    ensures Grows(s, u)
  {
    forall k
      ensures EffectGrows(s, u, k)
    {
      assert EffectGrows(s, t, k) && EffectGrows(t, u, k);
    }
    forall x
      ensures ExitStays(s, u, x)
    {
      assert ExitStays(s, t, x) && ExitStays(t, u, x);
    }
  }

  function Record(s: Summary, op: Insertion): Summary {
    s.(effects := Inserted(s.effects, op.at, op.nodes))
  }

  /** How often a field is followed in both together. */
  function Together(v: Visits, w: Visits, f: Followed): nat {
    (if f in v then v[f] else 0) + (if f in w then w[f] else 0)
  }

  /** There is an effect with this key, these nodes at least, and counters that are no
      lower. */
  ghost predicate Holds(t: Summary, k: Key, nodes: set<Id>, v: Visits, w: Visits) {
    && k in t.effects && nodes <= t.effects[k].icfg
    && forall f {:trigger NoLower(t.effects[k].visits, v, w, f)} :: NoLower(t.effects[k].visits, v, w, f)
  }

  ghost predicate NoLower(u: Visits, v: Visits, w: Visits, f: Followed) {
    f in v || f in w ==> f in u && Together(v, w, f) <= u[f]
  }

  lemma StillHolds(t: Summary, u: Summary, k: Key, nodes: set<Id>, v: Visits, w: Visits)
    requires Holds(t, k, nodes, v, w) && Grows(t, u)
    ensures Holds(u, k, nodes, v, w)
  {
    assert EffectGrows(t, u, k);
    forall f
      ensures NoLower(u.effects[k].visits, v, w, f)
    {
      assert NoLower(t.effects[k].visits, v, w, f);
    }
  }

  ghost predicate RecordedIn(t: Summary, op: Insertion) {
    Holds(t, Key(op.at.fields, op.at.kind, op.at.typ), op.nodes, op.at.visits, map[])
  }

  lemma RecordGrows(s: Summary, op: Insertion)
    ensures var t := Record(s, op);
            && Grows(s, t) && t.exits == s.exits && t.effects.Keys == s.effects.Keys + {KeyOf(op.at)}
            && Holds(t, KeyOf(op.at), op.nodes, op.at.visits, map[])
  {
  }

  function RecordedAll(s: Summary, ops: seq<Insertion>): Summary {
    if ops == [] then s else Record(RecordedAll(s, ops[..|ops| - 1]), ops[|ops| - 1])
  }

  method RecordAll(s: Summary, ops: seq<Insertion>) returns (t: Summary)
    ensures t == RecordedAll(s, ops)
  {
    t := s;
    for i := 0 to |ops|
      invariant t == RecordedAll(s, ops[..i])
    {
      assert ops[..i + 1][..i] == ops[..i];
      t := Record(t, ops[i]);
    }
    assert ops[..|ops|] == ops;
  }

  lemma {:induction false} RecordedGrows(s: Summary, ops: seq<Insertion>)
    ensures var t := RecordedAll(s, ops); Grows(s, t) && t.exits == s.exits && Recorded(ops, t)
  {
    if ops == [] {
      GrowsRefl(s);
    } else {
      var n := |ops| - 1;
      var t := RecordedAll(s, ops[..n]);
      var u := Record(t, ops[n]);
      RecordedGrows(s, ops[..n]);
      RecordGrows(t, ops[n]);
      GrowsTrans(s, t, u);
      RecordedMore(ops, t, u);
    }
  }

  lemma RecordedMore(ops: seq<Insertion>, t: Summary, u: Summary)
    requires ops != [] && Recorded(ops[..|ops| - 1], t) && Grows(t, u) && RecordedIn(u, ops[|ops| - 1])
    ensures Recorded(ops, u)
  {
    StillRecorded(ops[..|ops| - 1], t, u);
    forall i | 0 <= i < |ops|
      ensures RecordedIn(u, ops[i])
    {
      assert i < |ops| - 1 ==> ops[..|ops| - 1][i] == ops[i];
    }
  }

  lemma StillRecorded(ops: seq<Insertion>, t: Summary, u: Summary)
    requires Recorded(ops, t) && Grows(t, u)
    ensures Recorded(ops, u)
  {
    forall i | 0 <= i < |ops|
      ensures RecordedIn(u, ops[i])
    {
      assert RecordedIn(t, ops[i]);
      StillHolds(t, u, Key(ops[i].at.fields, ops[i].at.kind, ops[i].at.typ), ops[i].nodes, ops[i].at.visits, map[]);
    }
  }

  function Or(f: Flags, g: Flags): Flags {
    Flags(f.isArray || g.isArray, f.isMallocSize || g.isMallocSize, f.isFilePath || g.isFilePath)
  }

  /** The last mark decides whether there is an array. */
  function Marked(f: Flags, marks: seq<Mark>): Flags {
    if marks == [] then f
    else
      var before := Marked(f, marks[..|marks| - 1]);
      match marks[|marks| - 1]
      case Array(value) => before.(isArray := value)
      case MallocSize => before.(isMallocSize := true)
      case FilePath => before.(isFilePath := true)
  }

  /** There is an array after `marks`: said so last, or before and never denied. */
  ghost predicate ArrayAfter(before: bool, marks: seq<Mark>) {
    || (before && Array(false) !in marks)
    || exists i {:trigger marks[i]} :: 0 <= i < |marks| && marks[i] == Array(true) && Array(false) !in marks[i..]
  }

  lemma {:induction false} MarksDecide(f: Flags, marks: seq<Mark>)
    ensures Marked(f, marks).isMallocSize <==> f.isMallocSize || MallocSize in marks
    ensures Marked(f, marks).isFilePath <==> f.isFilePath || FilePath in marks
    ensures Marked(f, marks).isArray <==> ArrayAfter(f.isArray, marks)
  {
    if marks != [] {
      var n := |marks| - 1;
      MarksDecide(f, marks[..n]);
      assert forall m :: m in marks <==> m in marks[..n] || m == marks[n];
      ArrayAfterLast(f.isArray, marks);
    }
  }

  lemma ArrayAfterLast(before: bool, marks: seq<Mark>)
    requires marks != []
    ensures var n := |marks| - 1;
            ArrayAfter(before, marks) <==> if marks[n].Array? then marks[n].value else ArrayAfter(before, marks[..n])
  {
    var n := |marks| - 1;
    assert forall m :: m in marks <==> m in marks[..n] || m == marks[n];
    forall i | 0 <= i < n
      ensures Array(false) in marks[i..] <==> Array(false) in marks[..n][i..] || marks[n] == Array(false)
    {
      assert marks[i..] == marks[..n][i..] + [marks[n]];
    }
    if i :| 0 <= i < n && marks[..n][i] == Array(true) && Array(false) !in marks[..n][i..] {
      assert marks[i] == Array(true);
    }
    if i :| 0 <= i < n && marks[i] == Array(true) && Array(false) !in marks[i..] {
      assert marks[..n][i] == Array(true);
    }
    assert marks[n..] == [marks[n]];
  }

  /** Sizes tell whether anything was added. */
  lemma EqualSizesMeanEqual(s: Summary, t: Summary)
    requires Grows(s, t)
    ensures |s.effects| == |t.effects| <==> s.effects.Keys == t.effects.Keys
    ensures |s.exits| == |t.exits| <==> s.exits.Keys == t.exits.Keys
  {
    GrownKeys(s, t);
    SubsetOfSameSize(s.effects.Keys, t.effects.Keys);
    SubsetOfSameSize(s.exits.Keys, t.exits.Keys);
  }

  lemma SubsetOfSameSize<T>(a: set<T>, c: set<T>)
    requires a <= c
    ensures |a| <= |c| && (|a| == |c| <==> a == c)
  {
    var rest := c - a;
    assert c == a + rest;
  }

  // ------------------------------------------------------------- what expanding a path must leave behind

  /** A stretch of the run, from one summary to another, and the keys visited or waiting
      at its end. */
  datatype Seen = Seen(base: Summary, top: Summary, keys: set<VisitKey>)

  function KeysOf(paths: seq<Path>): set<VisitKey> {
    set p | p in paths :: KeyOfPath(p)
  }

  lemma KeysWith(trace: seq<Path>, p: Path)
    ensures KeysOf(trace + [p]) == KeysOf(trace) + {KeyOfPath(p)}
  {
    forall q | q in trace + [p]
      ensures q in trace || q == p
    {
    }
    forall q | q in trace || q == p
      ensures q in trace + [p]
    {
      assert p in [p];
    }
  }

  ghost predicate Within(a: Seen, b: Seen) {
    a.base == b.base && Grows(a.top, b.top) && a.keys <= b.keys
  }

  ghost predicate Recorded(ops: seq<Insertion>, t: Summary) {
    forall k {:trigger ops[k]} :: 0 <= k < |ops| ==> RecordedIn(t, ops[k])
  }

  function Composition(g: Graph, p: Path, many: bool, at: Access, compatible: bool): Option<Access> {
    if (many && |at.fields| > 0) || !compatible then None else Merge(g.recursionLimit, p.at, at)
  }

  /** What tracking resumes with behind a call. */
  function Resumed(g: Graph, p: Path, many: bool, e: CalleeExit): Option<Path> {
    var c := Composition(g, p, many, e.at, e.compatible);
    if e.resume.None? || c.None? then None else Some(Path(e.resume.value, c.value, 0, 0))
  }

  /** What is composed with the path: types that fit, of a call with too many targets
      only what is no field, as long as there are at most six fields and none is followed
      too often. */
  ghost predicate Composable(g: Graph, p: Path, many: bool, at: Access, compatible: bool) {
    && compatible && (many ==> at.fields == []) && |p.at.fields| + |at.fields| <= 6
    && forall f {:trigger Together(p.at.visits, at.visits, f)} :: f in at.visits ==>
         Together(p.at.visits, at.visits, f) <= g.recursionLimit
  }

  function JoinedKey(p: Path, at: Access): Key {
    Key(p.at.fields + at.fields, at.kind, p.at.typ)
  }

  /** `c` is the path followed by `at`. */
  ghost predicate Joins(p: Path, at: Access, c: Access) {
    && c.fields == p.at.fields + at.fields && c.kind == at.kind && c.typ == p.at.typ && c.icfg == p.at.icfg
    && c.di == (if at.fields == [] then p.at.di else at.di)
    && c.visits.Keys == p.at.visits.Keys + at.visits.Keys
    && forall f {:trigger Together(p.at.visits, at.visits, f)} :: f in c.visits ==>
         c.visits[f] == Together(p.at.visits, at.visits, f)
  }

  lemma CompositionMeans(g: Graph, p: Path, many: bool, at: Access, compatible: bool)
    ensures var c := Composition(g, p, many, at, compatible);
            && (c.Some? <==> Composable(g, p, many, at, compatible))
            && (c.Some? ==> Joins(p, at, c.value) && KeyOf(c.value) == JoinedKey(p, at))
  {
    forall f
      ensures Together(p.at.visits, at.visits, f) == Count(p.at.visits, f) + Count(at.visits, f)
    {
    }
  }

  ghost predicate EffectDone(g: Graph, p: Path, many: bool, e: CalleeEffect, t: Summary) {
    Composable(g, p, many, e.at, e.compatible) ==> Holds(t, JoinedKey(p, e.at), e.nodes, p.at.visits, e.at.visits)
  }

  ghost predicate EffectsDone(g: Graph, p: Path, many: bool, effects: seq<CalleeEffect>, t: Summary) {
    forall i {:trigger effects[i]} :: 0 <= i < |effects| ==> EffectDone(g, p, many, effects[i], t)
  }

  lemma EffectsStayDone(g: Graph, p: Path, many: bool, effects: seq<CalleeEffect>, t: Summary, u: Summary)
    requires EffectsDone(g, p, many, effects, t) && Grows(t, u)
    ensures EffectsDone(g, p, many, effects, u)
  {
    forall i | 0 <= i < |effects|
      ensures EffectDone(g, p, many, effects[i], u)
    {
      var e := effects[i];
      assert EffectDone(g, p, many, e, t);
      if Composable(g, p, many, e.at, e.compatible) {
        StillHolds(t, u, JoinedKey(p, e.at), e.nodes, p.at.visits, e.at.visits);
      }
    }
  }

  /** The own effect with key `k` was composed with the path when it looked like `e`. */
  ghost predicate ComposedAs(g: Graph, p: Path, many: bool, compatible: Access -> bool, t: Summary, k: Key, e: Access) {
    k in t.effects && Raised(e, t.effects[k]) && EffectDone(g, p, many, CalleeEffect(e, e.icfg, compatible(e)), t)
  }

  lemma StaysComposed(g: Graph, p: Path, many: bool, compatible: Access -> bool, t: Summary, u: Summary, k: Key,
                      e: Access)
    requires ComposedAs(g, p, many, compatible, t, k, e) && Grows(t, u)
    ensures ComposedAs(g, p, many, compatible, u, k, e)
  {
    assert EffectGrows(t, u, k);
    RaisedTrans(e, t.effects[k], u.effects[k]);
    if Composable(g, p, many, e, compatible(e)) {
      StillHolds(t, u, JoinedKey(p, e), e.icfg, p.at.visits, e.visits);
    }
  }

  ghost predicate OwnDone(g: Graph, p: Path, many: bool, compatible: Access -> bool, s: Summary, t: Summary, k: Key)
    requires k in s.effects
  {
    exists e {:trigger ComposedAs(g, p, many, compatible, t, k, e)} ::
      Raised(s.effects[k], e) && ComposedAs(g, p, many, compatible, t, k, e)
  }

  /** All effects of a callee, for its own those it had in `s`, are composed in `t`. */
  ghost predicate SourceDone(g: Graph, p: Path, many: bool, source: Source, s: Summary, t: Summary) {
    match source
    case Listed(effects) => EffectsDone(g, p, many, effects, t)
    case Own(compatible) =>
      forall k {:trigger OwnDone(g, p, many, compatible, s, t, k)} :: k in s.effects ==>
        OwnDone(g, p, many, compatible, s, t, k)
  }

  /** Tracking goes on behind the call. */
  ghost predicate ExitDone(g: Graph, p: Path, many: bool, e: CalleeExit, keys: set<VisitKey>) {
    e.resume.Some? && Composable(g, p, many, e.at, e.compatible) ==>
      VisitKey(e.resume.value, p.at.fields + e.at.fields, e.at.kind,
               if e.at.fields == [] then p.at.di else e.at.di, 0) in keys
  }

  ghost predicate ExitsDone(g: Graph, p: Path, many: bool, exits: seq<CalleeExit>, keys: set<VisitKey>) {
    forall i {:trigger exits[i]} :: 0 <= i < |exits| ==> ExitDone(g, p, many, exits[i], keys)
  }

  ghost predicate CalleeDone(g: Graph, p: Path, many: bool, c: Callee, s: Summary, t: Summary, keys: set<VisitKey>) {
    Recorded(c.handled, t) && SourceDone(g, p, many, c.source, s, t) && ExitsDone(g, p, many, c.exits, keys)
  }

  ghost predicate CalleesDone(g: Graph, p: Path, many: bool, callees: seq<Callee>, s: Summary, t: Summary,
                              keys: set<VisitKey>) {
    forall i {:trigger callees[i]} :: 0 <= i < |callees| ==> CalleeDone(g, p, many, callees[i], s, t, keys)
  }

  function ExitOf(p: Path): ExitKey {
    ExitKey(p.node, KeyOf(p.at))
  }

  /** The call was made with the summary `s`, somewhere within the stretch. */
  ghost predicate CallDone(g: Graph, p: Path, site: Id, seen: Seen, s: Summary) {
    && Grows(seen.base, s) && Grows(s, seen.top)
    && CalleesDone(g, p, g.manyTargets(site), g.callees(site, p, s), s, seen.top, seen.keys)
  }

  ghost predicate EdgeDone(g: Graph, p: Path, mem: Id, e: Edge, seen: Seen) {
    match e
    case Call(site) => exists s {:trigger CallDone(g, p, site, seen, s)} :: CallDone(g, p, site, seen, s)
    case Return => ExitKey(p.node, Key(p.at.fields, p.at.kind, p.at.typ)) in seen.top.exits
    case Intra(dst, isLoad) => VisitKey(dst, p.at.fields, p.at.kind, p.at.di, if isLoad then 0 else mem) in seen.keys
  }

  ghost predicate EdgesDone(g: Graph, p: Path, mem: Id, edges: seq<Edge>, seen: Seen) {
    forall i {:trigger edges[i]} :: 0 <= i < |edges| ==> EdgeDone(g, p, mem, edges[i], seen)
  }

  predicate ExceedsRecursion(v: Visits, limit: nat) {
    exists k :: k in v && v[k] > limit
  }

  /** A path ends where its node says so, or at the limits. */
  predicate Ends(g: Graph, l: Local) {
    l.skip || |l.at.fields| > MAX_FIELD_DEPTH || ExceedsRecursion(l.at.visits, g.recursionLimit)
  }

  /** A path is followed unless its node stops it, it has more than six fields, or one of
      them was followed too often. */
  ghost predicate GoesOn(g: Graph, p: Path) {
    var l := g.transfer(p);
    !l.skip && |l.at.fields| <= 6 && forall f :: f in l.at.visits ==> l.at.visits[f] <= g.recursionLimit
  }

  /** The path as its node leaves it. */
  function Transferred(g: Graph, p: Path): Path {
    p.(at := g.transfer(p).at, prev := g.transfer(p).prev)
  }

  function EdgesOf(g: Graph, p: Path): seq<Edge> {
    g.out(Transferred(g, p), g.memory(p))
  }

  /** The node acted on the path, and all its edges were followed unless the path ends. */
  ghost predicate PathDone(g: Graph, p: Path, seen: Seen) {
    && Recorded(g.transfer(p).recorded, seen.top)
    && (GoesOn(g, p) ==> EdgesDone(g, Transferred(g, p), g.memory(p), EdgesOf(g, p), seen))
  }

  lemma SourceStaysDone(g: Graph, p: Path, many: bool, source: Source, r: Summary, s: Summary, t: Summary, u: Summary)
    requires SourceDone(g, p, many, source, s, t) && Grows(r, s) && Grows(t, u)
    ensures SourceDone(g, p, many, source, r, u)
  {
    if source.Listed? {
      EffectsStayDone(g, p, many, source.effects, t, u);
    } else {
      forall k | k in r.effects
        ensures OwnDone(g, p, many, source.compatible, r, u, k)
      {
        assert EffectGrows(r, s, k);
        assert OwnDone(g, p, many, source.compatible, s, t, k);
        var e :| Raised(s.effects[k], e) && ComposedAs(g, p, many, source.compatible, t, k, e);
        RaisedTrans(r.effects[k], s.effects[k], e);
        StaysComposed(g, p, many, source.compatible, t, u, k, e);
      }
    }
  }

  lemma CalleesStayDone(g: Graph, p: Path, many: bool, callees: seq<Callee>, s: Summary, t: Summary,
                        keys: set<VisitKey>,
                        u: Summary, more: set<VisitKey>)
    requires CalleesDone(g, p, many, callees, s, t, keys) && Grows(t, u) && keys <= more
    ensures CalleesDone(g, p, many, callees, s, u, more)
  {
    GrowsRefl(s);
    GrownKeys(t, u);
    forall i | 0 <= i < |callees|
      ensures CalleeDone(g, p, many, callees[i], s, u, more)
    {
      assert CalleeDone(g, p, many, callees[i], s, t, keys);
      StillRecorded(callees[i].handled, t, u);
      SourceStaysDone(g, p, many, callees[i].source, s, s, t, u);
    }
  }

  lemma EdgesStayDone(g: Graph, p: Path, mem: Id, edges: seq<Edge>, a: Seen, b: Seen)
    requires EdgesDone(g, p, mem, edges, a) && Within(a, b)
    ensures EdgesDone(g, p, mem, edges, b)
  {
    GrownKeys(a.top, b.top);
    forall i | 0 <= i < |edges|
      ensures EdgeDone(g, p, mem, edges[i], b)
    {
      assert EdgeDone(g, p, mem, edges[i], a);
      if edges[i].Call? {
        var site := edges[i].site;
        var s :| CallDone(g, p, site, a, s);
        GrowsTrans(s, a.top, b.top);
        CalleesStayDone(g, p, g.manyTargets(site), g.callees(site, p, s), s, a.top, a.keys, b.top, b.keys);
        assert CallDone(g, p, site, b, s);
      }
    }
  }

  lemma PathStaysDone(g: Graph, p: Path, a: Seen, b: Seen)
    requires PathDone(g, p, a) && Within(a, b)
    ensures PathDone(g, p, b)
  {
    StillRecorded(g.transfer(p).recorded, a.top, b.top);
    if GoesOn(g, p) {
      EdgesStayDone(g, Transferred(g, p), g.memory(p), EdgesOf(g, p), a, b);
    }
  }
}
