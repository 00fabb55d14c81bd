/** What a call merges from the summaries of its callees, and what following the edges
    of a path does to summary and worklist. */
module SummaryCalls {
  import opened Wrappers
  import opened AccessTypes
  import opened AccessTypeSets
  import opened Summaries

  // ------------------------------------------------------------- the effects of another summary

  ghost predicate AllInBounds(b: Bounds, worklist: seq<Path>) {
    forall k :: 0 <= k < |worklist| ==> InBounds(b, worklist[k])
  }

  lemma ComposedFits(b: Bounds, limit: nat, prefix: Access, suffix: Access)
    requires Drawn(b, prefix) && Drawn(b, suffix) && Merge(limit, prefix, suffix).Some?
    ensures var c := Merge(limit, prefix, suffix).value; Drawn(b, c) && |c.fields| <= MAX_FIELD_DEPTH
  {
  }

  function MergedEffect(g: Graph, p: Path, many: bool, e: CalleeEffect, s: Summary): Summary {
    var c := Composition(g, p, many, e.at, e.compatible);
    if c.Some? then Record(s, Insertion(c.value, e.nodes)) else s
  }

  function MergedEffects(g: Graph, p: Path, many: bool, effects: seq<CalleeEffect>, s: Summary): Summary {
    if effects == [] then s
    else
      var n := |effects| - 1;
      MergedEffect(g, p, many, effects[n], MergedEffects(g, p, many, effects[..n], s))
  }

  method MergeEffects(g: Graph, p: Path, many: bool, effects: seq<CalleeEffect>, s: Summary) returns (t: Summary)
    ensures t == MergedEffects(g, p, many, effects, s)
  {
    t := s;
    for i := 0 to |effects|
      invariant t == MergedEffects(g, p, many, effects[..i], s)
    {
      assert effects[..i + 1][..i] == effects[..i];
      var e := effects[i];
      var composed := Composition(g, p, many, e.at, e.compatible);
      if composed.Some? {
        t := Record(t, Insertion(composed.value, e.nodes));
      }
    }
    assert effects[..|effects|] == effects;
  }

  lemma MergedEffectGrows(g: Graph, p: Path, many: bool, e: CalleeEffect, s: Summary)
    ensures var t, c := MergedEffect(g, p, many, e, s), Composition(g, p, many, e.at, e.compatible);
            && Grows(s, t) && t.exits == s.exits && EffectDone(g, p, many, e, t)
            && t.effects.Keys == s.effects.Keys + if c.Some? then {KeyOf(c.value)} else {}
  {
    var c := Composition(g, p, many, e.at, e.compatible);
    CompositionMeans(g, p, many, e.at, e.compatible);
    if c.Some? {
      RecordGrows(s, Insertion(c.value, e.nodes));
      CountsHold(Record(s, Insertion(c.value, e.nodes)), p, e, c.value);
    } else {
      GrowsRefl(s);
    }
  }

  lemma CountsHold(t: Summary, p: Path, e: CalleeEffect, c: Access)
    requires Joins(p, e.at, c) && Holds(t, JoinedKey(p, e.at), e.nodes, c.visits, map[])
    ensures Holds(t, JoinedKey(p, e.at), e.nodes, p.at.visits, e.at.visits)
  {
    var u := t.effects[JoinedKey(p, e.at)].visits;
    forall f
      ensures NoLower(u, p.at.visits, e.at.visits, f)
    {
      assert NoLower(u, c.visits, map[], f);
      assert f in c.visits ==> Together(c.visits, map[], f) == Together(p.at.visits, e.at.visits, f);
    }
  }

  lemma {:induction false} MergedEffectsGrow(g: Graph, p: Path, many: bool, effects: seq<CalleeEffect>, s: Summary)
    ensures var t := MergedEffects(g, p, many, effects, s);
            Grows(s, t) && t.exits == s.exits && EffectsDone(g, p, many, effects, t)
  {
    if effects != [] {
      var n := |effects| - 1;
      var t := MergedEffects(g, p, many, effects[..n], s);
      MergedEffectsGrow(g, p, many, effects[..n], s);
      MergedEffectGrows(g, p, many, effects[n], t);
      GrowsTrans(s, t, MergedEffect(g, p, many, effects[n], t));
      EffectsStayDone(g, p, many, effects[..n], t, MergedEffect(g, p, many, effects[n], t));
      assert forall i :: 0 <= i < n ==> effects[..n][i] == effects[i];
    }
  }

  // ------------------------------------------------------------- the effects of the function itself

  /** The set is walked through in order, and what is added in front is met too. */
  predicate After(pos: Option<Key>, k: Key) {
    pos.None? || Less(pos.value, k)
  }

  predicate IsNext(m: Effects, pos: Option<Key>, k: Key) {
    k in m && After(pos, k) && forall j :: j in m && After(pos, j) ==> !Less(j, k)
  }

  ghost function Ahead(keys: set<Key>, pos: Option<Key>): set<Key> {
    set k | k in keys && After(pos, k)
  }

  lemma {:induction false} LeastExists(keys: set<Key>) returns (k: Key)
    requires keys != {}
    ensures k in keys && forall j :: j in keys ==> !Less(j, k)
  {
    k :| k in keys;
    OrderIsTotal(k, k, k);
    if keys != {k} {
      var least := LeastExists(keys - {k});
      OrderIsTotal(least, k, least);
      forall j | j in keys
        ensures !Less(j, if Less(least, k) then least else k)
      {
        OrderIsTotal(j, least, k);
        OrderIsTotal(least, j, k);
        OrderIsTotal(j, k, least);
      }
      k := if Less(least, k) then least else k;
    }
  }

  lemma NextExists(m: Effects, pos: Option<Key>)
    requires Ahead(m.Keys, pos) != {}
    ensures exists k :: IsNext(m, pos, k)
  {
    var k := LeastExists(Ahead(m.Keys, pos));
    assert IsNext(m, pos, k);
  }

  lemma NextIsUnique(m: Effects, pos: Option<Key>, j: Key, k: Key)
    requires IsNext(m, pos, j) && IsNext(m, pos, k)
    ensures j == k
  {
    OrderIsTotal(j, k, j);
  }

  lemma AheadOfNext(m: Effects, pos: Option<Key>, k: Key, j: Key)
    requires IsNext(m, pos, k)
    ensures j in m && After(pos, j) ==> j == k || After(Some(k), j)
  {
    OrderIsTotal(j, k, j);
  }

  /** Keys of this form are all that composing with the path can add. */
  ghost predicate Closed(at: Access, universe: set<Key>) {
    forall k :: k in universe && |at.fields| + |k.fields| <= MAX_FIELD_DEPTH ==>
      Key(at.fields + k.fields, k.kind, at.typ) in universe
  }

  lemma FewerAhead(universe: set<Key>, pos: Option<Key>, k: Key)
    requires k in universe && After(pos, k)
    ensures |Ahead(universe, Some(k))| < |Ahead(universe, pos)|
  {
    OrderIsTotal(k, k, k);
    forall j | j in Ahead(universe, Some(k))
      ensures j in Ahead(universe, pos)
    {
      if pos.Some? {
        OrderIsTotal(pos.value, k, j);
      }
    }
    assert k in Ahead(universe, pos) && k !in Ahead(universe, Some(k));
    SubsetOfSameSize(Ahead(universe, Some(k)), Ahead(universe, pos));
  }

  function EffectAt(m: Effects, compatible: Access -> bool, k: Key): CalleeEffect
    requires k in m
  {
    CalleeEffect(m[k], m[k].icfg, compatible(m[k]))
  }

  lemma ComposedStaysInside(g: Graph, p: Path, many: bool, e: CalleeEffect, s: Summary, universe: set<Key>)
    requires s.effects.Keys <= universe && Closed(p.at, universe) && KeyOf(e.at) in universe
    ensures MergedEffect(g, p, many, e, s).effects.Keys <= universe
  {
    MergedEffectGrows(g, p, many, e, s);
    assert Composition(g, p, many, e.at, e.compatible).Some? ==>
        KeyOf(Composed(p.at, e.at)) == Key(p.at.fields + KeyOf(e.at).fields, e.at.kind, p.at.typ);
  }

  /** The entry met next. */
  ghost function Next(m: Effects, pos: Option<Key>): (k: Key)
    requires Ahead(m.Keys, pos) != {}
    ensures IsNext(m, pos, k)
  {
    NextExists(m, pos);
    var k :| IsNext(m, pos, k);
    k
  }

  /** The walk ends although what it adds may lie ahead: composing makes paths longer or
      gives what is there already. */
  ghost function OwnMerged(g: Graph, p: Path, many: bool, compatible: Access -> bool, pos: Option<Key>, s: Summary,
                           universe: set<Key>)
    : Summary
    requires s.effects.Keys <= universe && Closed(p.at, universe)
    decreases |Ahead(universe, pos)|
  {
    if Ahead(s.effects.Keys, pos) == {} then s
    else
      var k := Next(s.effects, pos);
      var e := EffectAt(s.effects, compatible, k);
      FewerAhead(universe, pos, k);
      ComposedStaysInside(g, p, many, e, s, universe);
      OwnMerged(g, p, many, compatible, Some(k), MergedEffect(g, p, many, e, s), universe)
  }

  ghost function Letters(at: Access, s: Summary): set<int> {
    (set f | f in at.fields) + set k, f | k in s.effects && f in k.fields :: f
  }

  ghost function OwnKeys(at: Access, s: Summary): (keys: set<Key>)
    ensures s.effects.Keys <= keys && Closed(at, keys)
  {
    var letters := Letters(at, s);
    var keys := s.effects.Keys + set w, kind: Kind | w in Words(letters, MAX_FIELD_DEPTH) :: Key(w, kind, at.typ);
    assert Closed(at, keys) by {
      forall k | k in keys && |at.fields| + |k.fields| <= MAX_FIELD_DEPTH
        ensures Key(at.fields + k.fields, k.kind, at.typ) in keys
      {
        if k !in s.effects {
          WordIsOver(letters, MAX_FIELD_DEPTH, k.fields);
        }
        IsWord(letters, at.fields + k.fields, MAX_FIELD_DEPTH);
      }
    }
    keys
  }

  /** The walk over the set that is added to. */
  method MergeOwn(g: Graph, p: Path, many: bool, compatible: Access -> bool, s: Summary) returns (t: Summary)
    ensures t == OwnMerged(g, p, many, compatible, None, s, OwnKeys(p.at, s))
  {
    t := s;
    var pos: Option<Key> := None;
    ghost var universe := OwnKeys(p.at, s);
    while exists k :: k in t.effects && After(pos, k)
      invariant t.effects.Keys <= universe
      invariant OwnMerged(g, p, many, compatible, pos, t, universe) ==
                  OwnMerged(g, p, many, compatible, None, s, universe)
      decreases |Ahead(universe, pos)|
    {
      ghost var some :| some in t.effects && After(pos, some);
      assert some in Ahead(t.effects.Keys, pos);
      ghost var next := Next(t.effects, pos);
      assert next in t.effects && IsNext(t.effects, pos, next);
      var k :| k in t.effects && IsNext(t.effects, pos, k);
      t, pos := MergeNext(g, p, many, compatible, pos, t, k, universe);
    }
    assert Ahead(t.effects.Keys, pos) == {};
  }

  method MergeNext(g: Graph, p: Path, many: bool, compatible: Access -> bool, ghost pos: Option<Key>, s: Summary,
                   k: Key,
                   ghost universe: set<Key>)
    returns (t: Summary, pos': Option<Key>)
    requires s.effects.Keys <= universe && Closed(p.at, universe) && IsNext(s.effects, pos, k)
    ensures t == MergedEffect(g, p, many, EffectAt(s.effects, compatible, k), s) && pos' == Some(k)
    ensures t.effects.Keys <= universe && |Ahead(universe, pos')| < |Ahead(universe, pos)|
    ensures OwnMerged(g, p, many, compatible, pos', t, universe) == OwnMerged(g, p, many, compatible, pos, s, universe)
  {
    var e := EffectAt(s.effects, compatible, k);
    var composed := Composition(g, p, many, e.at, e.compatible);
    t, pos' := if composed.Some? then Record(s, Insertion(composed.value, e.nodes)) else s, Some(k);
    assert k in Ahead(s.effects.Keys, pos);
    NextIsUnique(s.effects, pos, Next(s.effects, pos), k);
    FewerAhead(universe, pos, k);
    ComposedStaysInside(g, p, many, e, s, universe);
  }

  /** What is done with from the next state on is done with. */
  lemma OwnNext(g: Graph, p: Path, many: bool, compatible: Access -> bool, s: Summary, next: Summary, t: Summary,
                k: Key)
    requires k in s.effects && Grows(s, next) && Grows(next, t) && k in next.effects &&
             OwnDone(g, p, many, compatible, next, t, k)
    ensures OwnDone(g, p, many, compatible, s, t, k)
  {
    var e :| Raised(next.effects[k], e) && ComposedAs(g, p, many, compatible, t, k, e);
    assert EffectGrows(s, next, k);
    RaisedTrans(s.effects[k], next.effects[k], e);
  }

  /** The effect met is done with. */
  lemma OwnNow(g: Graph, p: Path, many: bool, compatible: Access -> bool, s: Summary, t: Summary, n: Key)
    requires n in s.effects && Grows(MergedEffect(g, p, many, EffectAt(s.effects, compatible, n), s), t)
    ensures OwnDone(g, p, many, compatible, s, t, n)
  {
    var e := EffectAt(s.effects, compatible, n);
    var next := MergedEffect(g, p, many, e, s);
    MergedEffectGrows(g, p, many, e, s);
    assert EffectGrows(s, next, n);
    assert ComposedAs(g, p, many, compatible, next, n, e.at);
    StaysComposed(g, p, many, compatible, next, t, n, e.at);
  }

  /** Every own effect not yet passed is composed. */
  lemma {:induction false} OwnGrows(g: Graph, p: Path, many: bool, compatible: Access -> bool, pos: Option<Key>,
                                    s: Summary, universe: set<Key>)
    requires s.effects.Keys <= universe && Closed(p.at, universe)
    ensures var t := OwnMerged(g, p, many, compatible, pos, s, universe);
            && Grows(s, t) && t.exits == s.exits
            && forall k {:trigger OwnDone(g, p, many, compatible, s, t, k)} ::
                 k in s.effects && After(pos, k) ==> OwnDone(g, p, many, compatible, s, t, k)
    decreases |Ahead(universe, pos)|
  {
    GrowsRefl(s);
    assert forall k :: k in s.effects && After(pos, k) ==> k in Ahead(s.effects.Keys, pos);
    if Ahead(s.effects.Keys, pos) != {} {
      var n := Next(s.effects, pos);
      var e := EffectAt(s.effects, compatible, n);
      var next := MergedEffect(g, p, many, e, s);
      FewerAhead(universe, pos, n);
      ComposedStaysInside(g, p, many, e, s, universe);
      var t := OwnMerged(g, p, many, compatible, Some(n), next, universe);
      MergedEffectGrows(g, p, many, e, s);
      OwnGrows(g, p, many, compatible, Some(n), next, universe);
      GrowsTrans(s, next, t);
      forall k | k in s.effects && After(pos, k)
        ensures OwnDone(g, p, many, compatible, s, t, k)
      {
        AheadOfNext(s.effects, pos, n, k);
        if k == n {
          OwnNow(g, p, many, compatible, s, t, n);
        } else {
          GrownKeys(s, next);
          OwnNext(g, p, many, compatible, s, next, t, k);
        }
      }
    }
  }

  // ------------------------------------------------------------- calls

  function MergedExits(g: Graph, p: Path, many: bool, exits: seq<CalleeExit>, worklist: seq<Path>): seq<Path> {
    if exits == [] then worklist
    else
      var n := |exits| - 1;
      var q, before := Resumed(g, p, many, exits[n]), MergedExits(g, p, many, exits[..n], worklist);
      if q.Some? then before + [q.value] else before
  }

  /** Tracking goes on behind the call for every exit whose composition is defined. */
  method MergeExits(g: Graph, p: Path, many: bool, exits: seq<CalleeExit>, worklist: seq<Path>)
    returns (more: seq<Path>)
    ensures more == MergedExits(g, p, many, exits, worklist)
  {
    more := worklist;
    for i := 0 to |exits|
      invariant more == MergedExits(g, p, many, exits[..i], worklist)
    {
      assert exits[..i + 1][..i] == exits[..i];
      var q := Resumed(g, p, many, exits[i]);
      if q.Some? {
        more := more + [q.value];
      }
    }
    assert exits[..|exits|] == exits;
  }

  lemma ResumedInBounds(b: Bounds, g: Graph, p: Path, many: bool, e: CalleeExit)
    requires Drawn(b, p.at) && b.mems > 0 && ExitsFit(b, [e]) && Resumed(g, p, many, e).Some?
    ensures InBounds(b, Resumed(g, p, many, e).value)
  {
    assert [e][0] == e;
    ComposedFits(b, g.recursionLimit, p.at, e.at);
  }

  lemma {:induction false} MergedExitsKeep(b: Bounds, g: Graph, p: Path, many: bool, exits: seq<CalleeExit>,
                                           worklist: seq<Path>)
    requires b.mems > 0 && Drawn(b, p.at) && AllInBounds(b, worklist) && ExitsFit(b, exits)
    ensures var more := MergedExits(g, p, many, exits, worklist);
            AllInBounds(b, more) && worklist <= more && ExitsDone(g, p, many, exits, KeysOf(more))
  {
    if exits != [] {
      var n := |exits| - 1;
      var before, q := MergedExits(g, p, many, exits[..n], worklist), Resumed(g, p, many, exits[n]);
      assert forall i :: 0 <= i < n ==> exits[..n][i] == exits[i];
      MergedExitsKeep(b, g, p, many, exits[..n], worklist);
      CompositionMeans(g, p, many, exits[n].at, exits[n].compatible);
      if q.Some? {
        ResumedInBounds(b, g, p, many, exits[n]);
        KeysWith(before, q.value);
      }
    }
  }

  /** The summary so far and the worklist. */
  datatype State = State(summary: Summary, worklist: seq<Path>)

  /** What the handler of a callee records and sets. */
  function Handled(c: Callee, s: Summary): Summary {
    RecordedAll(s, c.handled).(flags := Marked(s.flags, c.marks))
  }

  ghost function MergedSource(g: Graph, p: Path, many: bool, source: Source, s: Summary): Summary {
    match source
    case Listed(effects) => MergedEffects(g, p, many, effects, s)
    case Own(compatible) => OwnMerged(g, p, many, compatible, None, s, OwnKeys(p.at, s))
  }

  ghost function MergedCallee(g: Graph, p: Path, many: bool, c: Callee, st: State): State {
    var t := MergedSource(g, p, many, c.source, Handled(c, st.summary));
    State(if |p.at.fields| == 0 && !c.addressOf && !many then t.(flags := Or(t.flags, c.flags)) else t,
          MergedExits(g, p, many, c.exits, st.worklist))
  }

  ghost function MergedCallees(g: Graph, p: Path, many: bool, callees: seq<Callee>, st: State): State {
    if callees == [] then st
    else
      var n := |callees| - 1;
      MergedCallee(g, p, many, callees[n], MergedCallees(g, p, many, callees[..n], st))
  }

  /** One callee: its handler, its effects and its exits. */
  method MergeCallee(g: Graph, p: Path, many: bool, c: Callee, s: Summary, worklist: seq<Path>)
    returns (t: Summary, more: seq<Path>)
    ensures State(t, more) == MergedCallee(g, p, many, c, State(s, worklist))
  {
    t := RecordAll(s, c.handled);
    t := t.(flags := Marked(s.flags, c.marks));
    match c.source {
      case Listed(effects) =>
        t := MergeEffects(g, p, many, effects, t);
      case Own(compatible) =>
        t := MergeOwn(g, p, many, compatible, t);
    }
    if |p.at.fields| == 0 && !c.addressOf && !many {
      t := t.(flags := Or(t.flags, c.flags));
    }
    more := MergeExits(g, p, many, c.exits, worklist);
  }

  lemma OneCalleeMore(g: Graph, p: Path, many: bool, callees: seq<Callee>, i: nat, st: State)
    requires i < |callees|
    ensures MergedCallees(g, p, many, callees[..i + 1], st)
         == MergedCallee(g, p, many, callees[i], MergedCallees(g, p, many, callees[..i], st))
  {
    assert callees[..i + 1][..i] == callees[..i];
  }

  method MergeSummary(g: Graph, site: Id, p: Path, s: Summary, worklist: seq<Path>)
    returns (t: Summary, more: seq<Path>)
    ensures State(t, more) == MergedCallees(g, p, g.manyTargets(site), g.callees(site, p, s), State(s, worklist))
  {
    t, more := s, worklist;
    var callees, many := g.callees(site, p, s), g.manyTargets(site);
    for i := 0 to |callees|
      invariant State(t, more) == MergedCallees(g, p, many, callees[..i], State(s, worklist))
    {
      OneCalleeMore(g, p, many, callees, i, State(s, worklist));
      t, more := MergeCallee(g, p, many, callees[i], t, more);
    }
    assert callees[..|callees|] == callees;
  }

  lemma HandledGrows(c: Callee, s: Summary)
    ensures var t := Handled(c, s); Grows(s, t) && t.exits == s.exits && Recorded(c.handled, t)
  {
    RecordedGrows(s, c.handled);
    FlagsAside(s, RecordedAll(s, c.handled), Handled(c, s));
    StillRecorded(c.handled, RecordedAll(s, c.handled), Handled(c, s));
  }

  lemma MergedSourceGrows(g: Graph, p: Path, many: bool, source: Source, s: Summary)
    ensures var t := MergedSource(g, p, many, source, s);
            Grows(s, t) && t.exits == s.exits && SourceDone(g, p, many, source, s, t)
  {
    match source {
      case Listed(effects) => MergedEffectsGrow(g, p, many, effects, s);
      case Own(compatible) => OwnGrows(g, p, many, compatible, None, s, OwnKeys(p.at, s));
    }
  }

  /** One callee is done with, as seen from the summary `s` at the call. */
  lemma MergedCalleeGrows(g: Graph, p: Path, many: bool, c: Callee, s: Summary, st: State)
    requires Grows(s, st.summary)
    ensures var t := MergedCallee(g, p, many, c, st).summary;
            && Grows(st.summary, t) && t.exits == st.summary.exits
            && Recorded(c.handled, t) && SourceDone(g, p, many, c.source, s, t)
  {
    var h := Handled(c, st.summary);
    var u := MergedSource(g, p, many, c.source, h);
    var t := MergedCallee(g, p, many, c, st).summary;
    HandledGrows(c, st.summary);
    MergedSourceGrows(g, p, many, c.source, h);
    GrowsTrans(st.summary, h, u);
    GrowsTrans(s, st.summary, h);
    FlagsAside(st.summary, u, t);
    FlagsAside(h, u, t);
    StillRecorded(c.handled, h, t);
    SourceStaysDone(g, p, many, c.source, s, h, u, t);
  }

  lemma {:induction false} EffectsKeepFlags(g: Graph, p: Path, many: bool, effects: seq<CalleeEffect>, s: Summary)
    ensures MergedEffects(g, p, many, effects, s).flags == s.flags
  {
    if effects != [] {
      EffectsKeepFlags(g, p, many, effects[..|effects| - 1], s);
    }
  }

  lemma {:induction false} OwnKeepsFlags(g: Graph, p: Path, many: bool, compatible: Access -> bool, pos: Option<Key>,
                                         s: Summary, universe: set<Key>)
    requires s.effects.Keys <= universe && Closed(p.at, universe)
    ensures OwnMerged(g, p, many, compatible, pos, s, universe).flags == s.flags
    decreases |Ahead(universe, pos)|
  {
    if Ahead(s.effects.Keys, pos) != {} {
      var n := Next(s.effects, pos);
      var e := EffectAt(s.effects, compatible, n);
      FewerAhead(universe, pos, n);
      ComposedStaysInside(g, p, many, e, s, universe);
      OwnKeepsFlags(g, p, many, compatible, Some(n), MergedEffect(g, p, many, e, s), universe);
    }
  }

  /** A call sets what the handler marks, and what the callee's flags say of a parameter
      passed on as a whole, not its address, to not too many targets. */
  lemma FlagsOfCall(g: Graph, p: Path, many: bool, c: Callee, st: State)
    ensures var f, t := st.summary.flags, MergedCallee(g, p, many, c, st).summary.flags;
            var whole := p.at.fields == [] && !c.addressOf && !many;
            && (t.isMallocSize <==> f.isMallocSize || MallocSize in c.marks || (whole && c.flags.isMallocSize))
            && (t.isFilePath <==> f.isFilePath || FilePath in c.marks || (whole && c.flags.isFilePath))
            && (t.isArray <==> ArrayAfter(f.isArray, c.marks) || (whole && c.flags.isArray))
  {
    var h := Handled(c, st.summary);
    MarksDecide(st.summary.flags, c.marks);
    match c.source {
      case Listed(effects) => EffectsKeepFlags(g, p, many, effects, h);
      case Own(compatible) => OwnKeepsFlags(g, p, many, compatible, None, h, OwnKeys(p.at, h));
    }
  }

  lemma {:induction false} MergedCalleesGrow(g: Graph, p: Path, many: bool, callees: seq<Callee>, st: State)
    ensures var t := MergedCallees(g, p, many, callees, st).summary; Grows(st.summary, t) && t.exits == st.summary.exits
  {
    if callees != [] {
      var n := |callees| - 1;
      var t := MergedCallees(g, p, many, callees[..n], st);
      MergedCalleesGrow(g, p, many, callees[..n], st);
      MergedCalleeGrows(g, p, many, callees[n], t.summary, t);
      GrowsTrans(st.summary, t.summary, MergedCallee(g, p, many, callees[n], t).summary);
    }
  }

  /** What following edges keeps: the worklist gets longer, and all stays in bounds. */
  ghost predicate Extends(b: Bounds, st: State, st': State) {
    && Grows(st.summary, st'.summary) && SummaryFits(b, st'.summary)
    && AllInBounds(b, st'.worklist) && st.worklist <= st'.worklist
  }

  lemma ExtendsTrans(b: Bounds, x: State, y: State, z: State)
    requires Extends(b, x, y) && Extends(b, y, z)
    ensures Extends(b, x, z) && Within(SeenOf(x.summary, y), SeenOf(x.summary, z))
  {
    GrowsTrans(x.summary, y.summary, z.summary);
  }

  ghost function SeenOf(base: Summary, st: State): Seen {
    Seen(base, st.summary, KeysOf(st.worklist))
  }

  lemma {:induction false} MergedCalleesKeep(b: Bounds, g: Graph, p: Path, many: bool, callees: seq<Callee>, st: State)
    requires b.mems > 0 && Drawn(b, p.at) && AllInBounds(b, st.worklist) && SummaryFits(b, st.summary) &&
             CallsFit(b, callees)
    ensures var t := MergedCallees(g, p, many, callees, st);
            Extends(b, st, t) && CalleesDone(g, p, many, callees, st.summary, t.summary, KeysOf(t.worklist))
  {
    MergedCalleesGrow(g, p, many, callees, st);
    if callees != [] {
      var n := |callees| - 1;
      var t := MergedCallees(g, p, many, callees[..n], st);
      var u := MergedCallee(g, p, many, callees[n], t);
      assert forall i :: 0 <= i < n ==> callees[..n][i] == callees[i];
      MergedCalleesKeep(b, g, p, many, callees[..n], st);
      MergedCalleeGrows(g, p, many, callees[n], st.summary, t);
      MergedExitsKeep(b, g, p, many, callees[n].exits, t.worklist);
      CalleesStayDone(g, p, many, callees[..n], st.summary, t.summary, KeysOf(t.worklist), u.summary,
                      KeysOf(u.worklist));
      CalleesAppend(g, p, many, callees, st.summary, u.summary, KeysOf(u.worklist));
    }
  }

  lemma CalleesAppend(g: Graph, p: Path, many: bool, callees: seq<Callee>, s: Summary, t: Summary, keys: set<VisitKey>)
    requires callees != [] && CalleesDone(g, p, many, callees[..|callees| - 1], s, t, keys)
    requires CalleeDone(g, p, many, callees[|callees| - 1], s, t, keys)
    ensures CalleesDone(g, p, many, callees, s, t, keys)
  {
    forall i | 0 <= i < |callees| - 1
      ensures CalleeDone(g, p, many, callees[i], s, t, keys)
    {
      assert callees[..|callees| - 1][i] == callees[i];
    }
  }

  // ------------------------------------------------------------- one path

  ghost function FollowedEdge(g: Graph, p: Path, mem: Id, e: Edge, st: State): State {
    match e
    case Call(site) => MergedCallees(g, p, g.manyTargets(site), g.callees(site, p, st.summary), st)
    case Return =>
      var s := st.summary;
      st.(summary := s.(exits := if ExitOf(p) in s.exits then s.exits else s.exits[ExitOf(p) := p.at]))
    case Intra(dst, isLoad) => st.(worklist := st.worklist + [p.(node := dst, mem := if isLoad then 0 else mem)])
  }

  ghost function FollowedAll(g: Graph, p: Path, mem: Id, edges: seq<Edge>, st: State): State {
    if edges == [] then st
    else
      var n := |edges| - 1;
      FollowedEdge(g, p, mem, edges[n], FollowedAll(g, p, mem, edges[..n], st))
  }

  method FollowEdge(g: Graph, p: Path, mem: Id, e: Edge, s: Summary, worklist: seq<Path>)
    returns (t: Summary, more: seq<Path>)
    ensures State(t, more) == FollowedEdge(g, p, mem, e, State(s, worklist))
  {
    t, more := s, worklist;
    match e {
      case Call(site) =>
        t, more := MergeSummary(g, site, p, t, more);
      case Return =>
        t := t.(exits := if ExitOf(p) in t.exits then t.exits else t.exits[ExitOf(p) := p.at]);
      case Intra(dst, isLoad) =>
        more := more + [p.(node := dst, mem := if isLoad then 0 else mem)];
    }
  }

  /** Follow the edges of `p`, whose value is now in memory `mem`. */
  method Follow(g: Graph, p: Path, mem: Id, s: Summary, worklist: seq<Path>) returns (t: Summary, more: seq<Path>)
    ensures State(t, more) == FollowedAll(g, p, mem, g.out(p, mem), State(s, worklist))
  {
    t, more := s, worklist;
    var edges := g.out(p, mem);
    for i := 0 to |edges|
      invariant State(t, more) == FollowedAll(g, p, mem, edges[..i], State(s, worklist))
    {
      assert edges[..i + 1][..i] == edges[..i];
      t, more := FollowEdge(g, p, mem, edges[i], t, more);
    }
    assert edges[..|edges|] == edges;
  }

  lemma CallKeeps(b: Bounds, g: Graph, p: Path, site: Id, st: State, t: State)
    requires WellBehaved(b, g) && InBounds(b, p) && AllInBounds(b, st.worklist) && SummaryFits(b, st.summary)
    requires t == MergedCallees(g, p, g.manyTargets(site), g.callees(site, p, st.summary), st)
    ensures Extends(b, st, t) && CallDone(g, p, site, SeenOf(st.summary, t), st.summary)
  {
    GrowsRefl(st.summary);
    MergedCalleesKeep(b, g, p, g.manyTargets(site), g.callees(site, p, st.summary), st);
  }

  lemma FollowedEdgeKeeps(b: Bounds, g: Graph, p: Path, mem: Id, e: Edge, st: State)
    requires WellBehaved(b, g) && InBounds(b, p) && mem < b.mems && AllInBounds(b, st.worklist) &&
             SummaryFits(b, st.summary)
    requires EdgesFit(b, [e])
    ensures var t := FollowedEdge(g, p, mem, e, st); Extends(b, st, t) && EdgeDone(g, p, mem, e, SeenOf(st.summary, t))
  {
    var t := FollowedEdge(g, p, mem, e, st);
    match e {
      case Call(site) =>
        CallKeeps(b, g, p, site, st, t);
      case Return =>
      case Intra(dst, isLoad) =>
        assert [e][0] == e;
        KeysWith(st.worklist, p.(node := dst, mem := if isLoad then 0 else mem));
    }
  }

  /** A stretch may begin earlier. */
  lemma EdgeDoneFrom(g: Graph, p: Path, mem: Id, e: Edge, base: Summary, seen: Seen)
    requires EdgeDone(g, p, mem, e, seen) && Grows(base, seen.base)
    ensures EdgeDone(g, p, mem, e, seen.(base := base))
  {
    if e.Call? {
      var s :| CallDone(g, p, e.site, seen, s);
      GrowsTrans(base, seen.base, s);
      assert CallDone(g, p, e.site, seen.(base := base), s);
    }
  }

  lemma {:induction false} FollowedKeeps(b: Bounds, g: Graph, p: Path, mem: Id, edges: seq<Edge>, st: State)
    requires WellBehaved(b, g) && InBounds(b, p) && mem < b.mems && AllInBounds(b, st.worklist) &&
             SummaryFits(b, st.summary)
    requires EdgesFit(b, edges)
    ensures var t := FollowedAll(g, p, mem, edges, st);
            Extends(b, st, t) && EdgesDone(g, p, mem, edges, SeenOf(st.summary, t))
  {
    if edges != [] {
      var n := |edges| - 1;
      var t := FollowedAll(g, p, mem, edges[..n], st);
      var u := FollowedEdge(g, p, mem, edges[n], t);
      assert forall i :: 0 <= i < n ==> edges[..n][i] == edges[i];
      FollowedKeeps(b, g, p, mem, edges[..n], st);
      FollowedEdgeKeeps(b, g, p, mem, edges[n], t);
      EdgeDoneFrom(g, p, mem, edges[n], st.summary, SeenOf(t.summary, u));
      ExtendsTrans(b, st, t, u);
      EdgesStayDone(g, p, mem, edges[..n], SeenOf(st.summary, t), SeenOf(st.summary, u));
      EdgesAppend(g, p, mem, edges, SeenOf(st.summary, u));
    }
  }

  lemma EdgesAppend(g: Graph, p: Path, mem: Id, edges: seq<Edge>, seen: Seen)
    requires edges != [] && EdgesDone(g, p, mem, edges[..|edges| - 1], seen) &&
             EdgeDone(g, p, mem, edges[|edges| - 1], seen)
    ensures EdgesDone(g, p, mem, edges, seen)
  {
    forall i | 0 <= i < |edges| - 1
      ensures EdgeDone(g, p, mem, edges[i], seen)
    {
      assert edges[..|edges| - 1][i] == edges[i];
    }
  }

  /** What the node of a path records and sets. */
  function Noted(g: Graph, p: Path, s: Summary): Summary {
    RecordedAll(s, g.transfer(p).recorded).(flags := Marked(s.flags, g.transfer(p).marks))
  }

  ghost function Expanded(g: Graph, p: Path, st: State): State {
    var next := State(Noted(g, p, st.summary), st.worklist);
    if Ends(g, g.transfer(p)) then next else FollowedAll(g, Transferred(g, p), g.memory(p), EdgesOf(g, p), next)
  }

  /** Let the node of `p` act on the path, and follow its edges unless the path ends. */
  method Expand(g: Graph, p: Path, s: Summary, worklist: seq<Path>) returns (t: Summary, more: seq<Path>)
    ensures State(t, more) == Expanded(g, p, State(s, worklist))
  {
    var mem := g.memory(p);
    var local := g.transfer(p);
    t := RecordAll(s, local.recorded);
    t := t.(flags := Marked(s.flags, local.marks));
    more := worklist;
    if local.skip || |local.at.fields| > MAX_FIELD_DEPTH || ExceedsRecursion(local.at.visits, g.recursionLimit) {
      return;
    }
    t, more := Follow(g, p.(at := local.at, prev := local.prev), mem, t, more);
  }

  /** A node sets what it marks. */
  lemma FlagsOfNode(g: Graph, p: Path, s: Summary)
    ensures var f, t, marks := s.flags, Noted(g, p, s).flags, g.transfer(p).marks;
            && (t.isMallocSize <==> f.isMallocSize || MallocSize in marks)
            && (t.isFilePath <==> f.isFilePath || FilePath in marks)
            && (t.isArray <==> ArrayAfter(f.isArray, marks))
  {
    MarksDecide(s.flags, g.transfer(p).marks);
  }

  lemma NotedGrows(g: Graph, p: Path, s: Summary)
    ensures var t := Noted(g, p, s); Grows(s, t) && t.exits == s.exits && Recorded(g.transfer(p).recorded, t)
  {
    var ops := g.transfer(p).recorded;
    RecordedGrows(s, ops);
    FlagsAside(s, RecordedAll(s, ops), Noted(g, p, s));
    StillRecorded(ops, RecordedAll(s, ops), Noted(g, p, s));
  }

  lemma ExpandedKeeps(b: Bounds, g: Graph, p: Path, st: State)
    requires WellBehaved(b, g) && InBounds(b, p) && AllInBounds(b, st.worklist) && SummaryFits(b, st.summary)
    ensures var t := Expanded(g, p, st); Extends(b, st, t) && PathDone(g, p, SeenOf(st.summary, t))
  {
    var next := State(Noted(g, p, st.summary), st.worklist);
    NotedGrows(g, p, st.summary);
    if !Ends(g, g.transfer(p)) {
      var q, mem, edges := Transferred(g, p), g.memory(p), EdgesOf(g, p);
      var t := FollowedAll(g, q, mem, edges, next);
      FollowedKeeps(b, g, q, mem, edges, next);
      ExtendsTrans(b, st, next, t);
      StillRecorded(g.transfer(p).recorded, next.summary, t.summary);
      forall i | 0 <= i < |edges|
        ensures EdgeDone(g, q, mem, edges[i], SeenOf(st.summary, t))
      {
        EdgeDoneFrom(g, q, mem, edges[i], st.summary, SeenOf(next.summary, t));
      }
    }
  }
}
