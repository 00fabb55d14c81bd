/** Draining the worklist: a whole run over one formal parameter. */
module SummaryRuns {
  import opened AccessTypes
  import opened Summaries
  import opened SummaryCalls
  import opened SummaryOrigins

  // ------------------------------------------------------------- the worklist

  function KeysVisited(trace: seq<Step>): set<VisitKey> {
    set step | step in trace :: KeyOfPath(step.path)
  }

  lemma VisitedWith(trace: seq<Step>, step: Step)
    ensures KeysVisited(trace + [step]) == KeysVisited(trace) + {KeyOfPath(step.path)}
  {
    forall r
      ensures r in trace + [step] <==> r in trace || r == step
    {
      assert step in [step];
    }
    assert step in trace + [step];
    forall r | r in trace
      ensures r in trace + [step]
    {
    }
  }

  /** The same node, path, kind, type and memory. */
  ghost predicate SamePlace(p: Path, q: Path) {
    p.node == q.node && p.at.fields == q.at.fields && p.at.kind == q.at.kind && p.at.di == q.at.di && p.mem == q.mem
  }

  /** A key stands for just this. */
  lemma VisitedMeans(trace: seq<Step>, node: Id, fields: seq<int>, kind: Kind, di: Id, mem: Id)
    ensures VisitKey(node, fields, kind, di, mem) in KeysVisited(trace) <==>
              exists step :: && step in trace && step.path.node == node && step.path.at.fields == fields
                             && step.path.at.kind == kind && step.path.at.di == di && step.path.mem == mem
  {
  }

  /** No place is expanded twice, and only paths within the limits are. */
  ghost predicate Visits(b: Bounds, trace: seq<Step>) {
    && (forall i, j :: 0 <= i < j < |trace| ==> !SamePlace(trace[i].path, trace[j].path))
    && (forall step :: step in trace ==> InBounds(b, step.path))
  }

  lemma OneMoreVisit(b: Bounds, trace: seq<Step>, step: Step)
    requires Visits(b, trace) && KeyOfPath(step.path) !in KeysVisited(trace) && InBounds(b, step.path)
    ensures Visits(b, trace + [step])
  {
    forall r | r in trace
      ensures KeyOfPath(r.path) in KeysVisited(trace)
    {
    }
  }

  /** `universe` holds the keys of all paths within bounds. */
  ghost predicate Covers(universe: set<VisitKey>, b: Bounds) {
    forall p {:trigger KeyOfPath(p)} :: InBounds(b, p) ==> KeyOfPath(p) in universe
  }

  /** What the expansion asks for is in the summary behind it or among the keys. */
  ghost predicate StepDone(g: Graph, step: Step, keys: set<VisitKey>) {
    PathDone(g, step.path, Seen(step.before, step.after, keys))
  }

  ghost predicate AllDone(g: Graph, trace: seq<Step>, keys: set<VisitKey>) {
    forall step {:trigger StepDone(g, step, keys)} :: step in trace ==> StepDone(g, step, keys)
  }

  ghost function Known(trace: seq<Step>, worklist: seq<Path>): set<VisitKey> {
    KeysVisited(trace) + KeysOf(worklist)
  }

  lemma AllStayDone(g: Graph, trace: seq<Step>, keys: set<VisitKey>, more: set<VisitKey>)
    requires AllDone(g, trace, keys) && keys <= more
    ensures AllDone(g, trace, more)
  {
    forall step | step in trace
      ensures StepDone(g, step, more)
    {
      assert StepDone(g, step, keys);
      GrowsRefl(step.after);
      PathStaysDone(g, step.path, Seen(step.before, step.after, keys), Seen(step.before, step.after, more));
    }
  }

  /** A path popped again with a known key leaves the keys as they are. */
  lemma PopKnown(trace: seq<Step>, worklist: seq<Path>)
    requires worklist != [] && KeyOfPath(worklist[|worklist| - 1]) in KeysVisited(trace)
    ensures Known(trace, worklist) == Known(trace, worklist[..|worklist| - 1])
  {
    var n := |worklist| - 1;
    forall p | p in worklist
      ensures KeyOfPath(p) in Known(trace, worklist[..n])
    {
      if p !in worklist[..n] {
        assert p == worklist[n];
      }
    }
    forall p | p in worklist[..n]
      ensures p in worklist
    {
    }
  }

  lemma PopNew(trace: seq<Step>, step: Step, worklist: seq<Path>, more: seq<Path>)
    requires worklist != [] && step.path == worklist[|worklist| - 1] && worklist[..|worklist| - 1] <= more
    ensures Known(trace, worklist) <= Known(trace + [step], more) && KeysOf(more) <= Known(trace + [step], more)
  {
    var n := |worklist| - 1;
    VisitedWith(trace, step);
    forall q | q in worklist
      ensures KeyOfPath(q) in Known(trace + [step], more)
    {
      if q in worklist[..n] {
        assert q in more;
      } else {
        assert q == step.path;
      }
    }
  }

  /** What holds between pops. */
  ghost predicate Draining(b: Bounds, g: Graph, start: Path, s: Summary, t: Summary, worklist: seq<Path>,
                           trace: seq<Step>) {
    && Grows(s, t) && SummaryFits(b, t) && AllInBounds(b, worklist) && Visits(b, trace) && Chain(s, t, trace)
    && AllDone(g, trace, Known(trace, worklist)) && KeyOfPath(start) in Known(trace, worklist)
    && Founded(g, start, s, t, worklist, trace)
  }

  /** Pop a path whose key was visited. */
  lemma PopAgain(b: Bounds, g: Graph, start: Path, s: Summary, t: Summary, worklist: seq<Path>, trace: seq<Step>)
    requires Draining(b, g, start, s, t, worklist, trace) && worklist != []
    requires KeyOfPath(worklist[|worklist| - 1]) in KeysVisited(trace)
    ensures Draining(b, g, start, s, t, worklist[..|worklist| - 1], trace)
  {
    PopKnown(trace, worklist);
    forall q | q in worklist[..|worklist| - 1]
      ensures q in worklist && LedTo(g, start, trace, |trace|, q)
    {
    }
  }

  lemma OneMoreLink(s: Summary, t: Summary, trace: seq<Step>, step: Step)
    requires Chain(s, t, trace) && step.before == t && Grows(t, step.after)
    ensures Chain(s, step.after, trace + [step])
  {
    var longer := trace + [step];
    forall i: nat | i < |longer|
      ensures Link(s, longer, i)
    {
      assert Before(s, longer, i) == Before(s, trace, i);
      assert i < |trace| ==> Link(s, trace, i) && longer[i] == trace[i];
    }
  }

  lemma StepIsDone(g: Graph, trace: seq<Step>, step: Step, worklist: seq<Path>, more: seq<Path>)
    requires worklist != [] && step.path == worklist[|worklist| - 1] && worklist[..|worklist| - 1] <= more
    requires AllDone(g, trace, Known(trace, worklist)) && StepDone(g, step, KeysOf(more))
    ensures AllDone(g, trace + [step], Known(trace + [step], more)) &&
            Known(trace, worklist) <= Known(trace + [step], more)
  {
    var keys := Known(trace + [step], more);
    PopNew(trace, step, worklist, more);
    AllStayDone(g, trace, Known(trace, worklist), keys);
    AllStayDone(g, [step], KeysOf(more), keys);
    forall r | r in trace + [step]
      ensures StepDone(g, r, keys)
    {
      assert r in trace || r in [step];
    }
  }

  /** Pop a path with a new key and expand it. */
  method PopAndExpand(b: Bounds, g: Graph, ghost start: Path, ghost s: Summary, t: Summary, worklist: seq<Path>,
                      ghost trace: seq<Step>)
    returns (u: Summary, more: seq<Path>)
    requires WellBehaved(b, g) && Draining(b, g, start, s, t, worklist, trace)
    requires worklist != [] && KeyOfPath(worklist[|worklist| - 1]) !in KeysVisited(trace)
    ensures Draining(b, g, start, s, u, more, trace + [Step(worklist[|worklist| - 1], t, u)])
  {
    var p := worklist[|worklist| - 1];
    u, more := Expand(g, p, t, worklist[..|worklist| - 1]);
    ExpandedKeeps(b, g, p, State(t, worklist[..|worklist| - 1]));
    GrowsTrans(s, t, u);
    StepIsDone(g, trace, Step(p, t, u), worklist, more);
    StepIsFounded(g, start, s, t, worklist, trace, u, more);
    OneMoreVisit(b, trace, Step(p, t, u));
    OneMoreLink(s, t, trace, Step(p, t, u));
  }

  /** Drain the worklist: with every pop either a key is visited for the first time, or
      the worklist shrinks. */
  method Drain(b: Bounds, g: Graph, start: Path, s: Summary, ghost universe: set<VisitKey>)
    returns (t: Summary, ghost trace: seq<Step>)
    requires WellBehaved(b, g) && InBounds(b, start) && Covers(universe, b) && SummaryFits(b, s)
    ensures Draining(b, g, start, s, t, [], trace)
  {
    t, trace := s, [];
    var worklist := [start];
    var visited: set<VisitKey> := {};
    assert start in worklist && Draining(b, g, start, s, t, worklist, trace);
    while worklist != []
      invariant Draining(b, g, start, s, t, worklist, trace) && visited == KeysVisited(trace) && visited <= universe
      decreases |universe - visited|, |worklist|
    {
      var p := worklist[|worklist| - 1];
      if KeyOfPath(p) in visited {
        PopAgain(b, g, start, s, t, worklist, trace);
        worklist := worklist[..|worklist| - 1];
        continue;
      }
      Smaller(universe, visited, KeyOfPath(p));
      ghost var before := t;
      t, worklist := PopAndExpand(b, g, start, s, t, worklist, trace);
      VisitedWith(trace, Step(p, before, t));
      visited, trace := visited + {KeyOfPath(p)}, trace + [Step(p, before, t)];
    }
  }

  lemma Smaller(universe: set<VisitKey>, visited: set<VisitKey>, key: VisitKey)
    requires key in universe && key !in visited
    ensures |universe - (visited + {key})| < |universe - visited|
  {
    assert universe - visited == universe - (visited + {key}) + {key};
  }

  // ------------------------------------------------------------- the whole run

  ghost predicate NewAreShallow(s: Summary, t: Summary) {
    forall k :: k in t.effects && k !in s.effects ==> |k.fields| <= MAX_FIELD_DEPTH + 1
  }

  /** The run from `start`: the expansions lead from `s` to `t`, no key is expanded
      twice, what can be reached, up to the keys, is expanded or recorded, and nothing
      else is. */
  ghost predicate Ran(b: Bounds, g: Graph, start: Path, s: Summary, t: Summary, trace: seq<Step>) {
    && Chain(s, t, trace) && Visits(b, trace) && SummaryFits(b, t) && NewAreShallow(s, t)
    && KeyOfPath(start) in KeysVisited(trace) && AllDone(g, trace, KeysVisited(trace))
    && Founded(g, start, s, t, [], trace)
  }

  lemma DrainedIsShallow(b: Bounds, g: Graph, start: Path, s: Summary, t: Summary, trace: seq<Step>)
    requires WellBehaved(b, g) && Draining(b, g, start, s, t, [], trace)
    ensures NewAreShallow(s, t)
  {
    forall k | k in t.effects && k !in s.effects
      ensures |k.fields| <= MAX_FIELD_DEPTH + 1
    {
      assert RecordedBy(g, trace, k);
      var j :| 0 <= j < |trace| && StepRecords(g, trace[j], k);
      var step := trace[j];
      assert step in trace;
      ChainGrows(s, t, trace, j);
      FitsEarlier(b, step.after, t);
      RecordsAreShallow(b, g, step.path, step.before, step.after, k);
    }
  }

  lemma AllDrained(b: Bounds, g: Graph, start: Path, s: Summary, t: Summary, trace: seq<Step>)
    requires WellBehaved(b, g) && Draining(b, g, start, s, t, [], trace)
    ensures Ran(b, g, start, s, t, trace)
  {
    assert KeysOf([]) == {};
    assert Known(trace, []) == KeysVisited(trace);
    DrainedIsShallow(b, g, start, s, t, trace);
  }

  function Start(entry: Id, di: Id): Path {
    Path(entry, Access({}, [], NoAccess, 0, di, false, [], NoAccess, 0, 0, 0, map[]), 0, 0)
  }

  /** Nothing was added: same keys, same exits, only nodes and counters may be more. */
  ghost predicate SameKeys(s: Summary, t: Summary) {
    s.effects.Keys == t.effects.Keys && s.exits == t.exits
  }

  /** A run that adds nothing has seen, at every call, the effects and exits that the
      summary has in the end: a summary that is not changed by its run is closed, calls
      of the function to itself included. */
  lemma UnchangedIsClosed(b: Bounds, g: Graph, start: Path, s: Summary, t: Summary, trace: seq<Step>, r: Summary,
                          i: nat)
    requires Ran(b, g, start, s, t, trace) && s.effects.Keys == t.effects.Keys && s.exits.Keys == t.exits.Keys
    requires i < |trace| && Grows(trace[i].before, r) && Grows(r, trace[i].after)
    ensures SameKeys(s, r) && SameKeys(r, t)
  {
    ChainGrows(s, t, trace, i);
    GrowsTrans(s, trace[i].before, r);
    GrowsTrans(r, trace[i].after, t);
    SameExits(s, r, t);
  }

  lemma SameExits(s: Summary, r: Summary, t: Summary)
    requires Grows(s, r) && Grows(r, t) && s.effects.Keys == t.effects.Keys && s.exits.Keys == t.exits.Keys
    ensures SameKeys(s, r) && SameKeys(r, t)
  {
    GrownKeys(s, r);
    GrownKeys(r, t);
    forall x | x in s.exits
      ensures s.exits[x] == r.exits[x] == t.exits[x]
    {
      assert ExitStays(s, r, x) && ExitStays(r, t, x);
    }
  }

  /** Terminates on every graph, cyclic or not, and on functions that call themselves.
      The result says whether anything was added. */
  method SummarizeFrom(b: Bounds, g: Graph, entry: Id, di: Id, s: Summary) 
    returns (t: Summary, changed: bool, ghost drained: Summary, ghost trace: seq<Step>)
    requires WellBehaved(b, g) && entry < b.nodes && di < b.dis && SummaryFits(b, s)
    ensures Ran(b, g, Start(entry, di), s, drained, trace)
    ensures t == drained.(flags := drained.flags.(isMallocSize := drained.flags.isMallocSize && !g.pointer(entry)))
    ensures changed <==> t.effects.Keys != s.effects.Keys || t.exits.Keys != s.exits.Keys || t.flags != s.flags
  {
    ghost var universe := Universe(b);
    forall p | InBounds(b, p)
      ensures KeyOfPath(p) in universe
    {
      KeyIsKnown(b, p);
    }
    t, trace := Drain(b, g, Start(entry, di), s, universe);
    AllDrained(b, g, Start(entry, di), s, t, trace);
    drained := t;
    if g.pointer(entry) {
      t := t.(flags := t.flags.(isMallocSize := false));
    }
    FlagsAside(s, drained, t);
    EqualSizesMeanEqual(s, t);
    changed := |t.effects| != |s.effects| || |t.exits| != |s.exits| || t.flags != s.flags;
  }
}
