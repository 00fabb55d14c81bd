/** Where the effects, the exits and the paths of a run come from. */
module SummaryOrigins {
  import opened Wrappers
  import opened AccessTypes
  import opened AccessTypeSets
  import opened Summaries
  import opened SummaryCalls

  // ------------------------------------------------------------- where things come from

  ghost predicate Composes(g: Graph, p: Path, many: bool, at: Access, compatible: bool, k: Key) {
    Composable(g, p, many, at, compatible) && k == Key(p.at.fields + at.fields, at.kind, p.at.typ)
  }

  /** An effect of a callee, its own as they become in `t`, gives one with key `k`. An
      own one is never the reason for itself. */
  ghost predicate SourceRecords(g: Graph, p: Path, many: bool, source: Source, t: Summary, k: Key) {
    match source
    case Listed(effects) =>
      exists i :: 0 <= i < |effects| && Composes(g, p, many, effects[i].at, effects[i].compatible, k)
    case Own(compatible) =>
      exists j, e {:trigger OwnBecomes(t, j, e)} ::
        j != k && OwnBecomes(t, j, e) && Composes(g, p, many, e, compatible(e), k)
  }

  ghost predicate OwnBecomes(t: Summary, j: Key, e: Access) {
    j in t.effects && Raised(e, t.effects[j])
  }

  ghost predicate RecordsAs(op: Insertion, k: Key) {
    k == Key(op.at.fields, op.at.kind, op.at.typ)
  }

  /** Callee `c` can make `p` record an effect with key `k`. */
  ghost predicate CalleeRecords(g: Graph, p: Path, many: bool, c: Callee, t: Summary, k: Key) {
    (exists i :: 0 <= i < |c.handled| && RecordsAs(c.handled[i], k)) || SourceRecords(g, p, many, c.source, t, k)
  }

  ghost predicate CalleeResumes(g: Graph, p: Path, many: bool, c: Callee, q: Path) {
    exists i :: 0 <= i < |c.exits| && ResumesAs(g, p, many, c.exits[i], q)
  }

  /** Behind the call the path is joined by that of the exit, and no memory is known. */
  ghost predicate ResumesAs(g: Graph, p: Path, many: bool, e: CalleeExit, q: Path) {
    && Composable(g, p, many, e.at, e.compatible) && e.resume == Some(q.node)
    && q.mem == 0 && q.prev == 0 && Joins(p, e.at, q.at)
  }

  /** A call made with the summary `s` on the way from `base` to `top`. */
  ghost predicate CallRecords(g: Graph, p: Path, site: Id, base: Summary, top: Summary, s: Summary, k: Key) {
    && Grows(base, s) && Grows(s, top)
    && exists i ::
         0 <= i < |g.callees(site, p, s)| && CalleeRecords(g, p, g.manyTargets(site), g.callees(site, p, s)[i], top, k)
  }

  ghost predicate CallResumes(g: Graph, p: Path, site: Id, base: Summary, top: Summary, s: Summary, q: Path) {
    && Grows(base, s) && Grows(s, top)
    && exists i ::
         0 <= i < |g.callees(site, p, s)| && CalleeResumes(g, p, g.manyTargets(site), g.callees(site, p, s)[i], q)
  }

  ghost predicate EdgeRecords(g: Graph, p: Path, e: Edge, base: Summary, top: Summary, k: Key) {
    e.Call? && exists s {:trigger CallRecords(g, p, e.site, base, top, s, k)} ::
      CallRecords(g, p, e.site, base, top, s, k)
  }

  ghost predicate EdgeLeads(g: Graph, p: Path, mem: Id, e: Edge, base: Summary, top: Summary, q: Path) {
    match e
    case Call(site) => exists s {:trigger CallResumes(g, p, site, base, top, s, q)} ::
      CallResumes(g, p, site, base, top, s, q)
    case Return => false
    case Intra(dst, isLoad) => q == Path(dst, p.at, if isLoad then 0 else mem, p.prev)
  }

  /** Expanding `p`, on the way from `base` to `top`, can record an effect with key `k`:
      its node does, or one of its calls. */
  ghost predicate Records(g: Graph, p: Path, base: Summary, top: Summary, k: Key) {
    var l := g.transfer(p);
    || (exists i :: 0 <= i < |l.recorded| && RecordsAs(l.recorded[i], k))
    || (GoesOn(g, p) && exists e :: e in EdgesOf(g, p) && EdgeRecords(g, Transferred(g, p), e, base, top, k))
  }

  /** Expanding `p` leads to `r`, along an edge or behind a call. */
  ghost predicate Leads(g: Graph, p: Path, base: Summary, top: Summary, r: Path) {
    && GoesOn(g, p)
    && exists e :: e in EdgesOf(g, p) && EdgeLeads(g, Transferred(g, p), g.memory(p), e, base, top, r)
  }

  /** Expanding `p` reaches the callers: this is the exit. */
  ghost predicate Leaves(g: Graph, p: Path, x: ExitKey, at: Access) {
    && GoesOn(g, p) && Return in EdgesOf(g, p) && at == g.transfer(p).at
    && x == ExitKey(p.node, Key(at.fields, at.kind, at.typ))
  }

  lemma {:induction false} RecordedOnly(s: Summary, ops: seq<Insertion>, k: Key)
    ensures RecordedAll(s, ops).exits == s.exits
    ensures k in RecordedAll(s, ops).effects ==> k in s.effects || exists i :: 0 <= i < |ops| && RecordsAs(ops[i], k)
  {
    if ops != [] {
      var n := |ops| - 1;
      RecordedOnly(s, ops[..n], k);
      if i :| 0 <= i < n && RecordsAs(ops[..n][i], k) {
        assert RecordsAs(ops[i], k);
      }
      assert KeyOf(ops[n].at) == k ==> RecordsAs(ops[n], k);
    }
  }

  lemma {:induction false} EffectsOnly(g: Graph, p: Path, many: bool, effects: seq<CalleeEffect>, s: Summary, k: Key)
    ensures k in MergedEffects(g, p, many, effects, s).effects && k !in s.effects ==>
              exists i :: 0 <= i < |effects| && Composes(g, p, many, effects[i].at, effects[i].compatible, k)
  {
    if effects != [] {
      var n := |effects| - 1;
      EffectsOnly(g, p, many, effects[..n], s, k);
      MergedEffectGrows(g, p, many, effects[n], MergedEffects(g, p, many, effects[..n], s));
      CompositionMeans(g, p, many, effects[n].at, effects[n].compatible);
      assert forall i :: 0 <= i < n ==> effects[..n][i] == effects[i];
    }
  }

  lemma OwnReason(g: Graph, p: Path, many: bool, compatible: Access -> bool, s: Summary, t: Summary, n: Key, k: Key)
    requires n in s.effects && Grows(MergedEffect(g, p, many, EffectAt(s.effects, compatible, n), s), t)
    requires k !in s.effects && k in MergedEffect(g, p, many, EffectAt(s.effects, compatible, n), s).effects
    ensures SourceRecords(g, p, many, Own(compatible), t, k)
  {
    var e := EffectAt(s.effects, compatible, n);
    var next := MergedEffect(g, p, many, e, s);
    MergedEffectGrows(g, p, many, e, s);
    CompositionMeans(g, p, many, e.at, e.compatible);
    GrowsTrans(s, next, t);
    assert EffectGrows(s, t, n);
    assert OwnBecomes(t, n, e.at);
  }

  lemma {:induction false} OwnOnly(g: Graph, p: Path, many: bool, compatible: Access -> bool, pos: Option<Key>,
                                   s: Summary,
                                   universe: set<Key>, k: Key)
    requires s.effects.Keys <= universe && Closed(p.at, universe)
    ensures var t := OwnMerged(g, p, many, compatible, pos, s, universe);
            k in t.effects && k !in s.effects ==> SourceRecords(g, p, many, Own(compatible), t, k)
    decreases |Ahead(universe, pos)|
  {
    var t := OwnMerged(g, p, many, compatible, pos, s, universe);
    if Ahead(s.effects.Keys, pos) != {} && k in t.effects && k !in s.effects {
      var n := Next(s.effects, pos);
      var e := EffectAt(s.effects, compatible, n);
      var next := MergedEffect(g, p, many, e, s);
      FewerAhead(universe, pos, n);
      ComposedStaysInside(g, p, many, e, s, universe);
      MergedEffectGrows(g, p, many, e, s);
      OwnGrows(g, p, many, compatible, Some(n), next, universe);
      if k in next.effects {
        OwnReason(g, p, many, compatible, s, t, n, k);
      } else {
        OwnOnly(g, p, many, compatible, Some(n), next, universe, k);
      }
    }
  }

  lemma {:induction false} ExitsOnly(g: Graph, p: Path, many: bool, exits: seq<CalleeExit>, worklist: seq<Path>,
                                     q: Path)
    requires q in MergedExits(g, p, many, exits, worklist)
    ensures q in worklist || exists i :: 0 <= i < |exits| && ResumesAs(g, p, many, exits[i], q)
  {
    if exits != [] {
      var n := |exits| - 1;
      CompositionMeans(g, p, many, exits[n].at, exits[n].compatible);
      if q in MergedExits(g, p, many, exits[..n], worklist) {
        ExitsOnly(g, p, many, exits[..n], worklist, q);
        assert forall i :: 0 <= i < n ==> exits[..n][i] == exits[i];
      }
    }
  }

  /** A reason stays one when the summary grows. */
  lemma StillRecords(g: Graph, p: Path, many: bool, c: Callee, t: Summary, u: Summary, k: Key)
    requires CalleeRecords(g, p, many, c, t, k) && Grows(t, u)
    ensures CalleeRecords(g, p, many, c, u, k)
  {
    if c.source.Own? && SourceRecords(g, p, many, c.source, t, k) {
      var j, e :| j != k && OwnBecomes(t, j, e) && Composes(g, p, many, e, c.source.compatible(e), k);
      assert EffectGrows(t, u, j);
      RaisedTrans(e, t.effects[j], u.effects[j]);
      assert OwnBecomes(u, j, e);
    }
  }

  lemma SourceOnly(g: Graph, p: Path, many: bool, source: Source, s: Summary, k: Key)
    ensures var t := MergedSource(g, p, many, source, s);
            k in t.effects && k !in s.effects ==> SourceRecords(g, p, many, source, t, k)
  {
    match source {
      case Listed(effects) => EffectsOnly(g, p, many, effects, s, k);
      case Own(compatible) => OwnOnly(g, p, many, compatible, None, s, OwnKeys(p.at, s), k);
    }
  }

  lemma FlaggedRecords(g: Graph, p: Path, many: bool, source: Source, t: Summary, u: Summary, k: Key)
    requires SourceRecords(g, p, many, source, t, k) && t.effects == u.effects
    ensures SourceRecords(g, p, many, source, u, k)
  {
    if source.Own? {
      var j, e :| j != k && OwnBecomes(t, j, e) && Composes(g, p, many, e, source.compatible(e), k);
      assert OwnBecomes(u, j, e);
    }
  }

  lemma CalleeOnly(g: Graph, p: Path, many: bool, c: Callee, st: State, k: Key, t: Summary)
    requires t == MergedCallee(g, p, many, c, st).summary && k in t.effects && k !in st.summary.effects
    ensures CalleeRecords(g, p, many, c, t, k)
  {
    var h := Handled(c, st.summary);
    var u := MergedSource(g, p, many, c.source, h);
    assert u.effects == t.effects;
    RecordedOnly(st.summary, c.handled, k);
    if k !in h.effects {
      SourceOnly(g, p, many, c.source, h, k);
      FlaggedRecords(g, p, many, c.source, u, t, k);
    }
  }

  lemma {:induction false} CalleesOnly(g: Graph, p: Path, many: bool, callees: seq<Callee>, st: State, k: Key)
    ensures var t := MergedCallees(g, p, many, callees, st).summary;
            k in t.effects && k !in st.summary.effects ==>
              exists i :: 0 <= i < |callees| && CalleeRecords(g, p, many, callees[i], t, k)
  {
    if callees != [] {
      var n := |callees| - 1;
      var t := MergedCallees(g, p, many, callees[..n], st);
      var u := MergedCallee(g, p, many, callees[n], t);
      CalleesOnly(g, p, many, callees[..n], st, k);
      if k in u.summary.effects && k !in t.summary.effects {
        CalleeOnly(g, p, many, callees[n], t, k, u.summary);
      } else if k in u.summary.effects && k !in st.summary.effects {
        var i :| 0 <= i < n && CalleeRecords(g, p, many, callees[..n][i], t.summary, k);
        MergedCalleeGrows(g, p, many, callees[n], t.summary, t);
        StillRecords(g, p, many, callees[i], t.summary, u.summary, k);
      }
    }
  }

  lemma {:induction false} ResumesOnly(g: Graph, p: Path, many: bool, callees: seq<Callee>, st: State, q: Path)
    requires q in MergedCallees(g, p, many, callees, st).worklist && q !in st.worklist
    ensures exists i :: 0 <= i < |callees| && CalleeResumes(g, p, many, callees[i], q)
  {
    var n := |callees| - 1;
    var t := MergedCallees(g, p, many, callees[..n], st);
    ExitsOnly(g, p, many, callees[n].exits, t.worklist, q);
    if q in t.worklist {
      ResumesOnly(g, p, many, callees[..n], st, q);
      assert forall i :: 0 <= i < n ==> callees[..n][i] == callees[i];
    }
  }

  lemma EdgeGrows(g: Graph, p: Path, mem: Id, e: Edge, st: State)
    ensures Grows(st.summary, FollowedEdge(g, p, mem, e, st).summary)
  {
    if e.Call? {
      MergedCalleesGrow(g, p, g.manyTargets(e.site), g.callees(e.site, p, st.summary), st);
    }
  }

  lemma {:induction false} EdgesGrow(g: Graph, p: Path, mem: Id, edges: seq<Edge>, st: State)
    ensures Grows(st.summary, FollowedAll(g, p, mem, edges, st).summary)
  {
    if edges != [] {
      var n := |edges| - 1;
      var t := FollowedAll(g, p, mem, edges[..n], st);
      EdgesGrow(g, p, mem, edges[..n], st);
      EdgeGrows(g, p, mem, edges[n], t);
      GrowsTrans(st.summary, t.summary, FollowedEdge(g, p, mem, edges[n], t).summary);
    }
  }

  lemma EdgeOnly(g: Graph, p: Path, mem: Id, e: Edge, st: State, base: Summary, top: Summary, k: Key, q: Path,
                 x: ExitKey)
    requires Grows(base, st.summary) && Grows(FollowedEdge(g, p, mem, e, st).summary, top)
    ensures var t := FollowedEdge(g, p, mem, e, st);
            && (k in t.summary.effects ==> k in st.summary.effects || EdgeRecords(g, p, e, base, top, k))
            && (q in t.worklist ==> q in st.worklist || EdgeLeads(g, p, mem, e, base, top, q))
            && (x in t.summary.exits && x !in st.summary.exits ==>
                  e == Return && x == ExitOf(p) && t.summary.exits[x] == p.at)
  {
    if e.Call? {
      var s := st.summary;
      var callees, many := g.callees(e.site, p, s), g.manyTargets(e.site);
      var t := MergedCallees(g, p, many, callees, st);
      CalleesOnly(g, p, many, callees, st, k);
      MergedCalleesGrow(g, p, many, callees, st);
      GrowsTrans(s, t.summary, top);
      if k in t.summary.effects && k !in s.effects {
        var i :| 0 <= i < |callees| && CalleeRecords(g, p, many, callees[i], t.summary, k);
        StillRecords(g, p, many, callees[i], t.summary, top, k);
        assert CallRecords(g, p, e.site, base, top, s, k);
      }
      if q in t.worklist && q !in st.worklist {
        ResumesOnly(g, p, many, callees, st, q);
        assert CallResumes(g, p, e.site, base, top, s, q);
      }
    }
  }

  lemma {:induction false} EdgesOnly(g: Graph, p: Path, mem: Id, edges: seq<Edge>, st: State, base: Summary,
                                     top: Summary,
                                     k: Key, q: Path, x: ExitKey)
    requires Grows(base, st.summary) && Grows(FollowedAll(g, p, mem, edges, st).summary, top)
    ensures var t := FollowedAll(g, p, mem, edges, st);
            && (k in t.summary.effects ==> k in st.summary.effects || exists e ::
                e in edges && EdgeRecords(g, p, e, base, top, k))
            && (q in t.worklist ==> q in st.worklist || exists e :: e in edges && EdgeLeads(g, p, mem, e, base, top, q))
            && (x in t.summary.exits && x !in st.summary.exits ==>
                  Return in edges && x == ExitOf(p) && t.summary.exits[x] == p.at)
  {
    if edges != [] {
      var n := |edges| - 1;
      var t := FollowedAll(g, p, mem, edges[..n], st);
      EdgesGrow(g, p, mem, edges[..n], st);
      EdgeGrows(g, p, mem, edges[n], t);
      GrowsTrans(t.summary, FollowedEdge(g, p, mem, edges[n], t).summary, top);
      GrowsTrans(base, st.summary, t.summary);
      EdgesOnly(g, p, mem, edges[..n], st, base, top, k, q, x);
      EdgeOnly(g, p, mem, edges[n], t, base, top, k, q, x);
      assert ExitStays(t.summary, FollowedEdge(g, p, mem, edges[n], t).summary, x);
      assert forall e :: e in edges <==> e in edges[..n] || e == edges[n];
    }
  }

  lemma ExpandedGrows(g: Graph, p: Path, st: State)
    ensures Grows(st.summary, Expanded(g, p, st).summary)
  {
    var next := State(Noted(g, p, st.summary), st.worklist);
    NotedGrows(g, p, st.summary);
    if !Ends(g, g.transfer(p)) {
      EdgesGrow(g, Transferred(g, p), g.memory(p), EdgesOf(g, p), next);
      GrowsTrans(st.summary, next.summary, Expanded(g, p, st).summary);
    }
  }

  /** Whatever an expansion adds comes from the path. */
  lemma ExpandedOnly(g: Graph, p: Path, st: State, k: Key, q: Path, x: ExitKey)
    ensures var t := Expanded(g, p, st);
            && (k in t.summary.effects ==> k in st.summary.effects || Records(g, p, st.summary, t.summary, k))
            && (q in t.worklist ==> q in st.worklist || Leads(g, p, st.summary, t.summary, q))
            && (x in t.summary.exits && x !in st.summary.exits ==> Leaves(g, p, x, t.summary.exits[x]))
  {
    var s, t := st.summary, Expanded(g, p, st).summary;
    RecordedOnly(s, g.transfer(p).recorded, k);
    NotedGrows(g, p, s);
    if !Ends(g, g.transfer(p)) {
      EdgesOnly(g, Transferred(g, p), g.memory(p), EdgesOf(g, p), State(Noted(g, p, s), st.worklist), s, t, k, q, x);
    }
  }

  // ------------------------------------------------------------- the run

  /** One expansion: the path, and the summary before and after. */
  datatype Step = Step(path: Path, before: Summary, after: Summary)

  ghost function Before(s: Summary, trace: seq<Step>, i: nat): Summary
    requires i <= |trace|
  {
    if i == 0 then s else trace[i - 1].after
  }

  ghost predicate Link(s: Summary, trace: seq<Step>, i: nat)
    requires i < |trace|
  {
    trace[i].before == Before(s, trace, i) && Grows(trace[i].before, trace[i].after)
  }

  /** The expansions follow one another from `s` to `t`. */
  ghost predicate Chain(s: Summary, t: Summary, trace: seq<Step>) {
    (forall i: nat {:trigger Link(s, trace, i)} :: i < |trace| ==> Link(s, trace, i)) && t == Before(s, trace, |trace|)
  }

  lemma {:induction false} ChainGrows(s: Summary, t: Summary, trace: seq<Step>, i: nat)
    requires Chain(s, t, trace) && i < |trace|
    ensures Grows(s, trace[i].before) && Grows(trace[i].after, t)
    decreases |trace|
  {
    var n := |trace| - 1;
    var front, last := trace[..n], trace[n];
    ChainFront(s, t, trace);
    if i < n {
      assert front[i] == trace[i];
      ChainGrows(s, last.before, front, i);
      GrowsTrans(trace[i].after, last.before, t);
    } else {
      if n == 0 {
        GrowsRefl(s);
      } else {
        assert front[n - 1] == trace[n - 1];
        ChainGrows(s, last.before, front, n - 1);
        GrowsTrans(s, trace[n - 1].before, last.before);
      }
      GrowsRefl(t);
    }
  }

  lemma ChainFront(s: Summary, t: Summary, trace: seq<Step>)
    requires Chain(s, t, trace) && trace != []
    ensures var n := |trace| - 1;
            && Chain(s, trace[n].before, trace[..n]) && Grows(trace[n].before, t)
            && trace[n].after == t && trace[n].before == Before(s, trace, n)
            && (n > 0 ==> Grows(trace[n - 1].before, trace[n].before))
  {
    var n := |trace| - 1;
    var front := trace[..n];
    assert Link(s, trace, n) && Before(s, front, n) == Before(s, trace, n);
    forall i: nat | i < |front|
      ensures Link(s, front, i)
    {
      assert Link(s, trace, i) && front[i] == trace[i] && Before(s, front, i) == Before(s, trace, i);
    }
    assert n > 0 ==> Link(s, trace, n - 1);
  }

  /** Every path met was led to by one expanded before, and every new effect and exit is
      one that an expanded path records or leaves by. */
  ghost predicate Founded(g: Graph, start: Path, s: Summary, t: Summary, worklist: seq<Path>, trace: seq<Step>) {
    && (forall i {:trigger LedTo(g, start, trace, i, trace[i].path)} ::
          0 <= i < |trace| ==> LedTo(g, start, trace, i, trace[i].path))
    && (forall q {:trigger q in worklist} :: q in worklist ==> LedTo(g, start, trace, |trace|, q))
    && (forall k {:trigger k in t.effects} :: k in t.effects && k !in s.effects ==> RecordedBy(g, trace, k))
    && (forall x {:trigger x in t.exits} :: x in t.exits && x !in s.exits ==> LeftBy(g, trace, x, t.exits[x]))
  }

  ghost predicate StepLeads(g: Graph, step: Step, q: Path) {
    Leads(g, step.path, step.before, step.after, q)
  }

  /** A step that adds the key `k` itself, for one of its reasons. */
  ghost predicate StepRecords(g: Graph, step: Step, k: Key) {
    k !in step.before.effects && Records(g, step.path, step.before, step.after, k)
  }

  ghost predicate LedTo(g: Graph, start: Path, trace: seq<Step>, n: nat, q: Path) {
    q == start || exists j {:trigger StepLeads(g, trace[j], q)} ::
      0 <= j < n && j < |trace| && StepLeads(g, trace[j], q)
  }

  ghost predicate RecordedBy(g: Graph, trace: seq<Step>, k: Key) {
    exists j {:trigger StepRecords(g, trace[j], k)} :: 0 <= j < |trace| && StepRecords(g, trace[j], k)
  }

  ghost predicate LeftBy(g: Graph, trace: seq<Step>, x: ExitKey, at: Access) {
    exists j {:trigger Leaves(g, trace[j].path, x, at)} :: 0 <= j < |trace| && Leaves(g, trace[j].path, x, at)
  }

  lemma LedStill(g: Graph, start: Path, trace: seq<Step>, step: Step, n: nat, q: Path)
    requires n <= |trace| && LedTo(g, start, trace, n, q)
    ensures LedTo(g, start, trace + [step], n, q) && LedTo(g, start, trace + [step], |trace| + 1, q)
  {
    if q != start {
      var j :| 0 <= j < n && StepLeads(g, trace[j], q);
      assert (trace + [step])[j] == trace[j];
    }
  }

  lemma LedNow(g: Graph, start: Path, trace: seq<Step>, step: Step, q: Path)
    requires StepLeads(g, step, q)
    ensures LedTo(g, start, trace + [step], |trace| + 1, q)
  {
    assert StepLeads(g, (trace + [step])[|trace|], q);
  }

  lemma RecordedStill(g: Graph, trace: seq<Step>, step: Step, k: Key)
    requires RecordedBy(g, trace, k) || StepRecords(g, step, k)
    ensures RecordedBy(g, trace + [step], k)
  {
    if StepRecords(g, step, k) {
      assert StepRecords(g, (trace + [step])[|trace|], k);
    } else {
      var j :| 0 <= j < |trace| && StepRecords(g, trace[j], k);
      assert StepRecords(g, (trace + [step])[j], k);
    }
  }

  lemma LeftStill(g: Graph, trace: seq<Step>, step: Step, x: ExitKey, at: Access)
    requires LeftBy(g, trace, x, at) || Leaves(g, step.path, x, at)
    ensures LeftBy(g, trace + [step], x, at)
  {
    if Leaves(g, step.path, x, at) {
      assert Leaves(g, (trace + [step])[|trace|].path, x, at);
    } else {
      var j :| 0 <= j < |trace| && Leaves(g, trace[j].path, x, at);
      assert Leaves(g, (trace + [step])[j].path, x, at);
    }
  }

  /** Popping and expanding keeps everything founded. */
  lemma StepIsFounded(g: Graph, start: Path, s: Summary, t: Summary, worklist: seq<Path>, trace: seq<Step>, u: Summary,
                      more: seq<Path>)
    requires worklist != [] && Founded(g, start, s, t, worklist, trace)
    requires State(u, more) == Expanded(g, worklist[|worklist| - 1], State(t, worklist[..|worklist| - 1]))
    ensures Founded(g, start, s, u, more, trace + [Step(worklist[|worklist| - 1], t, u)])
  {
    var n := |worklist| - 1;
    var p := worklist[n];
    var step := Step(p, t, u);
    var after := trace + [step];
    forall i | 0 <= i < |after|
      ensures LedTo(g, start, after, i, after[i].path)
    {
      if i < |trace| {
        assert LedTo(g, start, trace, i, trace[i].path);
        LedStill(g, start, trace, step, i, trace[i].path);
      } else {
        assert p in worklist;
        LedStill(g, start, trace, step, i, p);
      }
    }
    forall q | q in more
      ensures LedTo(g, start, after, |after|, q)
    {
      ExpandedOnly(g, p, State(t, worklist[..n]), KeyOf(p.at), q, ExitOf(p));
      if q in worklist[..n] {
        assert q in worklist;
        LedStill(g, start, trace, step, |trace|, q);
      } else {
        LedNow(g, start, trace, step, q);
      }
    }
    forall k | k in u.effects && k !in s.effects
      ensures RecordedBy(g, after, k)
    {
      ExpandedOnly(g, p, State(t, worklist[..n]), k, p, ExitOf(p));
      RecordedStill(g, trace, step, k);
    }
    forall x | x in u.exits && x !in s.exits
      ensures LeftBy(g, after, x, u.exits[x])
    {
      ExpandedOnly(g, p, State(t, worklist[..n]), KeyOf(p.at), p, x);
      ExpandedGrows(g, p, State(t, worklist[..n]));
      assert ExitStays(t, u, x);
      LeftStill(g, trace, step, x, u.exits[x]);
    }
  }

  lemma RecordsAreShallow(b: Bounds, g: Graph, p: Path, base: Summary, top: Summary, k: Key)
    requires WellBehaved(b, g) && InBounds(b, p) && SummaryFits(b, top) && Records(g, p, base, top, k)
    ensures |k.fields| <= MAX_FIELD_DEPTH + 1
  {
    var l := g.transfer(p);
    if !exists i :: 0 <= i < |l.recorded| && KeyOf(l.recorded[i].at) == k {
      var q := Transferred(g, p);
      var e :| e in EdgesOf(g, p) && EdgeRecords(g, q, e, base, top, k);
      var s :| CallRecords(g, q, e.site, base, top, s, k);
      var callees, many := g.callees(e.site, q, s), g.manyTargets(e.site);
      FitsEarlier(b, s, top);
      assert CallsFit(b, callees);
      var i :| 0 <= i < |callees| && CalleeRecords(g, q, many, callees[i], top, k);
      CalleeIsShallow(g, q, many, callees[i], top, k);
    }
  }

  lemma FitsEarlier(b: Bounds, s: Summary, t: Summary)
    requires SummaryFits(b, t) && Grows(s, t)
    ensures SummaryFits(b, s)
  {
    forall x | x in s.exits
      ensures Drawn(b, s.exits[x])
    {
      assert ExitStays(s, t, x);
    }
  }

  lemma CalleeIsShallow(g: Graph, p: Path, many: bool, c: Callee, t: Summary, k: Key)
    requires Shallow(c.handled) && CalleeRecords(g, p, many, c, t, k)
    ensures |k.fields| <= MAX_FIELD_DEPTH + 1
  {
  }
}
