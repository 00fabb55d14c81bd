/** Access types as objects that setters change, and their composition, which changes
    a copy of the prefix step by step. */
module AccessTypeObjects {
  import opened Wrappers
  import opened AccessTypes

  /** The keys of a map, each once, as a loop over the map meets them. */
  method KeysOf(m: Visits) returns (keys: seq<Followed>)
    ensures forall k :: k in keys <==> k in m
    ensures forall i, j :: 0 <= i < j < |keys| ==> keys[i] != keys[j]
  {
    keys := [];
    var rest := m.Keys;
    while rest != {}
      invariant forall k :: k in rest ==> k in m && k !in keys
      invariant forall k :: k in m ==> k in rest || k in keys
      invariant forall k :: k in keys ==> k in m
      invariant forall i, j :: 0 <= i < j < |keys| ==> keys[i] != keys[j]
      decreases |rest|
    {
      var k :| k in rest;
      keys, rest := keys + [k], rest - {k};
    }
  }

  function Only(v: Visits, keys: seq<Followed>): Visits {
    map k | k in v && k in keys :: v[k]
  }

  lemma Nothing(v: Visits, others: Visits)
    ensures Sum(v, Only(others, [])) == v && Larger(v, Only(others, [])) == v
  {
  }

  lemma Everything(others: Visits, keys: seq<Followed>)
    requires forall k :: k in others ==> k in keys
    ensures Only(others, keys) == others
  {
  }

  lemma OnlyOneMore(others: Visits, keys: seq<Followed>, i: nat)
    requires i < |keys| && keys[i] in others
    ensures Only(others, keys[..i + 1]) == Only(others, keys[..i])[keys[i] := others[keys[i]]]
  {
  }

  lemma SumOneMore(v: Visits, w: Visits, k: Followed, n: nat)
    requires k !in w
    ensures Sum(v, w)[k := Count(Sum(v, w), k) + n] == Sum(v, w[k := n])
  {
    assert Sum(v, w)[k := Count(Sum(v, w), k) + n].Keys == Sum(v, w[k := n]).Keys;
  }

  lemma LargerOneMore(v: Visits, w: Visits, k: Followed, n: nat)
    requires k !in w
    ensures var m := Larger(v, w); m[k := if Count(m, k) < n then n else Count(m, k)] == Larger(v, w[k := n])
  {
    assert Larger(v, w)[k := 0].Keys == Larger(v, w[k := n]).Keys;
  }

  lemma SumStep(v: Visits, others: Visits, keys: seq<Followed>, i: nat, now: Visits)
    requires i < |keys| && keys[i] in others && keys[i] !in keys[..i] && now == Sum(v, Only(others, keys[..i]))
    ensures now[keys[i] := Count(now, keys[i]) + others[keys[i]]] == Sum(v, Only(others, keys[..i + 1]))
  {
    OnlyOneMore(others, keys, i);
    SumOneMore(v, Only(others, keys[..i]), keys[i], others[keys[i]]);
  }

  lemma LargerStep(v: Visits, others: Visits, keys: seq<Followed>, i: nat, now: Visits)
    requires i < |keys| && keys[i] in others && keys[i] !in keys[..i] && now == Larger(v, Only(others, keys[..i]))
    ensures now[keys[i] := if Count(now, keys[i]) < others[keys[i]] then others[keys[i]] else Count(now, keys[i])]
         == Larger(v, Only(others, keys[..i + 1]))
  {
    OnlyOneMore(others, keys, i);
    LargerOneMore(v, Only(others, keys[..i]), keys[i], others[keys[i]]);
  }

  class AccessType {
    var icfg: set<Id>
    var fields: seq<int>
    var kind: Kind
    var typ: Id
    var di: Id
    var hasParent: bool
    var pFields: seq<int>
    var pKind: Kind
    var pTyp: Id
    var pDi: Id
    var cast: Id
    var visits: Visits

    function Value(): Access
      reads this
    {
      Access(icfg, fields, kind, typ, di, hasParent, pFields, pKind, pTyp, pDi, cast, visits)
    }

    constructor (t: Id, d: Id)
      ensures Value() == Access({}, [], NoAccess, t, d, false, [], NoAccess, 0, 0, 0, map[])
    {
      icfg, fields, kind, typ, di, hasParent := {}, [], NoAccess, t, d, false;
      pFields, pKind, pTyp, pDi, cast, visits := [], NoAccess, 0, 0, 0, map[];
    }

    constructor Copy(other: AccessType)
      ensures Value() == other.Value()
    {
      icfg, fields, kind, typ, di, hasParent :=
        other.icfg, other.fields, other.kind, other.typ, other.di, other.hasParent;
      pFields, pKind, pTyp, pDi, cast, visits :=
        other.pFields, other.pKind, other.pTyp, other.pDi, other.cast, other.visits;
    }

    /** One more field; the path so far becomes the parent. */
    method AddField(f: int)
      modifies this
      ensures Value() == Extended(old(Value()), [f], old(kind), old(typ), old(di))
      ensures fields == old(fields) + [f] && hasParent && pFields == old(fields)
      ensures pKind == kind == old(kind) && pTyp == typ == old(typ) && pDi == di == old(di)
      ensures icfg == old(icfg) && cast == old(cast) && visits == old(visits)
    {
      pFields, pKind, pTyp, pDi, hasParent := fields, kind, typ, di, true;
      fields := fields + [f];
    }

    method AppendPath(suffix: seq<int>, parentKind: Kind, parentTyp: Id, parentDi: Id)
      modifies this
      ensures Value() == Extended(old(Value()), suffix, parentKind, parentTyp, parentDi)
      ensures suffix == [] ==> Value() == old(Value())
      ensures fields == old(fields) + suffix && kind == old(kind) && typ == old(typ) && di == old(di)
      ensures icfg == old(icfg) && cast == old(cast) && visits == old(visits)
      ensures suffix != [] ==>
                && hasParent && pFields == fields[..|fields| - 1]
                && pKind == parentKind && pTyp == parentTyp && pDi == parentDi
    {
      if suffix == [] {
        return;
      }
      fields := fields + suffix;
      pFields := fields[..|fields| - 1];
      pKind, pTyp, pDi, hasParent := parentKind, parentTyp, parentDi, true;
    }

    method AddVisitedCount(k: Followed, count: nat)
      modifies this`visits
      ensures visits == old(visits)[k := Count(old(visits), k) + count]
    {
      visits := visits[k := Count(visits, k) + count];
    }

    method AddVisitedCounts(others: Visits)
      modifies this`visits
      ensures visits == Sum(old(visits), others)
    {
      var keys := KeysOf(others);
      Nothing(visits, others);
      for i := 0 to |keys|
        invariant visits == Sum(old(visits), Only(others, keys[..i]))
      {
        SumStep(old(visits), others, keys, i, visits);
        AddVisitedCount(keys[i], others[keys[i]]);
      }
      Everything(others, keys[..|keys|]);
    }

    method MergeVisitedMax(other: AccessType)
      requires other != this
      modifies this`visits
      ensures visits == Larger(old(visits), other.visits)
      ensures visits.Keys == old(visits).Keys + other.visits.Keys
      ensures forall k :: k in visits ==>
                && (k in old(visits) ==> old(visits)[k] <= visits[k])
                && (k in other.visits ==> other.visits[k] <= visits[k])
                && (|| (k in old(visits) && visits[k] == old(visits)[k])
                    || (k in other.visits && visits[k] == other.visits[k]))
    {
      var others := other.visits;
      var keys := KeysOf(others);
      Nothing(visits, others);
      for i := 0 to |keys|
        invariant visits == Larger(old(visits), Only(others, keys[..i])) && other.visits == others
      {
        LargerStep(old(visits), others, keys, i, visits);
        var n := others[keys[i]];
        visits := visits[keys[i] := if Count(visits, keys[i]) < n then n else Count(visits, keys[i])];
      }
      Everything(others, keys[..|keys|]);
    }
  }

  /** No counter of the suffix exceeds the limit on top of the prefix. */
  method WithinRecursionLimit(limit: nat, prefix: AccessType, suffix: AccessType) returns (ok: bool)
    ensures ok <==> forall k :: k in suffix.visits ==> Count(prefix.visits, k) + suffix.visits[k] <= limit
  {
    var rest := suffix.visits.Keys;
    while rest != {}
      invariant rest <= suffix.visits.Keys
      invariant forall k :: k in suffix.visits && k !in rest ==> Count(prefix.visits, k) + suffix.visits[k] <= limit
      decreases |rest|
    {
      var k :| k in rest;
      if Count(prefix.visits, k) + suffix.visits[k] > limit {
        return false;
      }
      rest := rest - {k};
    }
    return true;
  }

  /** How the type passed fits the one expected, and what is done about `void`. */
  datatype Matching = Reject | IsVoid | Match
  datatype VoidPolicy = OldLiberator | Accept | Cut

  predicate Fits(matching: Matching, policy: VoidPolicy, fields: seq<int>) {
    matching == Match || (matching == IsVoid && (policy == Accept || (policy == Cut && fields == [])))
  }

  /** Compose the two; null when the types do not match or a limit is exceeded. */
  method MergeAccessType(limit: nat, prefix: AccessType, suffix: AccessType, matching: Matching, policy: VoidPolicy)
    returns (out: AccessType?)
    ensures out == null <==>
              !Fits(matching, policy, suffix.fields) || Merge(limit, prefix.Value(), suffix.Value()).None?
    ensures out != null ==> fresh(out) && Merge(limit, prefix.Value(), suffix.Value()) == Some(out.Value())
    ensures out == null <==>
              || matching == Reject
              || (matching == IsVoid && (policy == OldLiberator || (policy == Cut && suffix.fields != [])))
              || |prefix.fields| + |suffix.fields| > 6
              || exists k :: k in suffix.visits &&
                   (if k in prefix.visits then prefix.visits[k] else 0) + suffix.visits[k] > limit
    ensures out != null ==>
              && out.fields == prefix.fields + suffix.fields && out.kind == suffix.kind
              && out.typ == prefix.typ && out.cast == prefix.cast && out.icfg == prefix.icfg
              && out.di == (if suffix.fields == [] then prefix.di else suffix.di)
    ensures out != null && suffix.fields == [] ==>
              && out.hasParent == prefix.hasParent && out.pFields == prefix.pFields
              && out.pKind == prefix.pKind && out.pTyp == prefix.pTyp && out.pDi == prefix.pDi
    ensures out != null && suffix.fields != [] ==>
              && out.hasParent && out.pFields == out.fields[..|out.fields| - 1]
              && (if |suffix.fields| == 1
                  then out.pKind == prefix.kind && out.pTyp == prefix.typ && out.pDi == prefix.di
                  else out.pKind == suffix.pKind && out.pTyp == suffix.pTyp && out.pDi == suffix.pDi)
    ensures out != null ==>
              && out.visits.Keys == prefix.visits.Keys + suffix.visits.Keys
              && forall k :: k in out.visits ==>
                   out.visits[k] == (if k in prefix.visits then prefix.visits[k] else 0)
                                    + (if k in suffix.visits then suffix.visits[k] else 0)
  {
    if matching == Reject {
      return null;
    }
    if matching == IsVoid {
      match policy {
        case OldLiberator => return null;
        case Accept =>
        case Cut =>
          if |suffix.fields| > 0 {
            return null;
          }
      }
    }
    out := Compose(limit, prefix, suffix);
  }

  /** Two types that match; null when a limit is exceeded. */
  method Compose(limit: nat, prefix: AccessType, suffix: AccessType) returns (out: AccessType?)
    ensures out == null <==> Merge(limit, prefix.Value(), suffix.Value()).None?
    ensures out != null ==> fresh(out) && Merge(limit, prefix.Value(), suffix.Value()) == Some(out.Value())
  {
    var ok := WithinRecursionLimit(limit, prefix, suffix);
    if !ok {
      return null;
    }
    if |prefix.fields| + |suffix.fields| > MAX_FIELD_DEPTH {
      return null;
    }
    out := new AccessType.Copy(prefix);
    if |suffix.fields| == 1 {
      out.AppendPath(suffix.fields, prefix.kind, prefix.typ, prefix.di);
    }
    if |suffix.fields| > 1 {
      out.AppendPath(suffix.fields, suffix.pKind, suffix.pTyp, suffix.pDi);
    }
    out.kind := suffix.kind;
    if |suffix.fields| > 0 {
      out.di := suffix.di;
    }
    out.AddVisitedCounts(suffix.visits);
  }
}
