/** Access types: the path of fields along which a value is accessed, and how. Their
    composition across a call, and the set that collects them. */
module AccessTypes {
  import opened Wrappers

  const MAX_FIELD_DEPTH: nat := 6

  datatype Kind = NoAccess | Read | Write | Ret | Del | Create | File | InputStream | OutputStream

  /** Types and their keys are known by number, zero standing for none. */
  type Id = nat

  /** A field of a record. */
  datatype Followed = Followed(record: Id, field: int)

  /** How often a field of a record was followed. */
  type Visits = map<Followed, nat>

  /** `has_parent` and the `p_` parts describe the path without its last field. */
  datatype Access = Access(
    icfg: set<Id>, fields: seq<int>, kind: Kind, typ: Id, di: Id,
    hasParent: bool, pFields: seq<int>, pKind: Kind, pTyp: Id, pDi: Id, cast: Id, visits: Visits)

  function Count(v: Visits, k: Followed): nat {
    if k in v then v[k] else 0
  }

  // ------------------------------------------------------------- composition

  /** What `append_path` does to a path. */
  function Extended(a: Access, suffix: seq<int>, kind: Kind, typ: Id, di: Id): Access {
    if suffix == [] then a
    else
      var all := a.fields + suffix;
      a.(fields := all, pFields := all[..|all| - 1], pKind := kind, pTyp := typ, pDi := di, hasParent := true)
  }

  function Sum(v: Visits, w: Visits): Visits {
    map k | k in v.Keys + w.Keys :: Count(v, k) + Count(w, k)
  }

  /** The larger counter of every key. */
  function Larger(v: Visits, w: Visits): Visits {
    map k | k in v.Keys + w.Keys :: if Count(v, k) < Count(w, k) then Count(w, k) else Count(v, k)
  }

  predicate WithinLimits(limit: nat, prefix: Access, suffix: Access) {
    && (forall k :: k in suffix.visits ==> Count(prefix.visits, k) + suffix.visits[k] <= limit)
    && |prefix.fields| + |suffix.fields| <= MAX_FIELD_DEPTH
  }

  function Composed(prefix: Access, suffix: Access): Access {
    var path :=
      if |suffix.fields| == 1 then Extended(prefix, suffix.fields, prefix.kind, prefix.typ, prefix.di)
      else Extended(prefix, suffix.fields, suffix.pKind, suffix.pTyp, suffix.pDi);
    path.(kind := suffix.kind, di := if suffix.fields == [] then prefix.di
          else suffix.di, visits := Sum(prefix.visits, suffix.visits))
  }

  /** The composition of two access types whose types match, if it stays within the limits. */
  function Merge(limit: nat, prefix: Access, suffix: Access): Option<Access> {
    if WithinLimits(limit, prefix, suffix) then Some(Composed(prefix, suffix)) else None
  }

  function MergeLeft(limit: nat, a: Access, b: Access, c: Access): Option<Access> {
    var ab := Merge(limit, a, b);
    if ab.None? then None else Merge(limit, ab.value, c)
  }

  function MergeRight(limit: nat, a: Access, b: Access, c: Access): Option<Access> {
    var bc := Merge(limit, b, c);
    if bc.None? then None else Merge(limit, a, bc.value)
  }

  lemma CountOfSum(v: Visits, w: Visits, k: Followed)
    ensures Count(Sum(v, w), k) == Count(v, k) + Count(w, k)
  {
  }

  lemma SumIsAssociative(u: Visits, v: Visits, w: Visits)
    ensures Sum(Sum(u, v), w) == Sum(u, Sum(v, w))
  {
    forall k
      ensures Count(Sum(Sum(u, v), w), k) == Count(Sum(u, Sum(v, w)), k)
    {
      CountOfSum(Sum(u, v), w, k);
      CountOfSum(u, v, k);
      CountOfSum(u, Sum(v, w), k);
      CountOfSum(v, w, k);
    }
    assert Sum(Sum(u, v), w).Keys == Sum(u, Sum(v, w)).Keys;
    forall k | k in Sum(Sum(u, v), w)
      ensures Sum(Sum(u, v), w)[k] == Sum(u, Sum(v, w))[k]
    {
      assert Sum(Sum(u, v), w)[k] == Count(Sum(Sum(u, v), w), k);
    }
  }

  /** The limits are exceeded in one grouping exactly when they are in the other. */
  lemma LimitsAreAssociative(limit: nat, a: Access, b: Access, c: Access)
    ensures WithinLimits(limit, a, b) && WithinLimits(limit, Composed(a, b), c) <==>
              WithinLimits(limit, b, c) && WithinLimits(limit, a, Composed(b, c))
  {
    forall k
      ensures Count(Composed(a, b).visits, k) == Count(a.visits, k) + Count(b.visits, k)
      ensures Count(Composed(b, c).visits, k) == Count(b.visits, k) + Count(c.visits, k)
    {
    }
    assert |Composed(a, b).fields| == |a.fields| + |b.fields| && |Composed(b, c).fields| == |b.fields| + |c.fields|;
  }

  /** Where the two groupings may disagree: the kind and the type of the parent. */
  predicate SameParent(a: Access, b: Access, c: Access) {
    |c.fields| == 1 ==> if b.fields == [] then a.kind == b.kind else a.typ == b.typ
  }

  /** The path of `c` is that of `a` with that of `b` appended. */
  predicate Appends(a: Access, b: Access, c: Access) {
    if b.fields == [] then c.fields == a.fields && c.pFields == a.pFields && c.hasParent == a.hasParent
    else
      && c.fields == a.fields + b.fields && c.hasParent
      && c.pFields == c.fields[..|c.fields| - 1]
  }

  lemma ComposedAppends(a: Access, b: Access)
    ensures Appends(a, b, Composed(a, b))
  {
  }

  lemma PathsAgree(a: Access, b: Access, c: Access, ab: Access, bc: Access, l: Access, r: Access)
    requires Appends(a, b, ab) && Appends(b, c, bc) && Appends(ab, c, l) && Appends(a, bc, r)
    ensures l.fields == r.fields && l.hasParent == r.hasParent && l.pFields == r.pFields
  {
    assert a.fields + b.fields + c.fields == a.fields + (b.fields + c.fields);
  }

  lemma RestAgrees(a: Access, b: Access, c: Access)
    ensures var l, r := Composed(Composed(a, b), c), Composed(a, Composed(b, c));
            l.kind == r.kind && l.di == r.di && l.pDi == r.pDi && l.visits == r.visits &&
            (l.icfg, l.typ, l.cast) == (r.icfg, r.typ, r.cast)
  {
    SumIsAssociative(a.visits, b.visits, c.visits);
  }

  lemma GroupingsAgree(a: Access, b: Access, c: Access)
    ensures var l, r := Composed(Composed(a, b), c), Composed(a, Composed(b, c));
            l.(pKind := r.pKind, pTyp := r.pTyp) == r &&
            (l.pKind == r.pKind && l.pTyp == r.pTyp <==> SameParent(a, b, c))
  {
    var ab, bc := Composed(a, b), Composed(b, c);
    ComposedAppends(a, b);
    ComposedAppends(b, c);
    ComposedAppends(ab, c);
    ComposedAppends(a, bc);
    PathsAgree(a, b, c, ab, bc, Composed(ab, c), Composed(a, bc));
    RestAgrees(a, b, c);
  }

  /** Composition is associative, definedness included, in everything but the kind and
      the type recorded for the parent; and in these exactly when the path of the last
      part is one field long only where it does not matter. */
  lemma MergeIsAssociative(limit: nat, a: Access, b: Access, c: Access)
    ensures MergeLeft(limit, a, b, c).Some? <==> MergeRight(limit, a, b, c).Some?
    ensures MergeLeft(limit, a, b, c).Some? ==>
              var l, r := MergeLeft(limit, a, b, c).value, MergeRight(limit, a, b, c).value;
              l.(pKind := r.pKind, pTyp := r.pTyp) == r
    ensures MergeLeft(limit, a, b, c).Some? ==>
              (MergeLeft(limit, a, b, c) == MergeRight(limit, a, b, c) <==> SameParent(a, b, c))
  {
    LimitsAreAssociative(limit, a, b, c);
    GroupingsAgree(a, b, c);
  }

  /** An access along no field, and one along a field from there. */
  function Whole(kind: Kind): Access {
    Access({}, [], kind, 0, 0, false, [], NoAccess, 0, 0, 0, map[])
  }

  function FieldOf(parent: Kind, field: int, kind: Kind): Access {
    Extended(Whole(parent), [field], parent, 0, 0).(kind := kind)
  }

  /** A read, a write without fields, and one field: the recorded kind of the parent is
      the read in one grouping and the write in the other. */
  lemma GroupingsDiffer()
    ensures var a, b, c := FieldOf(NoAccess, 1, Read), Whole(Write), FieldOf(Read, 2, Ret);
            && !SameParent(a, b, c) && MergeLeft(1, a, b, c).Some? && MergeRight(1, a, b, c).Some?
            && MergeLeft(1, a, b, c).value.pKind == Write && MergeRight(1, a, b, c).value.pKind == Read
  {
    var a, b, c := FieldOf(NoAccess, 1, Read), Whole(Write), FieldOf(Read, 2, Ret);
    assert Composed(a, b).visits == map[] && Composed(b, c).visits == map[];
  }
}
