/** Which types get the same string, said of the types themselves. */
module TypeEquivalence {
  import opened Wrappers
  import opened TypeStrings

  // ------------------------------------------------------------- kinds of types

  /** A qualifier or a member of a record: the type behind it counts. */
  predicate Transparent(t: Type) {
    && t.Derived?
    && t.tag in {ConstTag, VolatileTag, AtomicTag, RestrictTag, MemberTag}
  }

  predicate PointsTo(t: Type) {
    t.Derived? && t.tag in {PointerTag, ReferenceTag, RValueReferenceTag}
  }

  predicate IsVoid(t: Type) {
    t == NoType || (t.Basic? && t.bits == 0)
  }

  predicate IsInteger(t: Type) {
    t == Enumeration || (t.Basic? && t.bits > 0 && t.encoding == OtherEncoding)
  }

  /** The size by which floats are told apart: `long double` counts as 80 bits. */
  function FloatSize(t: Type): Option<nat> {
    if !t.Basic? || t.encoding != FloatEncoding || t.bits == 0 then None
    else if t.longDouble then Some(80)
    else if t.bits in {16, 32, 64, 80, 128} then Some(t.bits)
    else None
  }

  predicate IsEmptyRecord(t: Type) {
    t.Record? && !t.forwardDecl && !t.dataMembers
  }

  /** The name a type is known by; complex numbers are known as `none`. */
  function NameOf(t: Type): Option<string> {
    if t.Record? && !IsEmptyRecord(t) then Some(t.name)
    else if t.Basic? && t.encoding == ComplexFloat && t.bits > 0 then Some("none")
    else None
  }

  /** None of the above, nor an array or a function. */
  predicate IsOther(t: Type) {
    || t == OtherComposite
    || (t.Derived? && !Transparent(t) && !PointsTo(t))
    || (t.Basic? && t.encoding == FloatEncoding && t.bits > 0 && FloatSize(t).None?)
  }

  // ------------------------------------------------------------- size

  function Size(t: Type): nat {
    match t
    case Subroutine(types) => 1 + SizeAll(types)
    case Derived(_, base) => 1 + Size(base)
    case Array(_, base, elements) => 1 + |elements| + Size(base)
    case _ => 1
  }

  function SizeAll(types: seq<Type>): (r: nat)
    ensures r > 0
  {
    if types == [] then 1 else Size(types[0]) + SizeAll(types[1..])
  }

  lemma Positive(t: Type)
    ensures Size(t) > 0
  {
  }

  // ------------------------------------------------------------- arrays

  /** The elements from the first dimension on. */
  function Dims(elements: seq<Element>): (r: seq<Element>)
    ensures |r| <= |elements| && (r != [] ==> r[0].Subrange?)
  {
    if elements == [] || elements[0].Subrange? then elements else Dims(elements[1..])
  }

  /** The first count; none known is zero. */
  function FirstCount(t: Type): nat
    requires t.Array?
  {
    var dims := Dims(t.elements);
    if dims == [] || dims[0].count.None? then 0 else dims[0].count.value
  }

  /** What an array has as many of as its first dimension says. */
  function Inner(t: Type): (r: Type)
    requires t.Array?
    ensures Size(r) < Size(t)
  {
    var dims := Dims(t.elements);
    if dims == [] || Dims(dims[1..]) == [] then t.base else Array(t.vector, t.base, dims[1..])
  }

  // ------------------------------------------------------------- functions

  /** Parameters without a type do not count. */
  function Given(types: seq<Type>): (r: seq<Type>)
    ensures SizeAll(r) <= SizeAll(types)
  {
    if types == [] then [] else
      var rest := Given(types[1..]);
      if types[0] == NoType then rest else [types[0]] + rest
  }

  /** The result, nothing if none is given, and the parameters. */
  function Signature(types: seq<Type>): (r: seq<Type>)
    ensures SizeAll(r) <= SizeAll(types) + 1
  {
    if types == [] then [NoType] else [types[0]] + Given(types[1..])
  }

  // ------------------------------------------------------------- the relation

  /** Void or an integer, qualified or not. */
  predicate VoidOrInteger(t: Type) {
    if Transparent(t) then VoidOrInteger(t.base) else IsVoid(t) || IsInteger(t)
  }

  /** The same to the strings: qualifiers and members do not count, references are
      pointers, what points to nothing points to an integer, arrays agree dimension by
      dimension, functions in result and parameters, records in their names, floats in
      their sizes. */
  predicate Alike(t: Type, u: Type)
    decreases Size(t) + Size(u), 1
  {
    if Transparent(t) then Alike(t.base, u)
    else if Transparent(u) then Alike(t, u.base)
    else if PointsTo(t) && PointsTo(u) then
      Alike(t.base, u.base) || (VoidOrInteger(t.base) && VoidOrInteger(u.base))
    else if t.Array? && u.Array? then
      t.vector == u.vector && FirstCount(t) == FirstCount(u) && Alike(Inner(t), Inner(u))
    else if t.Subroutine? && u.Subroutine? then
      Positive(t);
      AlikeAll(Signature(t.types), Signature(u.types))
    else
      || (IsVoid(t) && IsVoid(u)) || (IsInteger(t) && IsInteger(u)) || (IsOther(t) && IsOther(u))
      || (IsEmptyRecord(t) && IsEmptyRecord(u))
      || (FloatSize(t).Some? && FloatSize(t) == FloatSize(u)) || (NameOf(t).Some? && NameOf(t) == NameOf(u))
  }

  predicate AlikeAll(ts: seq<Type>, us: seq<Type>)
    decreases SizeAll(ts) + SizeAll(us), 0
  {
    if ts == [] || us == [] then ts == us
    else
      Positive(ts[0]);
      Alike(ts[0], us[0]) && AlikeAll(ts[1..], us[1..])
  }

  // ------------------------------------------------------------- the theorem

  lemma {:induction false} CountsOfDims(elements: seq<Element>)
    ensures var dims := Dims(elements);
            Counts(elements) == if dims == [] then []
                                else [if dims[0].count.Some? then dims[0].count.value else 0] + Counts(dims[1..])
  {
    if elements != [] && !elements[0].Subrange? {
      CountsOfDims(elements[1..]);
    }
  }

  lemma NormOfArray(t: Type)
    requires t.Array?
    ensures Norm(t) == Dimension(t.vector, FirstCount(t), Norm(Inner(t)))
  {
    var dims, counts := Dims(t.elements), Dimensions(t.elements);
    CountsOfDims(t.elements);
    assert Nested(t.vector, counts, Norm(t.base))
        == Dimension(t.vector, counts[0], Nested(t.vector, counts[1..], Norm(t.base)));
    if dims != [] {
      CountsOfDims(dims[1..]);
      assert counts[1..] == Counts(dims[1..]);
    }
  }

  function NormAll(types: seq<Type>): (r: seq<Normal>)
    ensures |r| == |types|
  {
    if types == [] then [] else [Norm(types[0])] + NormAll(types[1..])
  }

  lemma {:induction false} ParamsAreGiven(types: seq<Type>)
    ensures Params(types) == NormAll(Given(types))
  {
    if types != [] {
      ParamsAreGiven(types[1..]);
      assert ([types[0]] + Given(types[1..]))[1..] == Given(types[1..]);
    }
  }

  lemma NormOfFunction(types: seq<Type>)
    ensures Norm(Subroutine(types)) == Function(NormAll(Signature(types)))
  {
    if types == [] {
      assert NormAll([NoType]) == [Void];
    } else {
      ParamsAreGiven(types[1..]);
      assert ([types[0]] + Given(types[1..]))[1..] == Given(types[1..]);
    }
  }

  lemma {:induction false} VoidOrIntegerIsNorm(t: Type)
    ensures VoidOrInteger(t) <==> Norm(t) == Void || Norm(t) == Integer
  {
    if Transparent(t) {
      VoidOrIntegerIsNorm(t.base);
    } else if t.Array? {
      NormOfArray(t);
    }
  }

  /** A type by itself, neither transparent nor made of others. */
  lemma LeafNorm(t: Type)
    requires !Transparent(t) && !PointsTo(t) && !t.Array? && !t.Subroutine?
    ensures IsVoid(t) <==> Norm(t) == Void
    ensures IsInteger(t) <==> Norm(t) == Integer
    ensures IsOther(t) <==> Norm(t) == Unknown
    ensures IsEmptyRecord(t) <==> Norm(t) == NoMembers
    ensures NameOf(t).Some? <==> Norm(t).Struct?
    ensures NameOf(t).Some? ==> Norm(t).name == NameOf(t).value
    ensures FloatSize(t).Some? <==> Norm(t).Floating?
    ensures FloatSize(t).Some? ==> FloatSize(t).value == KindSize(Norm(t).kind)
    ensures !Norm(t).Pointer? && !Norm(t).Function? && !Norm(t).Dimension?
  {
  }

  function KindSize(k: FloatKind): nat {
    match k
    case Half => 16
    case Single => 32
    case Double => 64
    case Extended => 80
    case Quad => 128
  }

  /** Alike types have equal normal forms, and others do not. */
  lemma {:induction false} AlikeIsNorm(t: Type, u: Type)
    ensures Alike(t, u) <==> Norm(t) == Norm(u)
    decreases Size(t) + Size(u), 1
  {
    if Transparent(t) {
      AlikeIsNorm(t.base, u);
    } else if Transparent(u) {
      AlikeIsNorm(t, u.base);
    } else if PointsTo(t) && PointsTo(u) {
      AlikeIsNorm(t.base, u.base);
      VoidOrIntegerIsNorm(t.base);
      VoidOrIntegerIsNorm(u.base);
    } else if t.Array? && u.Array? {
      NormOfArray(t);
      NormOfArray(u);
      AlikeIsNorm(Inner(t), Inner(u));
    } else if t.Subroutine? && u.Subroutine? {
      NormOfFunction(t.types);
      NormOfFunction(u.types);
      AlikeAllIsNorm(Signature(t.types), Signature(u.types));
    } else {
      DifferentKinds(t, u);
    }
  }

  lemma KindNorm(t: Type)
    requires !Transparent(t)
    ensures PointsTo(t) <==> Norm(t).Pointer?
    ensures t.Array? <==> Norm(t).Dimension?
    ensures t.Subroutine? <==> Norm(t).Function?
  {
    if t.Array? {
      NormOfArray(t);
    } else if !PointsTo(t) && !t.Subroutine? {
      LeafNorm(t);
    }
  }

  lemma DifferentKinds(t: Type, u: Type)
    requires !Transparent(t) && !Transparent(u)
    requires !(PointsTo(t) && PointsTo(u)) && !(t.Array? && u.Array?) && !(t.Subroutine? && u.Subroutine?)
    ensures Alike(t, u) <==> Norm(t) == Norm(u)
  {
    KindNorm(t);
    KindNorm(u);
    if !PointsTo(t) && !t.Array? && !t.Subroutine? {
      LeafNorm(t);
    }
    if !PointsTo(u) && !u.Array? && !u.Subroutine? {
      LeafNorm(u);
    }
  }

  lemma {:induction false} AlikeAllIsNorm(ts: seq<Type>, us: seq<Type>)
    ensures AlikeAll(ts, us) <==> NormAll(ts) == NormAll(us)
    decreases SizeAll(ts) + SizeAll(us), 0
  {
    if ts != [] && us != [] {
      Positive(ts[0]);
      AlikeIsNorm(ts[0], us[0]);
      AlikeAllIsNorm(ts[1..], us[1..]);
      assert NormAll(ts)[0] == Norm(ts[0]) && NormAll(ts)[1..] == NormAll(ts[1..]);
      assert NormAll(us)[0] == Norm(us[0]) && NormAll(us)[1..] == NormAll(us[1..]);
      assert NormAll(ts) == [Norm(ts[0])] + NormAll(ts[1..]);
    }
  }

  /** Types get the same string exactly when they are alike. */
  lemma SameStringIsAlike(t: Type, u: Type)
    requires CleanType(t) && CleanType(u)
    ensures Text(Norm(t)) == Text(Norm(u)) <==> Alike(t, u)
  {
    StringsAreUnambiguous(t, u);
    AlikeIsNorm(t, u);
  }

  // ------------------------------------------------------------- how strings are spelt

  /** The strings of the types listed, with a comma in front of each. */
  function Commas(types: seq<Type>): string {
    if types == [] then "" else "," + Text(Norm(types[0])) + Commas(types[1..])
  }

  lemma {:induction false} CommasAreListed(types: seq<Type>)
    ensures Commas(types) == Listed(NormAll(types))
  {
    if types != [] {
      CommasAreListed(types[1..]);
      assert NormAll(types)[1..] == NormAll(types[1..]);
      Regroup(",", Text(Norm(types[0])), Commas(types[1..]));
    }
  }

  /** The letters of a type that is not made of others. */
  lemma LeafSpelling(t: Type)
    ensures IsVoid(t) ==> Text(Norm(t)) == "VO"
    ensures IsInteger(t) ==> Text(Norm(t)) == "IN"
    ensures IsOther(t) ==> Text(Norm(t)) == "UN"
    ensures IsEmptyRecord(t) ==> Text(Norm(t)) == "FN"
    ensures NameOf(t).Some? ==> Text(Norm(t)) == "ST[" + NameOf(t).value + "]"
  {
    if NameOf(t).Some? {
      Spaced("ST", NameOf(t).value);
    }
  }

  lemma FloatSpelling(t: Type)
    ensures FloatSize(t) == Some(16) ==> Text(Norm(t)) == "HA"
    ensures FloatSize(t) == Some(32) ==> Text(Norm(t)) == "FL"
    ensures FloatSize(t) == Some(64) ==> Text(Norm(t)) == "DO"
    ensures FloatSize(t) == Some(80) ==> Text(Norm(t)) == "F8"
    ensures FloatSize(t) == Some(128) ==> Text(Norm(t)) == "FP"
  {
  }

  lemma Spaced(tag: string, inner: string)
    ensures tag + ("[" + (inner + "]")) == tag + "[" + inner + "]"
    ensures tag == "ST" ==> tag + "[" == "ST["
    ensures tag == "TP" ==> tag + "[" == "TP["
    ensures tag == "FN" ==> tag + "[" == "FN["
    ensures tag == "AR" ==> tag + "[" == "AR["
    ensures tag == "VF" ==> tag + "[" == "VF["
  {
  }

  /** The brackets of a type made of others. */
  lemma Spelling(t: Type)
    ensures Transparent(t) ==> Text(Norm(t)) == Text(Norm(t.base))
    ensures PointsTo(t) ==> Text(Norm(t)) == "TP[" + (if VoidOrInteger(t.base) then "IN" else Text(Norm(t.base))) + "]"
    ensures t.Array? ==> Text(Norm(t)) == (if t.vector then "VF[" else "AR[") +
                                          (Decimal(FirstCount(t)) + ("," + Text(Norm(Inner(t))))) + "]"
    ensures t.Subroutine? ==>
              Text(Norm(t)) == "FN[" + (Decimal(|Signature(t.types)|) + Commas(Signature(t.types))) + "]"
  {
    if PointsTo(t) {
      VoidOrIntegerIsNorm(t.base);
      Spaced("TP", Text(Pointee(Norm(t.base))));
    } else if t.Array? {
      NormOfArray(t);
      var count, of := Decimal(FirstCount(t)), Text(Norm(Inner(t)));
      Spaced(if t.vector then "VF" else "AR", count + ("," + of));
      Regroup(",", of, "]");
      Regroup(count, "," + of, "]");
    } else if t.Subroutine? {
      NormOfFunction(t.types);
      var number, list := Decimal(|Signature(t.types)|), Commas(Signature(t.types));
      CommasAreListed(Signature(t.types));
      Spaced("FN", number + list);
      Regroup(number, list, "]");
    }
  }
}
