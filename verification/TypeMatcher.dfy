/** How the string of a type is built, and the cache in front of it. */
module TypeMatcher {
  import opened TypeStrings

  function Peeled(t: Type): (r: Type)
    ensures Norm(r) == Norm(t) && !(r.Derived? && IsQualifier(r.tag))
  {
    if t.Derived? && IsQualifier(t.tag) then Peeled(t.base) else t
  }

  /** Strip the qualifiers. */
  method Peel(t: Type) returns (r: Type)
    ensures r == Peeled(t) && (t nonincreases to r)
  {
    r := t;
    while r.Derived? && IsQualifier(r.tag)
      invariant Peeled(r) == Peeled(t) && (t nonincreases to r)
      decreases r
    {
      r := r.base;
    }
  }

  /** The string of a floating-point type, after its size in bits. */
  method FloatString(bits: nat, longDouble: bool) returns (s: string)
    ensures s == Text(NormalFloat(bits, longDouble))
  {
    if longDouble {
      return "F8";
    }
    match bits {
      case 16 => return "HA";
      case 32 => return "FL";
      case 64 => return "DO";
      case 80 => return "F8";
      case 128 => return "FP";
      case _ => return "UN";
    }
  }

  method BasicString(encoding: Encoding, bits: nat, longDouble: bool) returns (s: string)
    ensures s == Text(NormalBasic(encoding, bits, longDouble))
  {
    if bits == 0 {
      return "VO";
    }
    match encoding {
      case FloatEncoding => s := FloatString(bits, longDouble);
      case ComplexFloat => return "ST[none]";
      case OtherEncoding => return "IN";
    }
  }

  lemma PointeeText(n: Normal)
    ensures Text(Pointee(n)) == if Text(n) == "VO" then "IN" else Text(n)
  {
    if Text(n) == "VO" {
      TextSplits(n, "");
      assert Head(n) == "VO";
    }
  }

  lemma Bracketed(tag: string, inner: string)
    ensures tag + "[" + inner + "]" == tag + ("[" + (inner + "]"))
    ensures tag == "TP" ==> "TP[" == tag + "["
    ensures tag == "ST" ==> "ST[" == tag + "["
    ensures tag == "FN" ==> "FN[" == tag + "["
    ensures tag == "AR" ==> "AR[" == tag + "["
    ensures tag == "VF" ==> "VF[" == tag + "["
  {
  }

  method UniqueString(given: Type) returns (s: string)
    ensures s == Text(Norm(given))
    decreases given, 1
  {
    var t := Peel(given);
    match t {
      case NoType => return "VO";
      case Basic(encoding, bits, longDouble) => s := BasicString(encoding, bits, longDouble);
      case Subroutine(types) => s := SubroutineString(types);
      case Derived(tag, base) =>
        if tag == MemberTag {
          s := UniqueString(base);
        } else if tag == PointerTag || tag == ReferenceTag || tag == RValueReferenceTag {
          var pointee := UniqueString(base);
          PointeeText(Norm(base));
          if pointee == "VO" {
            pointee := "IN";
          }
          s := "TP[" + pointee + "]";
          Bracketed("TP", pointee);
        } else {
          return "UN";
        }
      case Array(vector, base, elements) => s := ArrayString(vector, base, elements);
      case Enumeration => return "IN";
      case Record(name, forwardDecl, dataMembers) =>
        if !forwardDecl && !dataMembers {
          return "FN";
        }
        s := "ST[" + name + "]";
        Bracketed("ST", name);
      case OtherComposite => return "UN";
    }
  }

  /** The strings of the types listed, with a comma in front of each. */
  lemma {:induction false} ListedAppends(ms: seq<Normal>, n: Normal)
    ensures Listed(ms + [n]) == Listed(ms) + ("," + Text(n))
  {
    if ms == [] {
      assert ms + [n] == [n];
    } else {
      ListedAppends(ms[1..], n);
      assert (ms + [n])[0] == ms[0] && (ms + [n])[1..] == ms[1..] + [n];
      Regroup(Text(ms[0]), Listed(ms[1..]), "," + Text(n));
      Regroup(",", Text(ms[0]) + Listed(ms[1..]), "," + Text(n));
    }
  }

  lemma {:induction false} ParamsAppend(types: seq<Type>, t: Type)
    ensures Params(types + [t]) == Params(types) + if t == NoType then [] else [Norm(t)]
  {
    if types == [] {
      assert types + [t] == [t];
    } else {
      ParamsAppend(types[1..], t);
      assert (types + [t])[1..] == types[1..] + [t];
    }
  }

  /** Result first, parameters without a type skipped, the number of both in front. */
  method SubroutineString(types: seq<Type>) returns (hash: string)
    ensures hash == Text(Norm(Subroutine(types)))
    decreases types, 0
  {
    var ret := "VO";
    ghost var normal := [Void];
    if |types| > 0 {
      ret := UniqueString(types[0]);
      normal := [Norm(types[0])];
    }
    var number, list := 1, "," + ret;
    var i := 1;
    while i < |types|
      invariant |normal| == number && list == Listed(normal) && i >= 1
      invariant types == [] ==> normal == [Void]
      invariant types != [] ==> i <= |types| && normal == [Norm(types[0])] + Params(types[1..i])
    {
      assert types[1..i + 1] == types[1..i] + [types[i]];
      ParamsAppend(types[1..i], types[i]);
      if types[i] != NoType {
        var param := UniqueString(types[i]);
        ListedAppends(normal, Norm(types[i]));
        number, list := number + 1, list + ("," + param);
        normal := normal + [Norm(types[i])];
      }
      i := i + 1;
    }
    assert types != [] ==> types[1..|types|] == types[1..];
    assert Norm(Subroutine(types)) == Function(normal);
    hash := "FN[" + Decimal(number) + list + "]";
    FunctionText(Decimal(number), list);
  }

  lemma FunctionText(d: string, list: string)
    ensures "FN[" + d + list + "]" == "FN" + ("[" + (d + (list + "]")))
  {
    Bracketed("FN", d + list);
    Regroup("FN[", d, list);
    Regroup(d, list, "]");
  }

  lemma DimensionText(tag: string, d: string, inner: string)
    ensures tag + "[" + d + "," + inner + "]" == tag + ("[" + (d + ("," + (inner + "]"))))
  {
  }

  method CollectCounts(elements: seq<Element>) returns (counts: seq<nat>)
    ensures counts == Counts(elements)
  {
    counts := [];
    for i := 0 to |elements|
      invariant counts + Counts(elements[i..]) == Counts(elements)
    {
      match elements[i] {
        case Subrange(count) => counts := counts + [if count.Some? then count.value else 0];
        case OtherElement =>
      }
    }
  }

  /** One pair of brackets for every dimension, the last one innermost. */
  method ArrayString(vector: bool, base: Type, elements: seq<Element>) returns (hash: string)
    ensures hash == Text(Norm(Array(vector, base, elements)))
    decreases base, 2
  {
    hash := UniqueString(base);
    var counts := CollectCounts(elements);
    if counts == [] {
      counts := [0];
    }
    for i := |counts| downto 0
      invariant hash == Text(Nested(vector, counts[i..], Norm(base)))
    {
      hash := OneDimension(vector, counts[i], hash, Nested(vector, counts[i + 1..], Norm(base)));
      assert Nested(vector, counts[i..], Norm(base)) ==
               Dimension(vector, counts[i], Nested(vector, counts[i + 1..], Norm(base)));
    }
    assert counts[0..] == counts;
  }

  method OneDimension(vector: bool, count: nat, inner: string, ghost of: Normal) returns (hash: string)
    requires inner == Text(of)
    ensures hash == Text(Dimension(vector, count, of))
  {
    var tag := if vector then "VF[" else "AR[";
    assert tag == (if vector then "VF" else "AR") + "[";
    hash := tag + Decimal(count) + "," + inner + "]";
    DimensionText(if vector then "VF" else "AR", Decimal(count), inner);
  }

  // ------------------------------------------------------------- the cache

  class Matcher {
    var cache: map<Type, string>

    ghost predicate Valid()
      reads this
    {
      forall t :: t in cache ==> cache[t] == Text(Norm(t))
    }

    constructor ()
      ensures Valid()
    {
      cache := map[];
    }

    method ComputeUniqueString(t: Type) returns (s: string)
      requires Valid()
      modifies this
      ensures Valid() && s == Text(Norm(t))
    {
      if t in cache {
        return cache[t];
      }
      s := UniqueString(t);
      cache := cache[t := s];
    }
  }
}
