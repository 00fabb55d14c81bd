/** Strings that stand for the types of debug information: two types get the same
    string exactly when they have the same normal form. */
module TypeStrings {
  import opened Bytes
  import JsonNumbers
  import opened Wrappers

  // ------------------------------------------------------------- types

  datatype Encoding = FloatEncoding | ComplexFloat | OtherEncoding

  datatype Tag =
    | PointerTag | ReferenceTag | RValueReferenceTag | MemberTag | ConstTag | VolatileTag | AtomicTag | RestrictTag
               | TypedefTag | OtherTag

  /** An element of an array: a dimension, whose count may be unknown, or something else. */
  datatype Element = Subrange(count: Option<nat>) | OtherElement

  /** A type of debug information. Records are known by name; void is `NoType`. */
  datatype Type =
    | NoType
    | Basic(encoding: Encoding, bits: nat, longDouble: bool)
    | Subroutine(types: seq<Type>)
    | Derived(tag: Tag, base: Type)
    | Array(vector: bool, base: Type, elements: seq<Element>)
    | Enumeration
    | Record(name: string, forwardDecl: bool, dataMembers: bool)
    | OtherComposite

  // ------------------------------------------------------------- normal forms

  datatype FloatKind = Half | Single | Double | Extended | Quad

  /** What of a type the string keeps: integers and enumerations are one, references
      are pointers, a pointer to nothing points to an integer, and every array or vector
      has one dimension. A function has its result first. */
  datatype Normal =
    | Void
    | Integer
    | Floating(kind: FloatKind)
    | Unknown
    | NoMembers
    | Struct(name: string)
    | Pointer(to: Normal)
    | Function(types: seq<Normal>)
    | Dimension(vector: bool, count: nat, of: Normal)

  function Pointee(n: Normal): Normal {
    if n == Void then Integer else n
  }

  predicate IsQualifier(tag: Tag) {
    tag == ConstTag || tag == VolatileTag || tag == AtomicTag || tag == RestrictTag
  }

  function NormalFloat(bits: nat, longDouble: bool): Normal {
    if longDouble then Floating(Extended)
    else if bits == 16 then Floating(Half)
    else if bits == 32 then Floating(Single)
    else if bits == 64 then Floating(Double)
    else if bits == 80 then Floating(Extended)
    else if bits == 128 then Floating(Quad)
    else Unknown
  }

  function NormalBasic(encoding: Encoding, bits: nat, longDouble: bool): Normal {
    if bits == 0 then Void
    else match encoding
      case FloatEncoding => NormalFloat(bits, longDouble)
      case ComplexFloat => Struct("none")
      case OtherEncoding => Integer
  }

  /** The counts of the dimensions; unknown ones are zero, and there is at least one. */
  function Counts(elements: seq<Element>): (r: seq<nat>) {
    if elements == [] then []
    else if elements[0].Subrange? then [if elements[0].count.Some? then elements[0].count.value else 0] +
    Counts(elements[1..])
    else Counts(elements[1..])
  }

  function Dimensions(elements: seq<Element>): seq<nat> {
    if Counts(elements) == [] then [0] else Counts(elements)
  }

  function Nested(vector: bool, counts: seq<nat>, of: Normal): Normal {
    if counts == [] then of else Dimension(vector, counts[0], Nested(vector, counts[1..], of))
  }

  function Norm(t: Type): Normal {
    match t
    case NoType => Void
    case Basic(encoding, bits, longDouble) => NormalBasic(encoding, bits, longDouble)
    case Subroutine(types) => Function([if types == [] then Void else Norm(types[0])] + if types == [] then []
                                       else Params(types[1..]))
    case Derived(tag, base) =>
      if IsQualifier(tag) || tag == MemberTag then Norm(base)
      else if tag == PointerTag || tag == ReferenceTag || tag == RValueReferenceTag then Pointer(Pointee(Norm(base)))
      else Unknown
    case Array(vector, base, elements) => Nested(vector, Dimensions(elements), Norm(base))
    case Enumeration => Integer
    case Record(name, forwardDecl, dataMembers) => if !forwardDecl && !dataMembers then NoMembers else Struct(name)
    case OtherComposite => Unknown
  }

  /** Parameters without a type, as those behind an ellipsis, do not count. */
  function Params(types: seq<Type>): seq<Normal> {
    if types == [] then []
    else if types[0] == NoType then Params(types[1..])
    else [Norm(types[0])] + Params(types[1..])
  }

  // ------------------------------------------------------------- strings

  function Ascii(s: seq<byte>): string {
    seq(|s|, i requires 0 <= i < |s| => s[i] as char)
  }

  function Decimal(n: nat): (r: string)
    ensures r != []
  {
    Ascii(JsonNumbers.Digits(n))
  }

  function FloatText(k: FloatKind): (r: string)
    ensures |r| == 2
  {
    match k
    case Half => "HA"
    case Single => "FL"
    case Double => "DO"
    case Extended => "F8"
    case Quad => "FP"
  }

  function Text(n: Normal): string {
    match n
    case Void => "VO"
    case Integer => "IN"
    case Floating(kind) => FloatText(kind)
    case Unknown => "UN"
    case NoMembers => "FN"
    case Struct(name) => "ST" + ("[" + (name + "]"))
    case Pointer(to) => "TP" + ("[" + (Text(to) + "]"))
    case Function(types) => "FN" + ("[" + (Decimal(|types|) + (Listed(types) + "]")))
    case Dimension(vector, count, of) =>
      (if vector then "VF" else "AR") + ("[" + (Decimal(count) + ("," + (Text(of) + "]"))))
  }

  function Listed(types: seq<Normal>): string {
    if types == [] then "" else "," + (Text(types[0]) + Listed(types[1..]))
  }

  // ------------------------------------------------------------- reading strings is unambiguous

  predicate IsClean(c: char) {
    c != ']'
  }

  /** No closing bracket. */
  predicate Clean(name: string) {
    forall i :: 0 <= i < |name| ==> IsClean(name[i])
  }

  predicate CleanNames(n: Normal) {
    match n
    case Struct(name) => Clean(name)
    case Pointer(to) => CleanNames(to)
    case Function(types) => forall k :: 0 <= k < |types| ==> CleanNames(types[k])
    case Dimension(_, _, of) => CleanNames(of)
    case _ => true
  }

  /** What can follow the string of a type. */
  predicate Ends(x: string) {
    x == [] || x[0] == ',' || x[0] == ']'
  }

  lemma DropPrefix(p: string, x: string, y: string)
    requires p + x == p + y
    ensures x == y
  {
    assert x == (p + x)[|p|..] && y == (p + y)[|p|..];
  }

  /** The part before the first character outside a set is determined. */
  lemma {:induction false} SplitIsUnique(a: string, b: string, x: string, y: string, in_: char -> bool)
    requires a + x == b + y && (x == [] || !in_(x[0])) && (y == [] || !in_(y[0]))
    requires (forall i :: 0 <= i < |a| ==> in_(a[i])) && (forall i :: 0 <= i < |b| ==> in_(b[i]))
    ensures a == b && x == y
  {
    assert (a == [] ==> a + x == x) && (b == [] ==> b + y == y);
    assert (a != [] ==> (a + x)[0] == a[0]) && (b != [] ==> (b + y)[0] == b[0]);
    if a != [] && b != [] {
      assert (a + x)[1..] == a[1..] + x && (b + y)[1..] == b[1..] + y;
      SplitIsUnique(a[1..], b[1..], x, y, in_);
      assert a == [a[0]] + a[1..] && b == [b[0]] + b[1..];
    }
  }

  predicate IsDecimal(c: char) {
    '0' <= c <= '9'
  }

  lemma DecimalIsUnique(a: nat, b: nat, x: string, y: string)
    requires Decimal(a) + x == Decimal(b) + y && (x == [] || !IsDecimal(x[0])) && (y == [] || !IsDecimal(y[0]))
    ensures a == b && x == y
  {
    SplitIsUnique(Decimal(a), Decimal(b), x, y, IsDecimal);
    var s, t := JsonNumbers.Digits(a), JsonNumbers.Digits(b);
    assert forall i :: 0 <= i < |s| ==> Decimal(a)[i] == s[i] as char && Decimal(b)[i] == t[i] as char;
    assert s == t;
  }

  /** The two letters a string begins with. */
  function Head(n: Normal): string {
    match n
    case Void => "VO"
    case Integer => "IN"
    case Floating(kind) => FloatText(kind)
    case Unknown => "UN"
    case NoMembers => "FN"
    case Struct(_) => "ST"
    case Pointer(_) => "TP"
    case Function(_) => "FN"
    case Dimension(vector, _, _) => if vector then "VF" else "AR"
  }

  /** The rest of the string. */
  function Body(n: Normal): string {
    match n
    case Struct(name) => "[" + (name + "]")
    case Pointer(to) => "[" + (Text(to) + "]")
    case Function(types) => "[" + (Decimal(|types|) + (Listed(types) + "]"))
    case Dimension(_, count, of) => "[" + (Decimal(count) + ("," + (Text(of) + "]")))
    case _ => ""
  }

  lemma TextSplits(n: Normal, x: string)
    ensures Text(n) + x == Head(n) + (Body(n) + x) && |Head(n)| == 2
  {
    assert Text(n) == Head(n) + Body(n);
    Regroup(Head(n), Body(n), x);
  }

  lemma Regroup(a: string, b: string, c: string)
    ensures a + b + c == a + (b + c)
  {
  }

  lemma SplitTwo(p: string, q: string, u: string, v: string)
    requires |p| == |q| && p + u == q + v
    ensures p == q && u == v
  {
    assert p == (p + u)[..|p|] && q == (q + v)[..|q|];
    DropPrefix(p, u, v);
  }

  predicate SameShape(m: Normal, n: Normal) {
    || (m.Struct? && n.Struct?)
    || (m.Pointer? && n.Pointer?)
    || (m.Function? && n.Function?)
    || (m.Dimension? && n.Dimension? && m.vector == n.vector)
    || (m == n && Body(m) == "")
  }

  /** The head and the character behind it tell the shape. */
  lemma ShapeIsKnown(m: Normal, n: Normal, x: string, y: string)
    requires Text(m) + x == Text(n) + y && Ends(x) && Ends(y)
    ensures SameShape(m, n) && Body(m) + x == Body(n) + y
  {
    TextSplits(m, x);
    TextSplits(n, y);
    SplitTwo(Head(m), Head(n), Body(m) + x, Body(n) + y);
    HeadTells(m, n, x, y);
  }

  lemma HeadTells(m: Normal, n: Normal, x: string, y: string)
    requires Head(m) == Head(n) && Body(m) + x == Body(n) + y && Ends(x) && Ends(y)
    ensures SameShape(m, n)
  {
    assert Head(m)[0] == Head(n)[0] && Head(m)[1] == Head(n)[1];
    if Body(m) != "" {
      assert (Body(m) + x)[0] == '[';
    }
    if Body(n) != "" {
      assert (Body(n) + y)[0] == '[';
    }
  }

  /** No string of a type begins another one's, followed by what can follow a type. */
  lemma {:induction false} TextIsUnique(m: Normal, n: Normal, x: string, y: string)
    requires CleanNames(m) && CleanNames(n) && Ends(x) && Ends(y) && Text(m) + x == Text(n) + y
    ensures m == n && x == y
    decreases m, 1
  {
    ShapeIsKnown(m, n, x, y);
    match m {
      case Struct(name) => StructIsUnique(name, n.name, x, y);
      case Pointer(to) => PointerIsUnique(to, n.to, x, y);
      case Function(types) => FunctionIsUnique(types, n.types, x, y);
      case Dimension(_, count, of) => DimensionIsUnique(count, n.count, of, n.of, x, y);
      case _ => assert Body(m) + x == x && Body(n) + y == y;
    }
  }

  lemma StructIsUnique(a: string, b: string, x: string, y: string)
    requires Clean(a) && Clean(b) && "[" + (a + "]") + x == "[" + (b + "]") + y
    ensures a == b && x == y
  {
    Inside(a + "]", b + "]", x, y);
    Behind(a, b, x, y);
    SplitIsUnique(a, b, "]" + x, "]" + y, IsClean);
    DropPrefix("]", x, y);
  }

  lemma {:induction false} PointerIsUnique(m: Normal, n: Normal, x: string, y: string)
    requires CleanNames(m) && CleanNames(n) && Ends(x) && Ends(y) &&
             "[" + (Text(m) + "]") + x == "[" + (Text(n) + "]") + y
    ensures m == n && x == y
    decreases m, 2
  {
    Inside(Text(m) + "]", Text(n) + "]", x, y);
    Behind(Text(m), Text(n), x, y);
    TextIsUnique(m, n, "]" + x, "]" + y);
    DropPrefix("]", x, y);
  }

  lemma Inside(a: string, b: string, x: string, y: string)
    requires "[" + a + x == "[" + b + y
    ensures a + x == b + y
  {
    assert "[" + a + x == "[" + (a + x) && "[" + b + y == "[" + (b + y);
    DropPrefix("[", a + x, b + y);
  }

  lemma Behind(a: string, b: string, x: string, y: string)
    requires a + "]" + x == b + "]" + y
    ensures a + ("]" + x) == b + ("]" + y)
  {
    assert a + "]" + x == a + ("]" + x) && b + "]" + y == b + ("]" + y);
  }

  /** A number, something that begins with another character, and a closing bracket. */
  lemma NumberIsUnique(c: nat, d: nat, a: string, b: string, x: string, y: string)
    requires "[" + (Decimal(c) + (a + "]")) + x == "[" + (Decimal(d) + (b + "]")) + y
    requires (a == [] || a[0] == ',') && (b == [] || b[0] == ',')
    ensures c == d && a + ("]" + x) == b + ("]" + y)
  {
    Inside(Decimal(c) + (a + "]"), Decimal(d) + (b + "]"), x, y);
    Regroup(Decimal(c), a + "]", x);
    Regroup(Decimal(d), b + "]", y);
    DecimalIsUnique(c, d, a + "]" + x, b + "]" + y);
    Behind(a, b, x, y);
  }

  lemma {:induction false} DimensionIsUnique(c: nat, d: nat, m: Normal, n: Normal, x: string, y: string)
    requires CleanNames(m) && CleanNames(n) && Ends(x) && Ends(y)
    requires "[" + (Decimal(c) + ("," + (Text(m) + "]"))) + x == "[" + (Decimal(d) + ("," + (Text(n) + "]"))) + y
    ensures c == d && m == n && x == y
    decreases m, 2
  {
    Regroup(",", Text(m), "]");
    Regroup(",", Text(n), "]");
    NumberIsUnique(c, d, "," + Text(m), "," + Text(n), x, y);
    Regroup(",", Text(m), "]" + x);
    Regroup(",", Text(n), "]" + y);
    DropPrefix(",", Text(m) + ("]" + x), Text(n) + ("]" + y));
    TextIsUnique(m, n, "]" + x, "]" + y);
    DropPrefix("]", x, y);
  }

  lemma {:induction false} FunctionIsUnique(ms: seq<Normal>, ns: seq<Normal>, x: string, y: string)
    requires AllClean(ms) && AllClean(ns) && Ends(x) && Ends(y)
    requires "[" + (Decimal(|ms|) + (Listed(ms) + "]")) + x == "[" + (Decimal(|ns|) + (Listed(ns) + "]")) + y
    ensures ms == ns && x == y
    decreases ms, 2
  {
    NumberIsUnique(|ms|, |ns|, Listed(ms), Listed(ns), x, y);
    ListIsUnique(ms, ns, "]" + x, "]" + y);
    DropPrefix("]", x, y);
  }

  ghost predicate AllClean(types: seq<Normal>) {
    forall k :: 0 <= k < |types| ==> CleanNames(types[k])
  }

  lemma ListSplits(types: seq<Normal>, x: string)
    requires types != []
    ensures Listed(types) + x == "," + (Text(types[0]) + (Listed(types[1..]) + x)) &&
            (Ends(x) ==> Ends(Listed(types[1..]) + x))
  {
    Regroup(",", Text(types[0]) + Listed(types[1..]), x);
    Regroup(Text(types[0]), Listed(types[1..]), x);
    assert types[1..] == [] ==> Listed(types[1..]) + x == x;
  }

  lemma {:induction false} ListIsUnique(ms: seq<Normal>, ns: seq<Normal>, x: string, y: string)
    requires AllClean(ms) && AllClean(ns) && |ms| == |ns| && Ends(x) && Ends(y) && Listed(ms) + x == Listed(ns) + y
    ensures ms == ns && x == y
    decreases ms, 1
  {
    if ms != [] {
      var u, v := Listed(ms[1..]) + x, Listed(ns[1..]) + y;
      ListSplits(ms, x);
      ListSplits(ns, y);
      DropPrefix(",", Text(ms[0]) + u, Text(ns[0]) + v);
      TextIsUnique(ms[0], ns[0], u, v);
      ListIsUnique(ms[1..], ns[1..], x, y);
      assert ms == [ms[0]] + ms[1..] && ns == [ns[0]] + ns[1..];
    } else {
      assert Listed(ms) + x == x && Listed(ns) + y == y;
    }
  }

  // ------------------------------------------------------------- names of records

  predicate CleanType(t: Type) {
    match t
    case Subroutine(types) => forall k :: 0 <= k < |types| ==> CleanType(types[k])
    case Derived(_, base) => CleanType(base)
    case Array(_, base, _) => CleanType(base)
    case Record(name, _, _) => Clean(name)
    case _ => true
  }

  lemma {:induction false} NestedIsClean(vector: bool, counts: seq<nat>, of: Normal)
    requires CleanNames(of)
    ensures CleanNames(Nested(vector, counts, of))
  {
    if counts != [] {
      NestedIsClean(vector, counts[1..], of);
    }
  }

  lemma {:induction false} NormIsClean(t: Type)
    requires CleanType(t)
    ensures CleanNames(Norm(t))
  {
    match t {
      case Subroutine(types) =>
        if types != [] {
          NormIsClean(types[0]);
          ParamsAreClean(types[1..]);
        }
      case Derived(_, base) => NormIsClean(base);
      case Array(vector, base, elements) =>
        NormIsClean(base);
        NestedIsClean(vector, Dimensions(elements), Norm(base));
      case _ =>
    }
  }

  lemma {:induction false} ParamsAreClean(types: seq<Type>)
    requires forall k :: 0 <= k < |types| ==> CleanType(types[k])
    ensures forall k :: 0 <= k < |Params(types)| ==> CleanNames(Params(types)[k])
  {
    if types != [] {
      NormIsClean(types[0]);
      ParamsAreClean(types[1..]);
    }
  }

  /** Two types get equal strings exactly when they have equal normal forms. */
  lemma StringsAreUnambiguous(t: Type, u: Type)
    requires CleanType(t) && CleanType(u)
    ensures Text(Norm(t)) == Text(Norm(u)) <==> Norm(t) == Norm(u)
  {
    if Text(Norm(t)) == Text(Norm(u)) {
      NormIsClean(t);
      NormIsClean(u);
      TextIsUnique(Norm(t), Norm(u), "", "");
    }
  }

  function TwoRecords(a: string, b: string): Type {
    Subroutine([NoType, Record(a, true, false), Record(b, true, false)])
  }

  lemma TwoParams(a: Type, b: Type)
    requires a != NoType && b != NoType
    ensures Params([a, b]) == [Norm(a), Norm(b)]
  {
    assert [a, b][1..] == [b] && [b][1..] == [];
    assert Params([b]) == [Norm(b)];
  }

  lemma ListOfThree(k: Normal, m: Normal, n: Normal)
    ensures Listed([k, m, n]) == "," + (Text(k) + ("," + (Text(m) + ("," + Text(n)))))
  {
    assert [k, m, n][1..] == [m, n] && [m, n][1..] == [n] && [n][1..] == [];
    assert Listed([n]) == "," + (Text(n) + "") && Text(n) + "" == Text(n);
    assert Listed([m, n]) == "," + (Text(m) + Listed([n]));
  }

  lemma NormOfTwoRecords(a: string, b: string)
    ensures Norm(TwoRecords(a, b)) == Function([Void, Struct(a), Struct(b)])
  {
    var types := [NoType, Record(a, true, false), Record(b, true, false)];
    assert types[1..] == [types[1], types[2]];
    TwoParams(types[1], types[2]);
  }

  /** The records as they are spelt, the part in between in one piece. */
  lemma Spelt(a: string, b: string)
    ensures Text(Struct(a)) + ("," + Text(Struct(b))) == "ST[" + (a + "],ST[" + b) + "]"
  {
  }

  /** A closing bracket in a name can make two functions of two records look the same. */
  lemma BracketsCollide()
    ensures var t, u := TwoRecords("a],ST[b", "c"), TwoRecords("a", "b],ST[c");
            Text(Norm(t)) == Text(Norm(u)) && Norm(t) != Norm(u)
  {
    NormOfTwoRecords("a],ST[b", "c");
    NormOfTwoRecords("a", "b],ST[c");
    ListOfThree(Void, Struct("a],ST[b"), Struct("c"));
    ListOfThree(Void, Struct("a"), Struct("b],ST[c"));
    Spelt("a],ST[b", "c");
    Spelt("a", "b],ST[c");
    assert "a],ST[b" + "],ST[" + "c" == "a" + "],ST[" + "b],ST[c";
  }
}
