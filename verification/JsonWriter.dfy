/** The compact writer, which appends to its document. */
module JsonWriter {
  import opened Bytes
  import opened JsonNumbers
  import opened JsonStrings
  import opened JsonText

  /** Integers are of the 64-bit kinds that values can hold. */
  predicate Writable(v: Value) {
    match v
    case Int(i) => MIN_LARGEST_INT <= i <= MAX_LARGEST_INT
    case UInt(u) => u <= MAX_LARGEST_UINT
    case Arr(items) => forall k :: 0 <= k < |items| ==> Writable(items[k])
    case Obj(members) => forall k :: 0 <= k < |members| ==> Writable(members[k].value)
    case _ => true
  }

  /** Texts to come, with a comma in front of each but a first one. */
  function Remaining(texts: seq<seq<byte>>, first: bool): seq<byte> {
    if texts == [] then [] else (if first then [] else [COMMA]) + Joined(texts)
  }

  lemma TextWritten(before: seq<byte>, after: seq<byte>, texts: seq<seq<byte>>, k: nat)
    requires k < |texts| && after == before + (if k == 0 then [] else [COMMA]) + texts[k]
    ensures before + Remaining(texts[k..], k == 0) == after + Remaining(texts[k + 1..], false)
  {
    var rest := texts[k..];
    assert rest[1..] == texts[k + 1..];
    assert Joined(rest) == texts[k] + Remaining(rest[1..], false);
  }

  class FastWriter {
    var document: seq<byte>
    const omitEndingLineFeed: bool

    constructor (omit: bool)
      ensures document == [] && omitEndingLineFeed == omit
    {
      document, omitEndingLineFeed := [], omit;
    }

    method Write(root: Value) returns (text: seq<byte>)
      requires Writable(root)
      modifies this
      ensures text == document == Text(root) + if omitEndingLineFeed then [] else [NEWLINE]
    {
      document := [];
      WriteValue(root);
      if !omitEndingLineFeed {
        document := document + [NEWLINE];
      }
      return document;
    }

    method WriteValue(value: Value)
      requires Writable(value)
      modifies this
      ensures document == old(document) + Text(value)
      decreases value, 1
    {
      match value {
        case Null => document := document + TEXT_NULL;
        case Bool(b) => document := document + if b then TEXT_TRUE else TEXT_FALSE;
        case Int(i) =>
          var text := ValueToString(i);
          document := document + text;
        case UInt(u) =>
          var text := ValueToString(u);
          document := document + text;
        case Real(text) => document := document + text;
        case Str(s) =>
          var text := ValueToQuotedString(s, false);
          document := document + text;
        case Arr(items) =>
          document := document + [LEFT_BRACKET];
          WriteItems(value, items);
          document := document + [RIGHT_BRACKET];
        case Obj(members) =>
          document := document + [LEFT_BRACE];
          WriteMembers(value, members);
          document := document + [RIGHT_BRACE];
      }
    }

    method WriteItems(ghost value: Value, items: seq<Value>)
      requires Writable(value) && value == Arr(items)
      modifies this
      ensures document == old(document) + Joined(Texts(items))
      decreases value, 0
    {
      ghost var texts, goal := Texts(items), document + Joined(Texts(items));
      assert texts[0..] == texts && Remaining(texts, true) == Joined(texts);
      for index := 0 to |items|
        invariant document + Remaining(texts[index..], index == 0) == goal
      {
        ghost var before := document;
        WriteSeparator(index);
        WriteValue(items[index]);
        TextWritten(before, document, texts, index);
      }
    }

    method WriteMembers(ghost value: Value, members: seq<Member>)
      requires Writable(value) && value == Obj(members)
      modifies this
      ensures document == old(document) + Joined(MemberTexts(members))
      decreases value, 0
    {
      ghost var texts, goal := MemberTexts(members), document + Joined(MemberTexts(members));
      assert texts[0..] == texts && Remaining(texts, true) == Joined(texts);
      for index := 0 to |members|
        invariant document + Remaining(texts[index..], index == 0) == goal
      {
        ghost var before := document;
        WriteSeparator(index);
        WriteMember(members[index]);
        assert texts[index] == MemberText(Quoted(members[index].name, false), Text(members[index].value));
        assert document == before + (if index == 0 then [] else [COMMA]) + texts[index];
        TextWritten(before, document, texts, index);
      }
    }

    method WriteSeparator(index: nat)
      modifies this
      ensures document == old(document) + if index == 0 then [] else [COMMA]
    {
      if index > 0 {
        document := document + [COMMA];
      }
    }

    method WriteMember(m: Member)
      requires Writable(m.value)
      modifies this
      ensures document == old(document) + MemberText(Quoted(m.name, false), Text(m.value))
      decreases m.value, 2
    {
      var quoted := ValueToQuotedString(m.name, false);
      document := document + quoted + [COLON];
      WriteValue(m.value);
    }
  }
}
