/** The writer and the reader put together. */
module JsonCodec {
  import opened Bytes
  import opened JsonText
  import JsonReader
  import JsonRoundTrip
  import JsonWriter

  lemma PlainIsWritable(v: Value)
    requires JsonRoundTrip.Plain(v)
    ensures JsonWriter.Writable(v)
  {
  }

  /** What the writer writes, the reader reads: the same value up to the kinds of its
      integers, unless it nests too deep. */
  method WriteThenRead(v: Value, omitEndingLineFeed: bool) returns (text: seq<byte>, r: JsonReader.Result)
    requires JsonRoundTrip.Plain(v)
    ensures r.Success? <==> JsonRoundTrip.Depth(v) <= STACK_LIMIT
    ensures r.Success? ==> JsonRoundTrip.Same(v, r.value)
    ensures !r.Success? ==> r.StackLimitExceeded?
  {
    PlainIsWritable(v);
    JsonRoundTrip.ParseWritten(v, !omitEndingLineFeed);
    JsonRoundTrip.CanonicalIsSame(v);
    var writer := new JsonWriter.FastWriter(omitEndingLineFeed);
    text := writer.Write(v);
    r := JsonReader.ParseDocument(text);
  }
}
