/** Writer and Reader together: the framed stream as a pipe. */
module SnappyStream {
  import opened Common
  import opened Bytes
  import opened SnappyEncodeBlock
  import opened SnappyBlock
  import opened SnappyFraming
  import opened SnappyWriter
  import opened SnappyReader

  /** What a client does to a writer before closing it. */
  datatype Op = Write(p: seq<Byte>) | Flush

  /** The bytes that a sequence of operations writes. */
  function Written(ops: seq<Op>): (data: seq<Byte>) {
    if ops == [] then []
    else Written(ops[..|ops| - 1]) + match ops[|ops| - 1] case Write(p) => p case Flush => []
  }

  /** Runs `ops` and then Close. A successful Close means that the sink carries all that was written,
      and on a reliable sink it always succeeds. */
  method Compress(w: WordSize, hash: Hash, crc: Crc, accepts: nat -> bool, ops: seq<Op>)
    returns (stream: seq<Byte>, e: Option<Error>)
    ensures e.None? ==> Stream(w, crc, stream, false) == Decoded(Written(ops), EndOfFile)
    ensures (forall k: nat :: accepts(k)) ==> e.None?
  {
    hide Stream;
    var sink := new Sink(accepts);
    ghost var reliable := sink.Reliable();
    var writer := new Writer(w, hash, crc, sink);
    for k := 0 to |ops|
      invariant writer.Valid() && writer.sink == sink
      invariant fresh(sink) && fresh(writer) && fresh(writer.ibuf) && fresh(writer.obuf)
      invariant writer.err.None? ==> writer.accepted == Written(ops[..k])
      invariant writer.err.Some? ==> !reliable
    {
      assert ops[..k + 1][..k] == ops[..k];
      match ops[k] {
        case Write(p) =>
          var n, err := writer.Write(p);
        case Flush =>
          writer.Flush();
      }
    }
    assert ops[..|ops|] == ops;
    e := writer.Close();
    stream := sink.data;
  }

  /** Reads to the end with buffers of any positive sizes, and gets exactly what the stream carries. */
  method ReadToEnd(w: WordSize, crc: Crc, stream: seq<Byte>, sizes: nat -> nat)
    returns (data: seq<Byte>, e: Error)
    ensures data == Stream(w, crc, stream, false).data
    ensures e == Stream(w, crc, stream, false).error
  {
    hide Stream;
    var reader := new Reader(w, crc, stream);
    data := [];
    var k: nat := 0;
    var err: Option<Error> := None;
    while err.None?
      invariant reader.Valid() && reader.w == w && reader.crc == crc && reader.input == stream
      invariant fresh(reader) && fresh(reader.decoded) && fresh(reader.buf)
      invariant data == reader.delivered && err == reader.err
      decreases if err.None? then 1 else 0, |Stream(w, crc, stream, false).data| - |data|
    {
      var p := new Byte[1 + sizes(k)](_ => 0);
      var n;
      n, err := reader.Read(p);
      data := data + p[..n];
      k := k + 1;
    }
    e := err.value;
  }

  /** Round trip: what is written, in whatever pieces, is what is read, in whatever pieces, and the
      stream then ends properly. */
  method Pipe(w: WordSize, hash: Hash, crc: Crc, ops: seq<Op>, sizes: nat -> nat)
    returns (data: seq<Byte>, e: Error)
    ensures data == Written(ops) && e == EndOfFile
  {
    hide Stream;
    var stream, err := Compress(w, hash, crc, _ => true, ops);
    data, e := ReadToEnd(w, crc, stream, sizes);
  }
}
