/** The Snappy framing format, sections 4.1 to 4.6, as a function from a byte stream to the data it
    carries. `Writer` and `Reader` are both proved against it. */
module SnappyFraming {
  import opened Bytes
  import opened SnappyBlock

  const MAGIC_BODY: seq<Byte> := [0x73, 0x4e, 0x61, 0x50, 0x70, 0x59]
  const MAGIC_CHUNK: seq<Byte> := [0xff, 0x06, 0x00, 0x00] + MAGIC_BODY
  const CHECKSUM_SIZE := 4
  const CHUNK_HEADER_SIZE := 4
  const MAX_PAYLOAD := 0x1_0000
  const MAX_ENCODED_PAYLOAD := 76490

  const COMPRESSED: Byte := 0x00
  const UNCOMPRESSED: Byte := 0x01
  const STREAM_IDENTIFIER: Byte := 0xff

  /** The checksum; the format's masked CRC-32C is one of these. */
  type Crc = seq<Byte> -> Uint32

  /** The constant that sizes the buffers is the bound it stands for. */
  lemma MaxEncodedPayload(w: WordSize)
    ensures MaxEncodedLen(w, MAX_PAYLOAD) == MAX_ENCODED_PAYLOAD
  {}

  /** A chunk at the front of a stream: data, something to skip, or an error. */
  datatype Chunk =
    | Data(payload: seq<Byte>, size: nat)
    | Skip(size: nat)
    | Bad(error: Error)

  function ReadChunk(w: WordSize, crc: Crc, s: seq<Byte>, readHeader: bool): (c: Chunk)
    requires s != []
    ensures c.Bad? || CHUNK_HEADER_SIZE <= c.size <= |s|
    ensures c.Bad? ==> c.error != EndOfFile
  {
    if |s| < CHUNK_HEADER_SIZE || (!readHeader && s[0] != STREAM_IDENTIFIER) then Bad(ErrCorrupt)
    else
      var length := LittleEndian(s[1..4]);
      if length > MAX_ENCODED_PAYLOAD + CHECKSUM_SIZE then Bad(ErrUnsupported)
      else if s[0] == COMPRESSED then CompressedChunk(w, crc, s, length)
      else if s[0] == UNCOMPRESSED then UncompressedChunk(crc, s, length)
      else if s[0] == STREAM_IDENTIFIER then IdentifierChunk(s, length)
      else if s[0] <= 0x7f then Bad(ErrUnsupported)
      else if |s| < CHUNK_HEADER_SIZE + length then Bad(ErrCorrupt)
      else Skip(CHUNK_HEADER_SIZE + length)
  }

  /** Section 4.2. */
  function CompressedChunk(w: WordSize, crc: Crc, s: seq<Byte>, length: nat): (c: Chunk)
    requires |s| >= CHUNK_HEADER_SIZE
    ensures c.Bad? || (c.Data? && c.size == CHUNK_HEADER_SIZE + length <= |s|)
    ensures c.Bad? ==> c.error != EndOfFile
  {
    var size := CHUNK_HEADER_SIZE + length;
    if length < CHECKSUM_SIZE || |s| < size then Bad(ErrCorrupt)
    else match DecodedLen(w, s[8..size])
      case Err(e) => Bad(e)
      case Ok(v) =>
        if v.value > MAX_PAYLOAD then Bad(ErrCorrupt)
        else match BlockMeaning(w, s[8..size])
          case Err(e) => Bad(e)
          case Ok(payload) =>
            if crc(payload) != LittleEndian(s[4..8]) then Bad(ErrCorrupt) else Data(payload, size)
  }

  /** Section 4.3. */
  function UncompressedChunk(crc: Crc, s: seq<Byte>, length: nat): (c: Chunk)
    requires |s| >= CHUNK_HEADER_SIZE
    ensures c.Bad? || (c.Data? && c.size == CHUNK_HEADER_SIZE + length <= |s|)
    ensures c.Bad? ==> c.error != EndOfFile
  {
    var size := CHUNK_HEADER_SIZE + length;
    if length < CHECKSUM_SIZE || length - CHECKSUM_SIZE > MAX_PAYLOAD || |s| < size then Bad(ErrCorrupt)
    else if crc(s[8..size]) != LittleEndian(s[4..8]) then Bad(ErrCorrupt)
    else Data(s[8..size], size)
  }

  /** Section 4.1. */
  function IdentifierChunk(s: seq<Byte>, length: nat): (c: Chunk)
    requires |s| >= CHUNK_HEADER_SIZE
    ensures c.Bad? || (c.Skip? && c.size == CHUNK_HEADER_SIZE + length <= |s|)
    ensures c.Bad? ==> c.error != EndOfFile
  {
    var size := CHUNK_HEADER_SIZE + length;
    if length != |MAGIC_BODY| || |s| < size || s[4..size] != MAGIC_BODY then Bad(ErrCorrupt) else Skip(size)
  }

  /** What a stream carries, and why it ends: EndOfFile exactly when the stream is whole. */
  datatype Decoded = Decoded(data: seq<Byte>, error: Error)

  function Stream(w: WordSize, crc: Crc, s: seq<Byte>, readHeader: bool): (r: Decoded)
    decreases |s|
  {
    if s == [] then Decoded([], EndOfFile)
    else match ReadChunk(w, crc, s, readHeader)
      case Bad(error) => Decoded([], error)
      case Skip(size) => Stream(w, crc, s[size..], true)
      case Data(payload, size) =>
        var r := Stream(w, crc, s[size..], true);
        Decoded(payload + r.data, r.error)
  }

  lemma ReadChunkExtend(w: WordSize, crc: Crc, a: seq<Byte>, b: seq<Byte>, readHeader: bool)
    requires a != [] && !ReadChunk(w, crc, a, readHeader).Bad?
    ensures ReadChunk(w, crc, a + b, readHeader) == ReadChunk(w, crc, a, readHeader)
  {
    hide BlockMeaning, DecodedLen, LittleEndian;
    var s := a + b;
    assert s[1..4] == a[1..4] && s[0] == a[0];
    var size := CHUNK_HEADER_SIZE + LittleEndian(a[1..4]);
    assert s[4..size] == a[4..size];
    if |a| >= 8 && size >= 8 {
      assert s[4..8] == a[4..8] && s[8..size] == a[8..size];
    }
  }

  /** A whole stream followed by more: the data of both. */
  lemma {:induction false} StreamAppend(w: WordSize, crc: Crc, a: seq<Byte>, b: seq<Byte>, readHeader: bool)
    requires Stream(w, crc, a, readHeader).error == EndOfFile
    ensures var r := Stream(w, crc, b, readHeader || a != []);
      Stream(w, crc, a + b, readHeader) == Decoded(Stream(w, crc, a, readHeader).data + r.data, r.error)
    decreases |a|
  {
    hide ReadChunk;
    if a == [] {
      assert a + b == b;
    } else {
      var c := ReadChunk(w, crc, a, readHeader);
      assert !c.Bad?;
      ReadChunkExtend(w, crc, a, b, readHeader);
      assert (a + b)[c.size..] == a[c.size..] + b;
      StreamAppend(w, crc, a[c.size..], b, true);
    }
  }

  /** A payload found at position `at` of a stream. */
  datatype Delivery = Delivery(at: nat, payload: seq<Byte>)

  /** The payloads that a stream delivers, in order, with the positions of their chunks. */
  function Deliveries(w: WordSize, crc: Crc, s: seq<Byte>, readHeader: bool, at: nat): (ds: seq<Delivery>)
    decreases |s|
  {
    if s == [] then []
    else match ReadChunk(w, crc, s, readHeader)
      case Bad(_) => []
      case Skip(size) => Deliveries(w, crc, s[size..], true, at + size)
      case Data(payload, size) => [Delivery(at, payload)] + Deliveries(w, crc, s[size..], true, at + size)
  }

  function Payloads(ds: seq<Delivery>): (data: seq<Byte>) {
    if ds == [] then [] else ds[0].payload + Payloads(ds[1..])
  }

  /** `s` starts with a data chunk: its checksum field is that of the payload, and its body is the
      payload itself or a block that means it. */
  ghost predicate CarriesVerified(w: WordSize, crc: Crc, s: seq<Byte>, payload: seq<Byte>) {
    && |s| >= 8
    && var end := CHUNK_HEADER_SIZE + LittleEndian(s[1..4]);
    && 8 <= end <= |s| && crc(payload) == LittleEndian(s[4..8])
    && (s[0] == UNCOMPRESSED ==> s[8..end] == payload)
    && (s[0] != UNCOMPRESSED ==> s[0] == COMPRESSED && BlockMeaning(w, s[8..end]) == Ok(payload))
  }

  ghost predicate Verified(w: WordSize, crc: Crc, stream: seq<Byte>, d: Delivery) {
    d.at <= |stream| && CarriesVerified(w, crc, stream[d.at..], d.payload)
  }

  /** Every byte a stream delivers comes from the body of a chunk whose checksum matches. */
  lemma {:induction false} OnlyVerifiedData(w: WordSize, crc: Crc, stream: seq<Byte>, readHeader: bool, at: nat)
    requires at <= |stream|
    ensures var ds := Deliveries(w, crc, stream[at..], readHeader, at);
      && Stream(w, crc, stream[at..], readHeader).data == Payloads(ds)
      && forall d :: d in ds ==> Verified(w, crc, stream, d)
    decreases |stream| - at
  {
    hide ReadChunk, CarriesVerified;
    var s := stream[at..];
    if s != [] {
      var c := ReadChunk(w, crc, s, readHeader);
      if !c.Bad? {
        ChunkVerified(w, crc, s, readHeader);
        assert s[c.size..] == stream[at + c.size..];
        OnlyVerifiedData(w, crc, stream, true, at + c.size);
        if c.Data? {
          var d := Delivery(at, c.payload);
          var rest := Deliveries(w, crc, s[c.size..], true, at + c.size);
          assert ([d] + rest)[1..] == rest;
          assert Verified(w, crc, stream, d);
        }
      }
    }
  }

  lemma ChunkVerified(w: WordSize, crc: Crc, s: seq<Byte>, readHeader: bool)
    requires s != []
    ensures var c := ReadChunk(w, crc, s, readHeader);
      c.Data? ==> CarriesVerified(w, crc, s, c.payload)
  {
    hide BlockMeaning, DecodedLen, LittleEndian;
  }
}
