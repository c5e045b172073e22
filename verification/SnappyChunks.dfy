/** What a framed stream carries, told chunk by chunk as sections 4.1 to 4.6 of the Snappy framing format
    do: every kind of chunk, put behind a whole stream, has one known effect. */
module SnappyChunks {
  import opened Common
  import opened Bytes
  import opened SnappyBlock
  import opened SnappyFraming

  /** A chunk: its type, the three bytes of its length, its body. */
  function Framed(chunkType: Byte, body: seq<Byte>): (s: seq<Byte>)
    requires |body| < 0x100_0000
    ensures |s| == CHUNK_HEADER_SIZE + |body|
  {
    [chunkType] + Bytes24(|body|) + body
  }

  /** A stream that has begun and ends properly. */
  ghost predicate Whole(w: WordSize, crc: Crc, a: seq<Byte>) {
    a != [] && Stream(w, crc, a, false).error == EndOfFile
  }

  ghost predicate Fits(body: seq<Byte>) {
    |body| <= MAX_ENCODED_PAYLOAD + CHECKSUM_SIZE
  }

  lemma FramedFields(chunkType: Byte, body: seq<Byte>, b: seq<Byte>)
    requires |body| < 0x100_0000
    ensures var s, size := Framed(chunkType, body) + b, CHUNK_HEADER_SIZE + |body|;
      && s[0] == chunkType && LittleEndian(s[1..4]) == |body|
      && s[4..size] == body && s[size..] == b
      && (|body| >= 4 ==> s[4..8] == body[..4] && s[8..size] == body[4..])
  {
    hide LittleEndian, Bytes24;
    Bytes24Value(|body|);
    var s, size := Framed(chunkType, body) + b, CHUNK_HEADER_SIZE + |body|;
    assert s[1..4] == Bytes24(|body|);
    assert s[4..size] == body;
    if |body| >= 4 {
      SliceOfSlice(s, 4, size, 0, 4);
      SliceOfSlice(s, 4, size, 4, |body|);
    }
  }

  /** Behind a whole stream, what follows has its own effect. */
  lemma Behind(w: WordSize, crc: Crc, a: seq<Byte>, chunk: seq<Byte>, b: seq<Byte>)
    requires Whole(w, crc, a)
    ensures var r := Stream(w, crc, chunk + b, true);
      Stream(w, crc, a + chunk + b, false) == Decoded(Stream(w, crc, a, false).data + r.data, r.error)
    ensures var r := Stream(w, crc, b, true);
      Stream(w, crc, a + b, false) == Decoded(Stream(w, crc, a, false).data + r.data, r.error)
  {
    hide Stream;
    StreamAppend(w, crc, a, chunk + b, false);
    StreamAppend(w, crc, a, b, false);
    assert a + (chunk + b) == a + chunk + b;
  }

  /** Sections 4.4 and 4.6: padding and reserved skippable chunks may stand anywhere and change nothing. */
  lemma SkippableChanges(w: WordSize, crc: Crc, a: seq<Byte>, chunkType: Byte, body: seq<Byte>, b: seq<Byte>)
    requires Whole(w, crc, a) && 0x80 <= chunkType <= 0xfe && Fits(body)
    ensures Stream(w, crc, a + Framed(chunkType, body) + b, false) == Stream(w, crc, a + b, false)
  {
    hide Framed, LittleEndian, Whole;
    FramedFields(chunkType, body, b);
    Behind(w, crc, a, Framed(chunkType, body), b);
  }

  /** Section 4.1: the stream identifier may be repeated. */
  lemma IdentifierRepeats(w: WordSize, crc: Crc, a: seq<Byte>, b: seq<Byte>)
    requires Whole(w, crc, a)
    ensures Stream(w, crc, a + Framed(0xff, MAGIC_BODY) + b, false) == Stream(w, crc, a + b, false)
  {
    hide Framed, LittleEndian, Whole;
    FramedFields(0xff, MAGIC_BODY, b);
    Behind(w, crc, a, Framed(0xff, MAGIC_BODY), b);
  }

  /** Section 4.1: an identifier with any other body is an error. */
  lemma IdentifierChecked(w: WordSize, crc: Crc, a: seq<Byte>, body: seq<Byte>, b: seq<Byte>)
    requires Whole(w, crc, a) && Fits(body) && body != MAGIC_BODY
    ensures Stream(w, crc, a + Framed(0xff, body) + b, false) == Decoded(Stream(w, crc, a, false).data, ErrCorrupt)
  {
    hide Framed, LittleEndian, Whole;
    FramedFields(0xff, body, b);
    Behind(w, crc, a, Framed(0xff, body), b);
  }

  /** Section 4.5: reserved unskippable chunks end the stream with an error. */
  lemma ReservedIsRefused(w: WordSize, crc: Crc, a: seq<Byte>, chunkType: Byte, body: seq<Byte>, b: seq<Byte>)
    requires Whole(w, crc, a) && 0x02 <= chunkType <= 0x7f && |body| < 0x100_0000
    ensures Stream(w, crc, a + Framed(chunkType, body) + b, false) ==
      Decoded(Stream(w, crc, a, false).data, ErrUnsupported)
  {
    hide Framed, LittleEndian, Whole;
    FramedFields(chunkType, body, b);
    Behind(w, crc, a, Framed(chunkType, body), b);
  }

  /** A chunk longer than the reader's buffer is refused, whatever its type. */
  lemma OversizedIsRefused(w: WordSize, crc: Crc, a: seq<Byte>, chunkType: Byte, body: seq<Byte>, b: seq<Byte>)
    requires Whole(w, crc, a) && !Fits(body) && |body| < 0x100_0000
    ensures Stream(w, crc, a + Framed(chunkType, body) + b, false) ==
      Decoded(Stream(w, crc, a, false).data, ErrUnsupported)
  {
    hide Framed, LittleEndian, Whole;
    FramedFields(chunkType, body, b);
    Behind(w, crc, a, Framed(chunkType, body), b);
  }

  /** The body of a data chunk is a checksum and then `payload` itself, or a block that means it. */
  ghost predicate Holds(w: WordSize, crc: Crc, chunkType: Byte, body: seq<Byte>, payload: seq<Byte>) {
    && |body| >= 4 && LittleEndian(body[..4]) == crc(payload) && |payload| <= 0x1_0000
    && (|| (chunkType == 0x01 && body[4..] == payload)
        || (chunkType == 0x00 && BlockMeaning(w, body[4..]) == Ok(payload)))
  }

  /** Sections 4.2 and 4.3: a data chunk with a matching checksum delivers its payload. */
  lemma DataIsDelivered(w: WordSize, crc: Crc, a: seq<Byte>, chunkType: Byte, body: seq<Byte>, b: seq<Byte>, payload: seq<Byte>)
    requires Whole(w, crc, a) && Fits(body) && Holds(w, crc, chunkType, body, payload)
    ensures var r := Stream(w, crc, b, true);
      Stream(w, crc, a + Framed(chunkType, body) + b, false) ==
      Decoded(Stream(w, crc, a, false).data + payload + r.data, r.error)
  {
    hide Framed, LittleEndian, Whole, ReadChunk, Holds;
    FramedFields(chunkType, body, b);
    Behind(w, crc, a, Framed(chunkType, body), b);
    DataIsRead(w, crc, chunkType, body, b, payload);
    var x, r := Stream(w, crc, a, false).data, Stream(w, crc, b, true).data;
    assert x + payload + r == x + (payload + r);
  }

  lemma DataIsRead(w: WordSize, crc: Crc, chunkType: Byte, body: seq<Byte>, b: seq<Byte>, payload: seq<Byte>)
    requires Fits(body) && Holds(w, crc, chunkType, body, payload)
    ensures ReadChunk(w, crc, Framed(chunkType, body) + b, true) == Data(payload, CHUNK_HEADER_SIZE + |body|)
  {
    hide Framed, LittleEndian, BlockMeaning, DecodedLen;
    FramedFields(chunkType, body, b);
    if chunkType == 0x00 {
      LengthOfMeaning(w, body[4..]);
    }
  }

  /** Any other data chunk ends the stream with an error: that of its block when the block is at fault
      and does not announce too much, and ErrCorrupt otherwise. */
  lemma BadDataIsRefused(w: WordSize, crc: Crc, a: seq<Byte>, chunkType: Byte, body: seq<Byte>, b: seq<Byte>)
    requires Whole(w, crc, a) && Fits(body) && chunkType <= 0x01
    requires forall payload :: !Holds(w, crc, chunkType, body, payload)
    ensures var blockAtFault := chunkType == 0x00 && |body| >= 4 && BlockMeaning(w, body[4..]).Err?
        && (DecodedLen(w, body[4..]).Ok? ==> DecodedLen(w, body[4..]).value.value <= 0x1_0000);
      Stream(w, crc, a + Framed(chunkType, body) + b, false) ==
      Decoded(Stream(w, crc, a, false).data, if blockAtFault then BlockMeaning(w, body[4..]).error else ErrCorrupt)
  {
    hide Framed, LittleEndian, Whole, BlockMeaning, DecodedLen;
    FramedFields(chunkType, body, b);
    Behind(w, crc, a, Framed(chunkType, body), b);
    if |body| >= 4 {
      var rest := body[4..];
      if chunkType == 0x01 {
        assert !Holds(w, crc, chunkType, body, rest);
      } else {
        HeaderAtFault(w, rest);
        if BlockMeaning(w, rest).Ok? {
          LengthOfMeaning(w, rest);
          assert !Holds(w, crc, chunkType, body, BlockMeaning(w, rest).value);
        }
      }
    }
  }

  lemma HeaderAtFault(w: WordSize, src: seq<Byte>)
    ensures DecodedLen(w, src).Err? ==> BlockMeaning(w, src) == Err(DecodedLen(w, src).error)
  {}

  /** A stream that stops inside a chunk is corrupt, unless the header already says that the chunk is
      not supported. */
  lemma TruncatedIsCorrupt(w: WordSize, crc: Crc, a: seq<Byte>, chunkType: Byte, body: seq<Byte>, k: nat)
    requires Whole(w, crc, a) && |body| < 0x100_0000 && 0 < k < CHUNK_HEADER_SIZE + |body|
    ensures var unsupported := k >= 4 && (!Fits(body) || 0x02 <= chunkType <= 0x7f);
      Stream(w, crc, a + Framed(chunkType, body)[..k], false) ==
      Decoded(Stream(w, crc, a, false).data, if unsupported then ErrUnsupported else ErrCorrupt)
  {
    hide Framed, LittleEndian, Whole;
    var chunk := Framed(chunkType, body);
    var s := chunk[..k];
    Behind(w, crc, a, s, []);
    assert s + [] == s && a + s + [] == a + s;
    FramedFields(chunkType, body, []);
    assert chunk + [] == chunk;
    if k >= 4 {
      assert s[1..4] == chunk[1..4];
    }
    assert s[0] == chunk[0];
  }

  /** A stream begins with its identifier, or it carries nothing. */
  lemma IdentifierComesFirst(w: WordSize, crc: Crc, s: seq<Byte>)
    requires s != [] && !(Framed(0xff, MAGIC_BODY) <= s)
    ensures var oversized := |s| >= 4 && s[0] == 0xff && LittleEndian(s[1..4]) > MAX_ENCODED_PAYLOAD + CHECKSUM_SIZE;
      Stream(w, crc, s, false) == Decoded([], if oversized then ErrUnsupported else ErrCorrupt)
  {
    hide LittleEndian, Framed;
    StartsWithIdentifier(s);
  }

  lemma StartsWithIdentifier(s: seq<Byte>)
    ensures |s| >= 10 && s[0] == 0xff && LittleEndian(s[1..4]) == 6 && s[4..10] == MAGIC_BODY ==>
      Framed(0xff, MAGIC_BODY) <= s
  {
    if |s| >= 10 && s[0] == 0xff && LittleEndian(s[1..4]) == 6 && s[4..10] == MAGIC_BODY {
      LittleEndian3(s[1..4]);
      assert s[1..4] == [6, 0, 0];
      assert s[..10] == [0xff] + s[1..4] + s[4..10];
    }
  }

  /** The identifier alone is a whole stream that carries nothing. */
  lemma IdentifierIsWhole(w: WordSize, crc: Crc)
    ensures Whole(w, crc, Framed(0xff, MAGIC_BODY)) && Stream(w, crc, Framed(0xff, MAGIC_BODY), false).data == []
  {
    hide LittleEndian;
    FramedFields(0xff, MAGIC_BODY, []);
    var s := Framed(0xff, MAGIC_BODY);
    assert s + [] == s && s[10..] == [];
    assert ReadChunk(w, crc, s, false) == Skip(10);
    assert Stream(w, crc, [], true) == Decoded([], EndOfFile);
  }
}
