/** The `Reader` of golang/snappy/decode.go: it hands out, in reads of any size, the data that a
    framed stream carries. */
module SnappyReader {
  import opened Common
  import opened Bytes
  import opened SnappyBlock
  import opened SnappyFraming

  method CopyOut(p: array<Byte>, head: seq<Byte>)
    requires |head| <= p.Length
    modifies p
    ensures p[..|head|] == head && p[|head|..] == old(p[|head|..])
  {
    forall x | 0 <= x < |head| { p[x] := head[x]; }
  }

  class Reader {
    const w: WordSize
    const crc: Crc
    /** The bytes of the underlying reader, of which `pos` have been taken. */
    const input: seq<Byte>
    var pos: nat
    var err: Option<Error>
    const decoded: array<Byte>
    const buf: array<Byte>
    /** `decoded[i..j]` has been decoded but not passed on. */
    var i: nat
    var j: nat
    var readHeader: bool
    /** Every byte passed on since the reader was made. */
    ghost var delivered: seq<Byte>

    ghost predicate Shape()
      reads this
    {
      && decoded.Length == MAX_PAYLOAD && buf.Length == MAX_ENCODED_PAYLOAD + CHECKSUM_SIZE && decoded != buf
      && i <= j <= decoded.Length && pos <= |input|
    }

    /** What the stream carries is what was delivered, what is pending, and what the rest carries. */
    ghost predicate Valid()
      reads this, decoded
    {
      && Shape()
      && var all := Stream(w, crc, input, false);
      && (err.None? ==>
          var rest := Stream(w, crc, input[pos..], readHeader);
          all == Decoded(delivered + (decoded[i..j] + rest.data), rest.error))
      && (err.Some? ==> delivered == all.data && err.value == all.error)
    }

    constructor (w: WordSize, crc: Crc, input: seq<Byte>)
      ensures Valid() && err.None? && delivered == [] && fresh(decoded) && fresh(buf)
      ensures this.w == w && this.crc == crc && this.input == input
    {
      this.w, this.crc, this.input := w, crc, input;
      pos, err, i, j, readHeader, delivered := 0, None, 0, 0, false, [];
      decoded := new Byte[MAX_PAYLOAD](_ => 0);
      buf := new Byte[MAX_ENCODED_PAYLOAD + CHECKSUM_SIZE](_ => 0);
      new;
      assert input[0..] == input;
    }

    /** Fills `a[..k]`, or reports a truncated stream (or its proper end, where that is allowed). */
    method ReadFull(a: array<Byte>, k: nat, allowEOF: bool) returns (ok: bool)
      requires pos <= |input| && k <= a.Length
      modifies this`pos, this`err, a
      ensures ok <==> k <= |input| - old(pos)
      ensures ok ==> pos == old(pos) + k && err.None? && a[..k] == input[old(pos)..pos]
      ensures !ok ==> pos <= |input| && err == Some(if allowEOF && old(pos) == |input| then EndOfFile else ErrCorrupt)
    {
      if k > |input| - pos {
        err := Some(if allowEOF && pos == |input| then EndOfFile else ErrCorrupt);
        pos := |input|;
        return false;
      }
      forall x | 0 <= x < k { a[x] := input[pos + x]; }
      pos, err := pos + k, None;
      return true;
    }

    /** The reader has dealt with the chunk `c` that began at `start`. */
    ghost predicate Took(c: Chunk, start: nat)
      reads this, decoded
    {
      && Shape()
      && match c
         case Bad(error) => err == Some(error)
         case Skip(size) => err.None? && pos == start + size && i == j
         case Data(payload, size) => err.None? && pos == start + size && decoded[i..j] == payload
    }

    method TakeCompressed(start: nat, length: nat)
      requires Shape() && start + CHUNK_HEADER_SIZE == pos && length <= buf.Length
      modifies this`pos, this`err, this`i, this`j, decoded, buf
      ensures Took(CompressedChunk(w, crc, input[start..], length), start)
    {
      hide BlockMeaning, DecodedLen, LittleEndian;
      ghost var s, size := input[start..], CHUNK_HEADER_SIZE + length;
      if length < CHECKSUM_SIZE {
        err := Some(ErrCorrupt);
        return;
      }
      var ok := ReadFull(buf, length, false);
      if !ok { return; }
      SliceOfTail(input, start, 4, size);
      var chunk := buf[..length];
      var checksum, body := Word(chunk[..4]), chunk[4..];
      SliceOfSlice(s, 4, size, 0, 4);
      SliceOfSlice(s, 4, size, 4, length);
      var n := DecodedLen(w, body);
      if n.Err? {
        err := Some(n.error);
        return;
      }
      if n.value.value > decoded.Length {
        err := Some(ErrCorrupt);
        return;
      }
      var r, out := Decode(w, decoded, body);
      if r.Err? {
        err := Some(r.error);
        return;
      }
      if crc(decoded[..n.value.value]) != checksum {
        err := Some(ErrCorrupt);
        return;
      }
      i, j := 0, n.value.value;
    }

    method TakeUncompressed(start: nat, length: nat)
      requires Shape() && start + CHUNK_HEADER_SIZE == pos && length <= buf.Length
      modifies this`pos, this`err, this`i, this`j, decoded, buf
      ensures Took(UncompressedChunk(crc, input[start..], length), start)
    {
      hide LittleEndian;
      ghost var s, size := input[start..], CHUNK_HEADER_SIZE + length;
      if length < CHECKSUM_SIZE {
        err := Some(ErrCorrupt);
        return;
      }
      var ok := ReadFull(buf, CHECKSUM_SIZE, false);
      if !ok { return; }
      SliceOfTail(input, start, 4, 8);
      var checksum, n := Word(buf[..4]), length - CHECKSUM_SIZE;
      if n > decoded.Length {
        err := Some(ErrCorrupt);
        return;
      }
      ok := ReadFull(decoded, n, false);
      if !ok { return; }
      SliceOfTail(input, start, 8, size);
      if crc(decoded[..n]) != checksum {
        err := Some(ErrCorrupt);
        return;
      }
      i, j := 0, n;
    }

    method TakeIdentifier(start: nat, length: nat)
      requires Shape() && start + CHUNK_HEADER_SIZE == pos && i == j && length <= buf.Length
      modifies this`pos, this`err, buf
      ensures Took(IdentifierChunk(input[start..], length), start)
    {
      ghost var s, size := input[start..], CHUNK_HEADER_SIZE + length;
      if length != |MAGIC_BODY| {
        err := Some(ErrCorrupt);
        return;
      }
      var ok := ReadFull(buf, |MAGIC_BODY|, false);
      if !ok { return; }
      assert buf[..|MAGIC_BODY|] == s[4..size];
      for k := 0 to |MAGIC_BODY|
        invariant s[4..4 + k] == MAGIC_BODY[..k]
        invariant err.None? && buf[..|MAGIC_BODY|] == s[4..size]
      {
        assert buf[k] == buf[..|MAGIC_BODY|][k] == s[4 + k];
        if buf[k] != MAGIC_BODY[k] {
          assert s[4..size][k] == s[4 + k];
          err := Some(ErrCorrupt);
          return;
        }
        assert s[4..4 + k + 1] == s[4..4 + k] + [s[4 + k]] && MAGIC_BODY[..k + 1] == MAGIC_BODY[..k] + [MAGIC_BODY[k]];
      }
      assert MAGIC_BODY[..|MAGIC_BODY|] == MAGIC_BODY;
    }

    /** The little-endian word in four bytes. */
    function Word(b: seq<Byte>): (u: nat)
      requires |b| == 4
      ensures u == LittleEndian(b)
    {
      LittleEndian4(b);
      b[0] as int + b[1] as int * 0x100 + b[2] as int * 0x1_0000 + b[3] as int * 0x100_0000
    }

    /** Reads and deals with one chunk (or the end of the stream). */
    method TakeChunk()
      requires Shape() && err.None? && i == j
      modifies this`pos, this`err, this`i, this`j, this`readHeader, decoded, buf
      ensures old(pos) == |input| ==> Shape() && err == Some(EndOfFile)
      ensures old(pos) < |input| ==> Took(ReadChunk(w, crc, input[old(pos)..], old(readHeader)), old(pos))
      ensures err.None? ==> readHeader
    {
      hide CompressedChunk, UncompressedChunk, IdentifierChunk, LittleEndian;
      ghost var start, s := pos, input[pos..];
      var ok := ReadFull(buf, 4, true);
      if !ok { return; }
      assert buf[..4] == s[..4];
      var chunkType := buf[0];
      assert chunkType == buf[..4][0] == s[0];
      if !readHeader {
        if chunkType != STREAM_IDENTIFIER {
          err := Some(ErrCorrupt);
          return;
        }
        readHeader := true;
      }
      var chunkLen := buf[1] as int + buf[2] as int * 0x100 + buf[3] as int * 0x1_0000;
      assert buf[1..4] == buf[..4][1..] == s[1..4];
      LittleEndian3(buf[1..4]);
      if chunkLen > buf.Length {
        err := Some(ErrUnsupported);
        return;
      }
      if chunkType == COMPRESSED {
        TakeCompressed(pos - 4, chunkLen);
      } else if chunkType == UNCOMPRESSED {
        TakeUncompressed(pos - 4, chunkLen);
      } else if chunkType == STREAM_IDENTIFIER {
        TakeIdentifier(pos - 4, chunkLen);
      } else if chunkType <= 0x7f {
        err := Some(ErrUnsupported);
      } else {
        ok := ReadFull(buf, chunkLen, false);
      }
    }

    /** The step of the stream's meaning that one chunk makes. */
    lemma ChunkStep(s: seq<Byte>, header: bool)
      requires s != []
      ensures var c := ReadChunk(w, crc, s, header);
        Stream(w, crc, s, header) ==
        match c
        case Bad(error) => Decoded([], error)
        case Skip(size) => Stream(w, crc, s[size..], true)
        case Data(payload, size) =>
          var r := Stream(w, crc, s[size..], true);
          Decoded(payload + r.data, r.error)
    {
      hide ReadChunk;
    }

    method Advance()
      requires Valid() && err.None? && i == j
      modifies this`pos, this`err, this`i, this`j, this`readHeader, decoded, buf
      ensures Valid() && (err.None? ==> pos > old(pos))
    {
      hide ReadChunk, Stream;
      ghost var s, header, start := input[pos..], readHeader, pos;
      assert decoded[i..j] == [];
      TakeChunk();
      if start == |input| {
        EndStep(s, header);
      } else {
        ChunkStep(s, header);
        ghost var c := ReadChunk(w, crc, s, header);
        assert !c.Bad? ==> s[c.size..] == input[start + c.size..];
        if err.None? && i == j {
          assert decoded[i..j] == [];
        }
        assert [] + s[..0] == [];
      }
      Regroup(delivered, s, header);
    }

    lemma EndStep(s: seq<Byte>, header: bool)
      requires s == []
      ensures Stream(w, crc, s, header) == Decoded([], EndOfFile)
    {}

    lemma Regroup(a: seq<Byte>, s: seq<Byte>, header: bool)
      ensures a + ([] + Stream(w, crc, s, header).data) == a + Stream(w, crc, s, header).data
      ensures a + ([] + []) == a
    {
      hide Stream;
    }

    /** Passes on as much as fits of what is pending. */
    method Deliver(p: array<Byte>) returns (n: nat)
      requires Valid() && err.None? && i < j && p != decoded && p != buf
      modifies this`i, this`delivered, p
      ensures Valid() && n <= p.Length && (p.Length > 0 ==> n > 0)
      ensures delivered == old(delivered) + p[..n]
      ensures p[n..] == old(p[n..])
    {
      hide Stream;
      n := if p.Length < j - i then p.Length else j - i;
      var head := decoded[i..i + n];
      ghost var tail, rest := decoded[i + n..j], Stream(w, crc, input[pos..], readHeader).data;
      assert decoded[i..j] == head + tail;
      Regrouped(delivered, head, tail, rest);
      CopyOut(p, head);
      i := i + n;
      delivered := delivered + head;
    }

    /** Delivers the next bytes of what the stream carries, at least one when `p` has room; or, once
        all of it has been delivered, the reason why the stream ends. */
    method Read(p: array<Byte>) returns (n: nat, e: Option<Error>)
      requires Valid() && p != decoded && p != buf
      modifies this, decoded, buf, p
      ensures Valid() && n <= p.Length
      ensures delivered == old(delivered) + p[..n]
      ensures e.Some? ==> n == 0 && e == err
      ensures e.None? ==> err.None? && (p.Length > 0 ==> n > 0)
      ensures old(err).Some? ==> e == old(err)
      ensures p[n..] == old(p[n..])
    {
      hide Stream;
      n := 0;
      assert delivered == old(delivered) + p[..0];
      if err.Some? { return 0, err; }
      while i >= j
        invariant Valid() && delivered == old(delivered) && err.None?
        invariant p[..] == old(p[..])
        decreases |input| - pos
      {
        Advance();
        if err.Some? { return 0, err; }
      }
      n := Deliver(p);
      return n, None;
    }
  }
}
