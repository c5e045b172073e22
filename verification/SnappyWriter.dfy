/** The buffered `Writer` of golang/snappy/encode.go: it compresses whatever is written to it into
    framed chunks on an underlying sink. */
module SnappyWriter {
  import opened Common
  import opened Bytes
  import opened SnappyEncodeBlock
  import opened SnappyBlock
  import opened SnappyFraming

  const OBUF_HEADER_LEN := |MAGIC_CHUNK| + CHECKSUM_SIZE + CHUNK_HEADER_SIZE
  const OBUF_LEN := OBUF_HEADER_LEN + MAX_ENCODED_PAYLOAD

  /** An underlying io.Writer: the k-th call succeeds when `accepts(k)`, and a failing call may leave
      part of its bytes behind. */
  class Sink {
    var data: seq<Byte>
    var calls: nat
    const accepts: nat -> bool

    constructor (accepts: nat -> bool)
      ensures this.accepts == accepts && data == [] && calls == 0
    {
      this.accepts := accepts;
      data, calls := [], 0;
    }

    ghost predicate Reliable() {
      forall k: nat :: accepts(k)
    }

    method Write(p: seq<Byte>) returns (ok: bool)
      modifies this
      ensures ok == accepts(old(calls)) && calls == old(calls) + 1
      ensures ok ==> data == old(data) + p
      ensures old(data) <= data
    {
      ok := accepts(calls);
      calls := calls + 1;
      var n := |p|;
      if !ok {
        n :| 0 <= n <= |p|;
      }
      data := data + p[..n];
    }
  }

  /** A chunk as written: type, length of checksum and body, checksum, body. */
  function ChunkBytes(chunkType: Byte, checksum: Uint32, body: seq<Byte>): (b: seq<Byte>)
    requires |body| <= MAX_ENCODED_PAYLOAD
    ensures |b| == 8 + |body|
  {
    ([chunkType] + Bytes24(4 + |body|) + Bytes32(checksum)) + body
  }

  /** A well-formed chunk carries its payload: `body` is the payload, or a block that means it. */
  lemma ChunkCarries(w: WordSize, crc: Crc, chunkType: Byte, payload: seq<Byte>, body: seq<Byte>)
    requires |payload| <= MAX_PAYLOAD && |body| <= MAX_ENCODED_PAYLOAD
    requires || (chunkType == UNCOMPRESSED && body == payload)
             || (chunkType == COMPRESSED && BlockMeaning(w, body) == Ok(payload))
    ensures Stream(w, crc, ChunkBytes(chunkType, crc(payload), body), true) == Decoded(payload, EndOfFile)
  {
    hide LittleEndian, DecodedLen, BlockMeaning, ChunkBytes;
    var s := ChunkBytes(chunkType, crc(payload), body);
    ChunkFields(chunkType, crc(payload), body);
    if chunkType == COMPRESSED {
      LengthOfMeaning(w, body);
    }
    assert ReadChunk(w, crc, s, true) == Data(payload, |s|);
    assert s[|s|..] == [];
    assert payload + [] == payload;
  }

  /** A chunk's fields are found where they were put. */
  lemma ChunkFields(chunkType: Byte, checksum: Uint32, body: seq<Byte>)
    requires |body| <= MAX_ENCODED_PAYLOAD
    ensures var s := ChunkBytes(chunkType, checksum, body);
      && s[0] == chunkType && LittleEndian(s[1..4]) == 4 + |body|
      && LittleEndian(s[4..8]) == checksum && s[8..|s|] == body
  {
    hide LittleEndian, Bytes24, Bytes32;
    var length, sum := Bytes24(4 + |body|), Bytes32(checksum);
    var s := ([chunkType] + length + sum) + body;
    Bytes24Value(4 + |body|);
    Bytes32Value(checksum);
    assert s[1..4] == length && s[4..8] == sum && s[8..|s|] == body;
  }

  /** The stream identifier carries nothing and opens the stream. */
  lemma MagicCarries(w: WordSize, crc: Crc)
    ensures Stream(w, crc, MAGIC_CHUNK, false) == Decoded([], EndOfFile)
  {
    LittleEndian3(MAGIC_CHUNK[1..4]);
    assert MAGIC_CHUNK[4..10] == MAGIC_BODY;
    assert MAGIC_CHUNK[10..] == [];
  }

  lemma TakeMore<T>(a: seq<T>, p: seq<T>, m: nat, n: nat)
    requires m + n <= |p|
    ensures a + p[..m] + p[m..][..n] == a + p[..m + n] && p[m..][n..] == p[m + n..]
  {
    assert p[..m] + p[m..][..n] == p[..m + n];
  }

  lemma InPieces<T>(a: seq<T>, b: seq<T>, c: seq<T>, d: seq<T>)
    ensures a + (b + c) + d == a + (b + (c + d))
  {}

  /** What is sent for a chunk: all of it in one piece, or the header first and then the payload. */
  lemma SendChunk(w: WordSize, crc: Crc, before: seq<Byte>, sent: seq<Byte>, opening: seq<Byte>, chunk: seq<Byte>, payload: seq<Byte>)
    requires Stream(w, crc, before, false) == Decoded(sent, EndOfFile)
    requires opening == if before == [] then MAGIC_CHUNK else []
    requires Stream(w, crc, chunk, true) == Decoded(payload, EndOfFile)
    ensures Stream(w, crc, before + (opening + chunk), false) == Decoded(sent + payload, EndOfFile)
  {
    hide Stream;
    if before == [] {
      MagicCarries(w, crc);
      StreamAppend(w, crc, opening, chunk, false);
      assert before + (opening + chunk) == opening + chunk;
      StreamAppend(w, crc, before, opening + chunk, false);
    } else {
      assert opening + chunk == chunk;
      StreamAppend(w, crc, before, chunk, false);
    }
  }

  class Writer {
    const w: WordSize
    const hash: Hash
    const crc: Crc
    const sink: Sink
    var err: Option<Error>
    const ibuf: array<Byte>
    var ibufLen: nat
    const obuf: array<Byte>
    var wroteStreamHeader: bool
    /** Every byte accepted since the writer was made. */
    ghost var accepted: seq<Byte>

    ghost predicate Shape()
      reads this
    {
      && ibuf.Length == MAX_BLOCK_SIZE && ibufLen <= ibuf.Length
      && obuf.Length == OBUF_LEN && ibuf != obuf
    }

    /** The sink holds a whole stream that carries `data`. */
    ghost predicate Sent(data: seq<Byte>)
      reads `wroteStreamHeader, sink
    {
      && Stream(w, crc, sink.data, false) == Decoded(data, EndOfFile)
      && (wroteStreamHeader <==> sink.data != [])
    }

    /** The sink starts with a whole stream that carries `data`; behind it there may be part of a chunk
        that the sink did not take. */
    ghost predicate Holds(data: seq<Byte>)
      reads sink
    {
      exists k: nat :: k <= |sink.data| && Stream(w, crc, sink.data[..k], false) == Decoded(data, EndOfFile)
    }

    /** Until an error, what was accepted is what the sink carries followed by what is buffered. */
    ghost predicate Valid()
      reads this, sink, ibuf
    {
      && Shape()
      && (err.None? ==>
          && ibufLen <= |accepted|
          && Sent(accepted[..|accepted| - ibufLen])
          && ibuf[..ibufLen] == accepted[|accepted| - ibufLen..])
    }

    constructor (w: WordSize, hash: Hash, crc: Crc, sink: Sink)
      requires sink.data == []
      ensures Valid() && fresh(ibuf) && fresh(obuf) && this.sink == sink
      ensures this.w == w && this.crc == crc
      ensures err.None? && accepted == []
    {
      this.w, this.hash, this.crc, this.sink := w, hash, crc, sink;
      err, ibufLen, wroteStreamHeader, accepted := None, 0, false, [];
      ibuf := new Byte[MAX_BLOCK_SIZE](_ => 0);
      obuf := new Byte[OBUF_LEN](_ => 0);
    }

    /** Encodes `u` into `obuf` behind the room for the headers. */
    method EncodeBody(u: seq<Byte>) returns (n: nat)
      requires Shape() && 1 <= |u| <= MAX_BLOCK_SIZE
      modifies obuf
      ensures n <= MAX_ENCODED_PAYLOAD
      ensures BlockMeaning(w, obuf[OBUF_HEADER_LEN..OBUF_HEADER_LEN + n]) == Ok(u)
      ensures obuf[..|MAGIC_CHUNK|] == old(obuf[..|MAGIC_CHUNK|])
    {
      hide BlockMeaning;
      var r, out, from := Encode(w, hash, obuf, OBUF_HEADER_LEN, u);
      n := r.value;
      assert out == obuf && from == OBUF_HEADER_LEN;
      assert obuf[..|MAGIC_CHUNK|] == obuf[..OBUF_HEADER_LEN][..|MAGIC_CHUNK|] == old(obuf[..OBUF_HEADER_LEN])[..|MAGIC_CHUNK|];
    }

    /** Lays the chunk for `u` out in `obuf`: `obuf[10..end]` is the chunk, or its header when the
        payload is to follow uncompressed. It is compressed if and only if its block is shorter than
        the payload by an eighth. */
    method FillChunk(u: seq<Byte>) returns (end: nat, chunkType: Byte, ghost body: seq<Byte>, ghost block: seq<Byte>)
      requires Shape() && 1 <= |u| <= MAX_BLOCK_SIZE
      modifies obuf
      ensures OBUF_HEADER_LEN <= end <= obuf.Length && |body| <= MAX_ENCODED_PAYLOAD
      ensures BlockMeaning(w, block) == Ok(u) && (chunkType == COMPRESSED <==> |block| < |u| - |u| / 8)
      ensures chunkType == COMPRESSED ==>
        body == block && obuf[|MAGIC_CHUNK|..end] == ChunkBytes(COMPRESSED, crc(u), body)
      ensures chunkType != COMPRESSED ==>
        chunkType == UNCOMPRESSED && body == u && obuf[|MAGIC_CHUNK|..end] + u == ChunkBytes(UNCOMPRESSED, crc(u), u)
      ensures obuf[..|MAGIC_CHUNK|] == old(obuf[..|MAGIC_CHUNK|])
    {
      hide BlockMeaning, Bytes24, Bytes32;
      var checksum := crc(u);
      var n := EncodeBody(u);
      block := obuf[OBUF_HEADER_LEN..OBUF_HEADER_LEN + n];
      var chunkLen := 4 + n;
      chunkType, end, body := COMPRESSED, OBUF_HEADER_LEN + n, block;
      if n >= |u| - |u| / 8 {
        chunkType, chunkLen, end, body := UNCOMPRESSED, 4 + |u|, OBUF_HEADER_LEN, u;
      }
      ghost var tail := obuf[OBUF_HEADER_LEN..];
      assert tail[..n] == block;
      PutHeader(chunkType, chunkLen, checksum);
      assert obuf[OBUF_HEADER_LEN..OBUF_HEADER_LEN + n] == tail[..n];
      assert obuf[|MAGIC_CHUNK|..end] == obuf[|MAGIC_CHUNK|..OBUF_HEADER_LEN] + obuf[OBUF_HEADER_LEN..end];
    }

    /** Puts type, length and checksum in front of the body. */
    method PutHeader(chunkType: Byte, chunkLen: nat, checksum: Uint32)
      requires Shape() && chunkLen < 0x100_0000
      modifies obuf
      ensures obuf[|MAGIC_CHUNK|..OBUF_HEADER_LEN] == [chunkType] + Bytes24(chunkLen) + Bytes32(checksum)
      ensures obuf[..|MAGIC_CHUNK|] == old(obuf[..|MAGIC_CHUNK|])
      ensures obuf[OBUF_HEADER_LEN..] == old(obuf[OBUF_HEADER_LEN..])
    {
      var header := [chunkType] + Bytes24(chunkLen) + Bytes32(checksum);
      forall k | 0 <= k < |header| { obuf[|MAGIC_CHUNK| + k] := header[k]; }
    }

    /** Sends one chunk for `u`, preceded by the stream identifier when it is the first. */
    method WriteChunk(u: seq<Byte>, ghost data: seq<Byte>)
      requires Shape() && 1 <= |u| <= MAX_BLOCK_SIZE && err.None? && Sent(data)
      modifies this`err, this`wroteStreamHeader, obuf, sink
      ensures err.None? ==> Sent(data + u)
      ensures err.Some? ==> err.value == ErrSink && !sink.Reliable() && Holds(data)
    {
      hide Stream, BlockMeaning, ChunkBytes;
      var obufStart := |MAGIC_CHUNK|;
      ghost var before, opening := sink.data, [];
      if !wroteStreamHeader {
        wroteStreamHeader := true;
        forall k | 0 <= k < |MAGIC_CHUNK| { obuf[k] := MAGIC_CHUNK[k]; }
        obufStart, opening := 0, MAGIC_CHUNK;
        assert obuf[..|MAGIC_CHUNK|] == MAGIC_CHUNK;
      }
      var end, chunkType;
      ghost var body, block;
      end, chunkType, body, block := FillChunk(u);
      ghost var header := obuf[|MAGIC_CHUNK|..end];
      assert obuf[obufStart..end] == opening + header;
      ghost var chunk := ChunkBytes(chunkType, crc(u), body);
      ChunkCarries(w, crc, chunkType, u, body);
      SendChunk(w, crc, before, data, opening, chunk, u);
      var ok := sink.Write(obuf[obufStart..end]);
      assert sink.data[..|before|] == before;
      if !ok {
        err := Some(ErrSink);
        return;
      }
      if chunkType == UNCOMPRESSED {
        ok := sink.Write(u);
        assert sink.data[..|before|] == before;
        if !ok {
          err := Some(ErrSink);
          return;
        }
      }
      InPieces(before, opening, header, u);
    }

    /** Sends `p` in chunks of at most 65536 bytes. When the sink fails, the count is of the whole
        chunks before the one it failed on. */
    method WriteAll(p: seq<Byte>, ghost data: seq<Byte>) returns (n: nat)
      requires Shape() && (err.None? ==> Sent(data))
      modifies this`err, this`wroteStreamHeader, obuf, sink
      ensures err.None? ==> n == |p| && Sent(data + p)
      ensures old(err).None? && err.Some? ==> n < |p| && n % MAX_BLOCK_SIZE == 0 && Holds(data + p[..n])
      ensures err.Some? ==> err == old(err) || (err.value == ErrSink && !sink.Reliable())
      ensures old(err).Some? ==> n == 0 && err == old(err) && sink.data == old(sink.data)
    {
      hide Stream, Sent, Holds;
      n := 0;
      if err.Some? { return; }
      var rest := p;
      assert data + p[..0] == data;
      while |rest| > 0
        invariant n <= |p| && rest == p[n..]
        invariant rest == [] || n % MAX_BLOCK_SIZE == 0
        invariant err.None? && Sent(data + p[..n])
        decreases |rest|
      {
        var u;
        if |rest| > MAX_BLOCK_SIZE {
          u, rest := rest[..MAX_BLOCK_SIZE], rest[MAX_BLOCK_SIZE..];
        } else {
          u, rest := rest, [];
        }
        WriteChunk(u, data + p[..n]);
        if err.Some? { return; }
        assert data + p[..n] + u == data + p[..n + |u|];
        n := n + |u|;
      }
      assert p[..n] == p;
    }

    /** Forwards the buffer; afterwards it is empty unless an earlier error had stopped the writer. */
    method Flush()
      requires Valid()
      modifies this`err, this`wroteStreamHeader, this`ibufLen, obuf, sink
      ensures Valid()
      ensures old(err).None? ==> ibufLen == 0
      ensures old(err).Some? ==> err == old(err) && sink.data == old(sink.data) && ibufLen == old(ibufLen)
      ensures err.Some? ==> err == old(err) || (err.value == ErrSink && !sink.Reliable())
      ensures old(err).None? && err.Some? ==> old(ibufLen) > 0 && Holds(accepted[..|accepted| - old(ibufLen)])
    {
      hide Sent, Holds;
      if err.Some? { return; }
      if ibufLen == 0 { return; }
      ghost var k := |accepted| - ibufLen;
      var n := WriteAll(ibuf[..ibufLen], accepted[..k]);
      assert accepted[..k] + accepted[k..] == accepted;
      assert err.Some? ==> n == 0 && accepted[..k] + ibuf[..ibufLen][..0] == accepted[..k];
      ibufLen := 0;
      assert accepted[..|accepted| - ibufLen] == accepted;
    }

    /** One round of `Write` on more bytes than the buffer can take: sends them directly when the
        buffer is empty, and otherwise tops the buffer up and flushes it. */
    method Drain(p: seq<Byte>) returns (n: nat)
      requires Valid() && err.None? && |p| > ibuf.Length - ibufLen
      modifies this, obuf, ibuf, sink
      ensures Valid() && n <= |p|
      ensures err.None? ==> accepted == old(accepted) + p[..n] && (n > 0 || ibufLen < old(ibufLen)) && ibufLen == 0
      ensures err.Some? ==> err.value == ErrSink && !sink.Reliable()
      ensures err.Some? && old(ibufLen) == 0 ==> n < |p| && Holds(old(accepted) + p[..n])
      ensures err.Some? && old(ibufLen) > 0 ==>
        n == ibuf.Length - old(ibufLen) && Holds(old(accepted)[..|old(accepted)| - old(ibufLen)])
    {
      hide Sent, Holds;
      if ibufLen == 0 {
        assert accepted[..|accepted| - ibufLen] == accepted;
        n := WriteAll(p, accepted);
        assert p[..|p|] == p;
        accepted := accepted + p[..n];
        assert accepted[..|accepted| - ibufLen] == accepted;
      } else {
        n := ibuf.Length - ibufLen;
        ghost var k := |accepted| - ibufLen;
        Append(p[..n]);
        Flush();
        assert accepted[..k] == old(accepted)[..k];
      }
    }

    /** What a failed Write has done with the first `n` bytes of `p`: they follow what was written before
        on the sink, or they completed a buffer that the sink did not take and are lost with it. */
    ghost predicate Dropped(before: seq<Byte>, buffered: nat, p: seq<Byte>, n: nat)
      requires buffered <= |before| && n <= |p|
      reads sink
    {
      || (n < |p| && Holds(before + p[..n]))
      || (0 < buffered && n + buffered == MAX_BLOCK_SIZE && Holds(before[..|before| - buffered]))
    }

    /** A round of Write that fails after `m` bytes fails the Write. */
    lemma StillDropped(start: seq<Byte>, held: nat, p: seq<Byte>, m: nat, n: nat, before: seq<Byte>, buffered: nat)
      requires m + n <= |p| && held <= |start| && before == start + p[..m]
      requires buffered == 0 || (m == 0 && buffered == held)
      requires buffered == 0 ==> m + n < |p| && Holds(before + p[m..][..n])
      requires buffered > 0 ==> n + buffered == MAX_BLOCK_SIZE && Holds(before[..|before| - buffered])
      ensures Dropped(start, held, p, m + n)
    {
      hide Holds;
      TakeMore(start, p, m, n);
      if m == 0 {
        assert before == start;
      }
    }

    /** The loop of Write: rounds on the front of `p` until the rest fits the buffer or the sink fails. */
    method DrainAll(p: seq<Byte>) returns (n: nat)
      requires Valid() && err.None?
      modifies this, obuf, ibuf, sink
      ensures Valid() && n <= |p|
      ensures err.None? ==> accepted == old(accepted) + p[..n] && |p| - n <= ibuf.Length - ibufLen
      ensures err.Some? ==> err.value == ErrSink && !sink.Reliable()
      ensures err.Some? ==> old(ibufLen) <= |old(accepted)| && Dropped(old(accepted), old(ibufLen), p, n)
      ensures |p| <= ibuf.Length - old(ibufLen) ==>
        n == 0 && err.None? && ibufLen == old(ibufLen) && sink.data == old(sink.data)
    {
      assert ibufLen <= |accepted|;
      hide Sent, Holds, Dropped, Valid;
      n := 0;
      assert accepted == old(accepted) + p[..0];
      while |p| - n > ibuf.Length - ibufLen && err.None?
        invariant Valid() && n <= |p|
        invariant err.None? ==> accepted == old(accepted) + p[..n]
        invariant err.Some? ==> err.value == ErrSink && !sink.Reliable()
        invariant err.Some? ==> Dropped(old(accepted), old(ibufLen), p, n)
        invariant err.None? ==> ibufLen == 0 || (n == 0 && ibufLen == old(ibufLen))
        invariant |p| <= ibuf.Length - old(ibufLen) ==>
          n == 0 && err.None? && ibufLen == old(ibufLen) && sink.data == old(sink.data)
        decreases if err.None? then 1 else 0, |p| - n, ibufLen
      {
        ghost var before, buffered := accepted, ibufLen;
        var m := Drain(p[n..]);
        TakeMore(old(accepted), p, n, m);
        if err.Some? {
          StillDropped(old(accepted), old(ibufLen), p, n, m, before, buffered);
        }
        n := n + m;
      }
    }

    /** Accepts `p`: buffered or sent, in order and complete unless an error is reported. */
    method Write(p: seq<Byte>) returns (nRet: nat, e: Option<Error>)
      requires Valid()
      modifies this, obuf, ibuf, sink
      ensures Valid()
      ensures e == err
      ensures err.None? ==> nRet == |p| && accepted == old(accepted) + p
      ensures old(err).Some? ==> nRet == 0 && err == old(err) && sink.data == old(sink.data)
      ensures err.Some? ==> err == old(err) || (err.value == ErrSink && !sink.Reliable())
      ensures nRet <= |p|
      ensures old(err).None? && err.Some? ==>
        old(ibufLen) <= |old(accepted)| && Dropped(old(accepted), old(ibufLen), p, nRet)
      ensures old(err).None? && |p| <= ibuf.Length - old(ibufLen) ==>
        err.None? && ibufLen == old(ibufLen) + |p| && sink.data == old(sink.data)
    {
      hide Sent, Holds, Dropped, Valid;
      if err.Some? { return 0, err; }
      nRet := DrainAll(p);
      if err.Some? { return nRet, err; }
      var rest := p[nRet..];
      Append(rest);
      assert p[..nRet] + rest == p;
      return nRet + |rest|, None;
    }

    /** Copies `p` into the free part of the buffer. */
    method Append(p: seq<Byte>)
      requires Valid() && err.None? && |p| <= ibuf.Length - ibufLen
      modifies this`ibufLen, this`accepted, ibuf
      ensures Valid() && accepted == old(accepted) + p && ibufLen == old(ibufLen) + |p|
    {
      hide Sent;
      ghost var k, kept := |accepted| - ibufLen, ibuf[..ibufLen];
      forall i | 0 <= i < |p| { ibuf[ibufLen + i] := p[i]; }
      ibufLen := ibufLen + |p|;
      accepted := accepted + p;
      assert accepted[..k] == old(accepted)[..k];
      assert ibuf[..ibufLen] == kept + p;
      assert accepted[k..] == old(accepted)[k..] + p;
    }

    /** Flushes and refuses everything from then on. On success the sink carries all that was accepted. */
    method Close() returns (e: Option<Error>)
      requires Valid()
      modifies this`err, this`wroteStreamHeader, this`ibufLen, obuf, sink
      ensures Valid() && err.Some?
      ensures e.None? ==>
        && old(err).None? && err == Some(ErrClosed)
        && Stream(w, crc, sink.data, false) == Decoded(accepted, EndOfFile)
      ensures old(err).Some? ==> e == old(err) && sink.data == old(sink.data)
      ensures e.Some? ==> e == old(err) || (e.value == ErrSink && !sink.Reliable())
      ensures old(err).None? && e.Some? ==> old(ibufLen) > 0 && Holds(accepted[..|accepted| - old(ibufLen)])
    {
      hide Stream, Holds;
      Flush();
      e := err;
      if err.None? {
        assert accepted[..|accepted| - ibufLen] == accepted;
        err := Some(ErrClosed);
      }
    }
  }
}
