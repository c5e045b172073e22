/** `emitLiteral` and `emitCopy` of golang/snappy/encode_other.go. Each writes elements at `dst[d..]`
    and is specified by what those elements mean to a decoder that has produced `out` so far, for
    any `out`, and not by their bytes. */
module SnappyEmit {
  import opened Common
  import opened Bytes
  import opened SnappyFormat

  /** Bytes that a literal of length `n` needs besides its own contents. */
  function LiteralOverhead(n: nat): (h: nat) {
    if n <= 60 then 1 else if n <= 256 then 2 else 3
  }

  /** Bytes that a copy needs. */
  function CopySize(offset: nat, length: nat): (n: nat)
    requires length >= 4
    ensures 2 <= n < length
  {
    if length >= 68 then 3 + CopySize(offset, length - 64)
    else if length > 64 then 3 + CopySize(offset, length - 60)
    else if length >= 12 || offset >= 2048 then 3
    else 2
  }

  /** Decoding `bytes` after `out` performs one forward copy. */
  ghost predicate MeansCopy(bytes: seq<Byte>, out: seq<Byte>, offset: nat, length: nat) {
    1 <= offset <= |out| ==> Expand(bytes, out) == Some(CopyForward(out, offset, length))
  }

  /** `header` announces a literal of `n` bytes. */
  predicate AnnouncesLiteral(header: seq<Byte>, n: nat) {
    match |header|
    case 1 => header[0] % 4 == 0 && header[0] / 4 < 60 && n == header[0] as int / 4 + 1
    case 2 => header[0] == 60 * 4 && n == header[1] as int + 1
    case 3 => header[0] == 61 * 4 && n == header[1] as int + 0x100 * header[2] as int + 1
    case _ => false
  }

  /** A literal header followed by its bytes means that literal. */
  lemma LiteralMeaning(header: seq<Byte>, lit: seq<Byte>, out: seq<Byte>)
    requires AnnouncesLiteral(header, |lit|)
    ensures Expand(header + lit, out) == Some(out + lit)
  {
    hide LittleEndian, Expand;
    var bytes := header + lit;
    assert bytes[0] == header[0];
    if |header| == 2 {
      assert bytes[1..2] == [header[1]];
      LittleEndian1(bytes[1..2]);
    } else if |header| == 3 {
      assert bytes[1..3] == [header[1], header[2]];
      LittleEndian2(bytes[1..3]);
    }
    assert bytes[|header|..|bytes|] == lit;
    assert LiteralLength(bytes) == Some(|lit|);
    ExpandOne(bytes, out);
  }

  method EmitLiteralHeader(dst: array<Byte>, d: nat, length: nat) returns (i: nat)
    requires 1 <= length <= 0x1_0000 && d + LiteralOverhead(length) <= dst.Length
    modifies dst
    ensures i == LiteralOverhead(length) && AnnouncesLiteral(dst[d..d + i], length)
    ensures dst[..d] == old(dst[..d])
  {
    var n := length - 1;
    if n < 60 {
      dst[d] := n * 4;
      return 1;
    } else if n < 0x100 {
      dst[d] := 60 * 4;
      dst[d + 1] := n;
      return 2;
    } else {
      dst[d] := 61 * 4;
      dst[d + 1] := n % 0x100;
      dst[d + 2] := n / 0x100;
      return 3;
    }
  }

  method EmitLiteral(dst: array<Byte>, d: nat, lit: seq<Byte>, ghost out: seq<Byte>) returns (i: nat)
    requires 1 <= |lit| <= 0x1_0000
    requires d + LiteralOverhead(|lit|) + |lit| <= dst.Length
    modifies dst
    ensures i == LiteralOverhead(|lit|) + |lit|
    ensures Expand(dst[d..d + i], out) == Some(out + lit)
    ensures dst[..d] == old(dst[..d])
  {
    hide Expand, ParseElement;
    var h := EmitLiteralHeader(dst, d, |lit|);
    ghost var header := dst[d..d + h];
    forall k | 0 <= k < |lit| { dst[d + h + k] := lit[k]; }
    i := h + |lit|;
    assert dst[d..d + i] == header + lit;
    LiteralMeaning(header, lit, out);
  }

  lemma Copy2Meaning(bytes: seq<Byte>, out: seq<Byte>, offset: nat, length: nat)
    requires |bytes| == 3 && 1 <= length <= 64
    requires bytes[0] as int == (length - 1) * 4 + 2 && bytes[1] as int + 0x100 * bytes[2] as int == offset
    ensures MeansCopy(bytes, out, offset, length)
  {
    hide LittleEndian, CopyForward, Expand;
    LittleEndian2(bytes[1..3]);
    if 1 <= offset <= |out| {
      ExpandOne(bytes, out);
    }
  }

  /** The two bit fields of a two-byte copy tag do not disturb each other. */
  lemma Copy1Fields(high: nat, extra: nat)
    requires high < 8 && extra < 8
    ensures var tag := high * 32 + extra * 4 + 1;
      tag % 4 == 1 && tag / 4 / 8 == high && tag / 4 % 8 == extra
  {}

  lemma Copy1Meaning(bytes: seq<Byte>, out: seq<Byte>, offset: nat, length: nat)
    requires |bytes| == 2 && 4 <= length < 12 && offset < 2048
    requires bytes[0] as int == offset / 256 * 32 + (length - 4) * 4 + 1 && bytes[1] as int == offset % 256
    ensures MeansCopy(bytes, out, offset, length)
  {
    hide CopyForward, Expand;
    Copy1Fields(offset / 256, length - 4);
    if 1 <= offset <= |out| {
      ExpandOne(bytes, out);
    }
  }

  lemma NothingMeansEmptyCopy(bytes: seq<Byte>, out: seq<Byte>, offset: nat)
    requires bytes == []
    ensures MeansCopy(bytes, out, offset, 0)
  {}

  /** Splitting a long copy into consecutive ones at the same offset keeps its meaning. */
  lemma CopyConcat(a: seq<Byte>, b: seq<Byte>, out: seq<Byte>, offset: nat, m: nat, n: nat)
    requires 1 <= offset <= |out|
    requires MeansCopy(a, out, offset, m) && MeansCopy(b, CopyForward(out, offset, m), offset, n)
    ensures MeansCopy(a + b, out, offset, m + n)
  {
    ExpandAppend(a, b, out);
    CopyForwardSplit(out, offset, m, n);
  }

  /** What has been decoded once the first `m` bytes of the copy are done. */
  ghost function After(out: seq<Byte>, offset: nat, m: nat): seq<Byte> {
    if 1 <= offset <= |out| then CopyForward(out, offset, m) else out
  }

  /** Appends one three-byte tag to the tags at `dst[d..d + i]` that already copy `m` bytes. */
  method EmitCopy2(dst: array<Byte>, d: nat, i: nat, offset: nat, n: nat, ghost out: seq<Byte>, ghost m: nat)
    returns (i': nat, ghost m': nat)
    requires 1 <= offset <= 0xffff && 1 <= n <= 64
    requires d + i + 3 <= dst.Length && MeansCopy(dst[d..d + i], out, offset, m)
    modifies dst
    ensures i' == i + 3 && m' == m + n && MeansCopy(dst[d..d + i'], out, offset, m')
    ensures dst[..d] == old(dst[..d])
  {
    hide Expand, ParseElement, CopyForward;
    ghost var tags := dst[d..d + i];
    dst[d + i] := (n - 1) * 4 + 2;
    dst[d + i + 1] := offset % 0x100;
    dst[d + i + 2] := offset / 0x100;
    i', m' := i + 3, m + n;
    ghost var tag := dst[d + i..d + i'];
    assert dst[d..d + i'] == tags + tag;
    Copy2Meaning(tag, After(out, offset, m), offset, n);
    if 1 <= offset <= |out| {
      CopyConcat(tags, tag, out, offset, m, n);
    }
  }

  /** Appends one two-byte tag likewise. */
  method EmitCopy1(dst: array<Byte>, d: nat, i: nat, offset: nat, n: nat, ghost out: seq<Byte>, ghost m: nat)
    returns (i': nat, ghost m': nat)
    requires 1 <= offset < 2048 && 4 <= n < 12
    requires d + i + 2 <= dst.Length && MeansCopy(dst[d..d + i], out, offset, m)
    modifies dst
    ensures i' == i + 2 && m' == m + n && MeansCopy(dst[d..d + i'], out, offset, m')
    ensures dst[..d] == old(dst[..d])
  {
    hide Expand, ParseElement, CopyForward;
    ghost var tags := dst[d..d + i];
    dst[d + i] := offset / 0x100 * 32 + (n - 4) * 4 + 1;
    dst[d + i + 1] := offset % 0x100;
    i', m' := i + 2, m + n;
    ghost var tag := dst[d + i..d + i'];
    assert dst[d..d + i'] == tags + tag;
    Copy1Meaning(tag, After(out, offset, m), offset, n);
    if 1 <= offset <= |out| {
      CopyConcat(tags, tag, out, offset, m, n);
    }
  }

  /** Emits a copy as tags of at most 64 bytes; the tags together mean the one whole copy. */
  method EmitCopy(dst: array<Byte>, d: nat, offset: nat, length: nat, ghost out: seq<Byte>) returns (i: nat)
    requires 1 <= offset <= 0xffff && 4 <= length <= 0xffff
    requires d + CopySize(offset, length) <= dst.Length
    modifies dst
    ensures i == CopySize(offset, length)
    ensures MeansCopy(dst[d..d + i], out, offset, length)
    ensures dst[..d] == old(dst[..d])
  {
    hide Expand, CopyForward;
    i := 0;
    var left := length;
    ghost var m := 0;
    NothingMeansEmptyCopy(dst[d..d + i], out, offset);
    while left >= 68
      invariant 4 <= left && m + left == length
      invariant i + CopySize(offset, left) == CopySize(offset, length)
      invariant MeansCopy(dst[d..d + i], out, offset, m)
      invariant dst[..d] == old(dst[..d])
    {
      i, m := EmitCopy2(dst, d, i, offset, 64, out, m);
      left := left - 64;
    }
    if left > 64 {
      i, m := EmitCopy2(dst, d, i, offset, 60, out, m);
      left := left - 60;
    }
    if left >= 12 || offset >= 2048 {
      i, m := EmitCopy2(dst, d, i, offset, left, out, m);
    } else {
      i, m := EmitCopy1(dst, d, i, offset, left, out, m);
    }
  }
}
