/** `Encode` and `Decode`: whole blocks, that is a varint length followed by elements
    (golang/snappy/encode.go and golang/snappy/decode.go). */
module SnappyBlock {
  import opened Common
  import opened Bytes
  import opened SnappyFormat
  import opened SnappyEmit
  import opened SnappyEncodeBlock
  import opened SnappyDecode

  datatype Error =
    | ErrCorrupt | ErrTooLarge | ErrUnsupported | ErrUnsupportedLiteralLength
    | EndOfFile | ErrClosed | ErrSink

  datatype Result<+T> = Ok(value: T) | Err(error: Error)

  // ---------- the varint header

  /** The base-128 digits of `x`, least significant first, all but the last marked with 128. */
  function Leb128(x: nat): (b: seq<Byte>)
    ensures |b| >= 1
  {
    if x < 0x80 then [x] else [x % 0x80 + 0x80] + Leb128(x / 0x80)
  }

  datatype Varint = Varint(value: nat, size: nat)

  /** The base-128 number at the front of `buf`; None when `buf` ends inside it. */
  function ReadLeb128(buf: seq<Byte>): (r: Option<Varint>)
    ensures r.Some? ==> 1 <= r.value.size <= |buf|
  {
    if buf == [] then None
    else if buf[0] < 0x80 then Some(Varint(buf[0], 1))
    else match ReadLeb128(buf[1..])
      case None => None
      case Some(v) => Some(Varint(buf[0] - 0x80 + 0x80 * v.value, 1 + v.size))
  }

  /** The standard library's Uvarint: numbers that do not fit 64 bits are refused by their length. */
  function Uvarint(buf: seq<Byte>): (r: Option<Varint>)
    ensures r.Some? ==> 1 <= r.value.size <= |buf|
  {
    var r := ReadLeb128(buf);
    if r.Some? && (r.value.size > 10 || (r.value.size == 10 && buf[9] > 1)) then None else r
  }

  lemma {:induction false} Leb128RoundTrip(x: nat, rest: seq<Byte>)
    ensures ReadLeb128(Leb128(x) + rest) == Some(Varint(x, |Leb128(x)|))
    decreases x
  {
    var b := Leb128(x) + rest;
    if x >= 0x80 {
      Leb128RoundTrip(x / 0x80, rest);
      assert b[1..] == Leb128(x / 0x80) + rest;
    }
  }

  lemma Leb128Unfold(x: nat)
    ensures Leb128(x) == if x < 0x80 then [x] else [x % 0x80 + 0x80] + Leb128(x / 0x80)
  {}

  /** One more digit takes numbers 128 times as large. */
  lemma Leb128Digit(x: nat, k: nat, bound: nat)
    requires x < 0x80 * bound
    requires x >= 0x80 ==> |Leb128(x / 0x80)| <= k
    ensures |Leb128(x)| <= k + 1 && x / 0x80 < bound
  {}

  lemma Leb128Length(x: nat)
    requires x < 0x1_0000_0000
    ensures |Leb128(x)| <= 5
  {
    hide Leb128;
    var a := x / 0x80;
    var b := a / 0x80;
    var c := b / 0x80;
    Leb128Digit(c / 0x80, 0, 1);
    Leb128Digit(c, 1, 0x80);
    Leb128Digit(b, 2, 0x4000);
    Leb128Digit(a, 3, 0x20_0000);
    Leb128Digit(x, 4, 0x1000_0000);
  }

  /** Writes `x` as a varint; `dst` must have room for it. */
  method PutUvarint(dst: array<Byte>, start: nat, x: nat) returns (i: nat)
    requires start + |Leb128(x)| <= dst.Length
    modifies dst
    ensures i == |Leb128(x)| && dst[start..start + i] == Leb128(x)
    ensures dst[..start] == old(dst[..start])
  {
    hide Leb128;
    var rest := x;
    i := 0;
    ghost var digits := Leb128(x);
    assert digits[0..] == digits && dst[start..start + 0] == digits[..0];
    while rest >= 0x80
      invariant i < |digits| && digits[i..] == Leb128(rest)
      invariant dst[start..start + i] == digits[..i]
      invariant dst[..start] == old(dst[..start])
      decreases rest
    {
      NextDigit(digits, i, rest);
      PutByte(dst, start, i, rest % 0x80 + 0x80);
      i, rest := i + 1, rest / 0x80;
    }
    NextDigit(digits, i, rest);
    PutByte(dst, start, i, rest);
    i := i + 1;
  }

  /** The digit at `i`, and what comes behind it. */
  lemma NextDigit(digits: seq<Byte>, i: nat, rest: nat)
    requires i < |digits| && digits[i..] == Leb128(rest)
    ensures rest >= 0x80 ==>
      && i + 1 < |digits| && digits[..i + 1] == digits[..i] + [rest % 0x80 + 0x80]
      && digits[i + 1..] == Leb128(rest / 0x80)
    ensures rest < 0x80 ==> i + 1 == |digits| && digits == digits[..i] + [rest]
  {
    hide Leb128;
    Leb128Unfold(rest);
    assert digits[i] == digits[i..][0] && digits[i + 1..] == digits[i..][1..];
    assert digits == digits[..i] + digits[i..];
  }

  /** Appends a byte to `dst[start..start + i]`. */
  method PutByte(dst: array<Byte>, start: nat, i: nat, b: Byte)
    requires start + i < dst.Length
    modifies dst
    ensures dst[start..start + i + 1] == old(dst[start..start + i]) + [b]
    ensures dst[..start] == old(dst[..start])
  {
    dst[start + i] := b;
  }

  /** The length header of a block: the decoded length and the size of the header. */
  function DecodedLen(w: WordSize, src: seq<Byte>): (r: Result<Varint>)
    ensures r.Ok? ==> r.value.size <= |src| && r.value.value <= w.MaxInt()
    ensures r.Err? ==> r.error in {ErrCorrupt, ErrTooLarge}
  {
    match Uvarint(src)
    case None => Err(ErrCorrupt)
    case Some(v) =>
      if v.value > 0xffff_ffff then Err(ErrCorrupt)
      else if w.W32? && v.value > 0x7fff_ffff then Err(ErrTooLarge)
      else Ok(v)
  }

  // ---------- decoding

  /** The meaning of a block: the expansion of its elements, if it has the announced length, and
      otherwise what is wrong with it. */
  function BlockMeaning(w: WordSize, src: seq<Byte>): (r: Result<seq<Byte>>)
    ensures r.Err? ==> r.error in {ErrCorrupt, ErrTooLarge, ErrUnsupportedLiteralLength}
  {
    match DecodedLen(w, src)
    case Err(e) => Err(e)
    case Ok(v) =>
      var elements := src[v.size..];
      var r := Expand(elements, []);
      if r.Some? && |r.value| == v.value then Ok(r.value)
      else if MeetsHugeLiteral(w, elements, [], v.value) then Err(ErrUnsupportedLiteralLength)
      else Err(ErrCorrupt)
  }

  lemma LengthOfMeaning(w: WordSize, src: seq<Byte>)
    requires BlockMeaning(w, src).Ok?
    ensures DecodedLen(w, src).Ok? && DecodedLen(w, src).value.value == |BlockMeaning(w, src).value|
  {}

  /** Decodes a block into `dst` when it is large enough, and into a new array otherwise. It succeeds
      on exactly the blocks that have a meaning. */
  method Decode(w: WordSize, dst: array<Byte>, src: seq<Byte>) returns (r: Result<nat>, out: array<Byte>)
    requires |src| <= w.MaxInt()
    modifies dst
    ensures r.Ok? ==> r.value <= out.Length && BlockMeaning(w, src) == Ok(out[..r.value])
    ensures r.Err? ==> BlockMeaning(w, src) == Err(r.error)
    ensures r.Ok? ==> DecodedLen(w, src).Ok? && r.value == DecodedLen(w, src).value.value
    ensures DecodedLen(w, src).Ok? && DecodedLen(w, src).value.value <= dst.Length ==> out == dst
    ensures out == dst || fresh(out)
    ensures DecodedLen(w, src).Ok? ==>
      forall k :: DecodedLen(w, src).value.value <= k < dst.Length ==> dst[k] == old(dst[k])
  {
    hide Expand, MeetsHugeLiteral;
    out := dst;
    var header := DecodedLen(w, src);
    if header.Err? { return Err(header.error), out; }
    var dLen, s := header.value.value, header.value.size;
    if dLen > dst.Length {
      out := new Byte[dLen](_ => 0);
    }
    ghost var before := dst[..];
    var code := DecodeElements(w, out, dLen, src[s..]);
    if out == dst {
      forall k | dLen <= k < dst.Length ensures dst[k] == before[k] {
        assert dst[k] == dst[dLen..][k - dLen];
      }
    }
    if code == 0 { return Ok(dLen), out; }
    if code == UNSUPPORTED_LITERAL_LENGTH { return Err(ErrUnsupportedLiteralLength), out; }
    return Err(ErrCorrupt), out;
  }

  // ---------- encoding

  /** The bound on encoded lengths; negative when `srcLen` is too large to encode. */
  function MaxEncodedLen(w: WordSize, srcLen: int): (n: int)
    ensures n >= 0 <==> srcLen >= 0 && 32 + srcLen + srcLen / 6 <= if w.W32? then 0x7fff_ffff else 0xffff_ffff
    ensures n >= 0 ==> n == 32 + srcLen + srcLen / 6 <= w.MaxInt() && srcLen <= 0xffff_ffff
  {
    if srcLen < 0 || srcLen > 0xffff_ffff then -1
    else
      var n := 32 + srcLen + srcLen / 6;
      if n > 0xffff_ffff then -1 else w.ToInt(n)
  }

  /** Emits one piece of at most 65536 bytes, as a literal when it is too short to search. */
  method EncodePiece(hash: Hash, dst: array<Byte>, d0: nat, p: seq<Byte>, ghost pre: seq<Byte>) returns (d: nat)
    requires 1 <= |p| <= MAX_BLOCK_SIZE && d0 <= dst.Length && HasRoom(dst.Length - d0, |p|)
    modifies dst
    ensures d0 <= d <= dst.Length
    ensures Expand(dst[d0..d], pre) == Some(pre + p)
    ensures 65 * (d - d0) <= 66 * |p| + 195
    ensures dst[..d0] == old(dst[..d0])
  {
    hide Expand;
    if |p| < MIN_NON_LITERAL_BLOCK_SIZE {
      var n := EmitLiteral(dst, d0, p, pre);
      d := d0 + n;
    } else {
      d := EncodeBlock(hash, dst, d0, p, pre);
    }
  }

  /** Writes the pieces of `src` at `dst[d0..d]`. */
  method EncodePieces(hash: Hash, dst: array<Byte>, d0: nat, src: seq<Byte>) returns (d: nat)
    requires d0 <= dst.Length && 65 * (dst.Length - d0) >= 67 * |src| + 195
    modifies dst
    ensures d0 <= d <= dst.Length && 65 * (d - d0) <= 67 * |src| + 195
    ensures Expand(dst[d0..d], []) == Some(src)
    ensures dst[..d0] == old(dst[..d0])
  {
    hide Expand;
    d := d0;
    var rest, k := src, 0;
    ExpandNothing(dst[d0..d], src[..k]);
    while |rest| > 0
      invariant 0 <= k <= |src| && rest == src[k..]
      invariant d0 <= d <= dst.Length
      invariant 65 * (d - d0) <= 67 * k + 195 && (|rest| > 0 ==> 65 * (d - d0) <= 67 * k)
      invariant Expand(dst[d0..d], []) == Some(src[..k])
      invariant dst[..d0] == old(dst[..d0])
      decreases |rest|
    {
      var p;
      if |rest| > MAX_BLOCK_SIZE {
        p, rest := rest[..MAX_BLOCK_SIZE], rest[MAX_BLOCK_SIZE..];
      } else {
        p, rest := rest, [];
      }
      d := AppendPiece(hash, dst, d0, d, p, src[..k]);
      assert src[..k] + p == src[..k + |p|];
      k := k + |p|;
    }
    assert src[..k] == src;
  }

  /** Writes header and pieces at `dst[from..d]`, given the room that `MaxEncodedLen` promises. */
  method EncodeInto(w: WordSize, hash: Hash, dst: array<Byte>, from: nat, src: seq<Byte>) returns (d: nat)
    requires |src| <= 0xffff_ffff && |src| <= w.MaxInt()
    requires from + 32 + |src| + |src| / 6 <= dst.Length
    modifies dst
    ensures from <= d <= from + 32 + |src| + |src| / 6
    ensures BlockMeaning(w, dst[from..d]) == Ok(src)
    ensures dst[..from] == old(dst[..from])
  {
    hide Expand, Leb128, BlockMeaning;
    Leb128Length(|src|);
    var h := PutUvarint(dst, from, |src|);
    var d0 := from + h;
    ghost var all := dst[..d0];
    d := EncodePieces(hash, dst, d0, src);
    assert dst[from..d] == all[from..] + dst[d0..d];
    assert dst[..from] == all[..from];
    BlockOf(w, src, dst[d0..d]);
  }

  method AppendPiece(hash: Hash, dst: array<Byte>, d0: nat, d: nat, p: seq<Byte>, ghost done: seq<Byte>) returns (d': nat)
    requires 1 <= |p| <= MAX_BLOCK_SIZE && d0 <= d <= dst.Length && HasRoom(dst.Length - d, |p|)
    requires Expand(dst[d0..d], []) == Some(done)
    modifies dst
    ensures d <= d' <= dst.Length && 65 * (d' - d) <= 66 * |p| + 195
    ensures Expand(dst[d0..d'], []) == Some(done + p)
    ensures dst[..d0] == old(dst[..d0])
  {
    hide Expand;
    ghost var before := dst[d0..d];
    d' := EncodePiece(hash, dst, d, p, done);
    assert dst[d0..d] == dst[..d][d0..] == before;
    assert dst[..d0] == dst[..d][..d0];
    assert dst[d0..d'] == before + dst[d..d'];
    ExpandAppend(before, dst[d..d'], []);
  }

  /** Encodes `src` at `dst[start..]` when that is large enough, and into a new array otherwise. The
      result decodes to `src` and is no longer than `MaxEncodedLen` says. */
  method Encode(w: WordSize, hash: Hash, dst: array<Byte>, start: nat, src: seq<Byte>)
    returns (r: Result<nat>, out: array<Byte>, from: nat)
    requires start <= dst.Length && |src| <= w.MaxInt()
    modifies dst
    ensures MaxEncodedLen(w, |src|) < 0 <==> r.Err?
    ensures r.Err? ==> r.error == ErrTooLarge
    ensures r.Ok? ==>
      && r.value <= MaxEncodedLen(w, |src|)
      && from + r.value <= out.Length
      && BlockMeaning(w, out[from..from + r.value]) == Ok(src)
    ensures 0 <= MaxEncodedLen(w, |src|) <= dst.Length - start ==> out == dst && from == start
    ensures out == dst || fresh(out)
    ensures dst[..start] == old(dst[..start])
  {
    hide BlockMeaning;
    out, from := dst, start;
    var n := MaxEncodedLen(w, |src|);
    if n < 0 { return Err(ErrTooLarge), out, from; }
    if dst.Length - start < n {
      out, from := new Byte[n](_ => 0), 0;
    }
    var d := EncodeInto(w, hash, out, from, src);
    r := Ok(d - from);
    assert out[from..from + r.value] == out[from..d];
  }

  lemma ExpandNothing(src: seq<Byte>, out: seq<Byte>)
    requires src == [] && out == []
    ensures Expand(src, []) == Some(out)
  {}

  /** A length header followed by elements that expand to `src` is a block that means `src`. */
  lemma BlockOf(w: WordSize, src: seq<Byte>, elements: seq<Byte>)
    requires |src| <= 0xffff_ffff && |src| <= w.MaxInt()
    requires Expand(elements, []) == Some(src)
    ensures BlockMeaning(w, Leb128(|src|) + elements) == Ok(src)
  {
    hide Expand, Leb128, ReadLeb128;
    var h := Leb128(|src|);
    Leb128RoundTrip(|src|, elements);
    Leb128Length(|src|);
    assert (h + elements)[|h|..] == elements;
  }

  /** Round trip: whatever the word size and the hash, what `Encode` makes of `src` decodes to `src`. */
  method RoundTrip(w: WordSize, hash: Hash, src: seq<Byte>) returns (r: Result<seq<Byte>>)
    requires |src| <= w.MaxInt()
    ensures r == if MaxEncodedLen(w, |src|) >= 0 then Ok(src) else Err(ErrTooLarge)
  {
    var none := new Byte[0];
    var n, enc, from := Encode(w, hash, none, 0, src);
    if n.Err? { return Err(n.error); }
    var m, dec := Decode(w, none, enc[from..from + n.value]);
    return Ok(dec[..m.value]);
  }
}
