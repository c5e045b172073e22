/** The block decoder of golang/snappy/decode_other.go. */
module SnappyDecode {
  import opened Common
  import opened Bytes
  import opened SnappyFormat

  const CORRUPT := 1
  const UNSUPPORTED_LITERAL_LENGTH := 2

  /** The front element of `src` is a literal whose announced length is no `int`. */
  predicate HugeLiteral(w: WordSize, src: seq<Byte>) {
    src != [] && src[0] % 4 == 0 && LiteralLength(src).Some? && LiteralLength(src).value > w.MaxInt()
  }

  /** Reads the literal element at `s0` off its header size and length field. */
  lemma LiteralAt(src: seq<Byte>, s0: nat, extra: nat, x: nat)
    requires s0 < |src| && src[s0] % 4 == 0 && s0 + 1 + extra <= |src|
    requires extra == if src[s0] / 4 < 60 then 0 else src[s0] / 4 - 59
    requires x == if src[s0] / 4 < 60 then src[s0] / 4 else LittleEndian(src[s0 + 1..s0 + 1 + extra])
    ensures var s := s0 + 1 + extra;
      ParseElement(src[s0..]) ==
      if s + x + 1 <= |src| then Some(Parsed(Literal(src[s..s + x + 1]), s + x + 1 - s0)) else None
    ensures LiteralLength(src[s0..]) == Some(x + 1)
  {
    var s := s0 + 1 + extra;
    var rest := src[s0..];
    assert rest[1..1 + extra] == src[s0 + 1..s];
    if s + x + 1 <= |src| {
      assert rest[1 + extra..2 + extra + x] == src[s..s + x + 1];
    }
  }

  lemma LiteralCut(src: seq<Byte>, s0: nat, extra: nat)
    requires s0 < |src| && src[s0] % 4 == 0 && src[s0] / 4 == 59 + extra && extra >= 1 && s0 + 1 + extra > |src|
    ensures ParseElement(src[s0..]) == None && LiteralLength(src[s0..]) == None
  {}

  /** What a literal header of `src` says: where it ends, and the literal's length less one. */
  method LiteralHeader(src: seq<Byte>, s0: nat) returns (s: nat, x: int)
    requires s0 < |src| && src[s0] % 4 == 0
    ensures s0 < s && (s <= |src| ==> 0 <= x < 0x1_0000_0000)
    ensures LiteralLength(src[s0..]) == if s <= |src| then Some(x + 1) else None
    ensures ParseElement(src[s0..]) ==
      if s <= |src| && s + x + 1 <= |src| then Some(Parsed(Literal(src[s..s + x + 1]), s + x + 1 - s0)) else None
  {
    hide LittleEndian, ParseElement, LiteralLength;
    x := src[s0] / 4;
    if x < 60 {
      s := s0 + 1;
    } else if x == 60 {
      s := s0 + 2;
      if s > |src| {
        LiteralCut(src, s0, 1);
        return;
      }
      x := src[s - 1];
      LittleEndian1(src[s0 + 1..s]);
    } else if x == 61 {
      s := s0 + 3;
      if s > |src| {
        LiteralCut(src, s0, 2);
        return;
      }
      x := src[s - 2] as int + src[s - 1] as int * 0x100;
      LittleEndian2(src[s0 + 1..s]);
    } else if x == 62 {
      s := s0 + 4;
      if s > |src| {
        LiteralCut(src, s0, 3);
        return;
      }
      x := src[s - 3] as int + src[s - 2] as int * 0x100 + src[s - 1] as int * 0x1_0000;
      LittleEndian3(src[s0 + 1..s]);
    } else {
      s := s0 + 5;
      if s > |src| {
        LiteralCut(src, s0, 4);
        return;
      }
      x := src[s - 4] as int + src[s - 3] as int * 0x100 + src[s - 2] as int * 0x1_0000 + src[s - 1] as int * 0x100_0000;
      LittleEndian4(src[s0 + 1..s]);
    }
    LiteralAt(src, s0, s - s0 - 1, x);
  }

  /** Reads the copy element at `s0` off its tag and the bytes that follow. */
  lemma CopyAt(src: seq<Byte>, s0: nat)
    requires s0 < |src| && src[s0] % 4 != 0
    ensures var tag, m := src[s0] % 4, src[s0] / 4;
      ParseElement(src[s0..]) ==
      if tag == 1 then
        if s0 + 2 <= |src| then Some(Parsed(Copy(m as int / 8 * 256 + src[s0 + 1], 4 + m % 8), 2)) else None
      else
        var size := if tag == 2 then 3 else 5;
        if s0 + size <= |src| then Some(Parsed(Copy(LittleEndian(src[s0 + 1..s0 + size]), 1 + m), size)) else None
  {
    hide LittleEndian;
    var rest := src[s0..];
    if s0 + 3 <= |src| {
      SliceOfTail(src, s0, 1, 3);
    }
    if s0 + 5 <= |src| {
      SliceOfTail(src, s0, 1, 5);
    }
  }

  /** What a copy tag of `src` says: where it ends, and the offset and length of the copy. */
  method CopyHeader(src: seq<Byte>, s0: nat) returns (s: nat, offset: int, length: int)
    requires s0 < |src| && src[s0] % 4 != 0
    ensures s0 < s && (s <= |src| ==> 1 <= length <= 64 && 0 <= offset < 0x1_0000_0000)
    ensures s <= |src| ==> ParseElement(src[s0..]) == Some(Parsed(Copy(offset, length), s - s0))
    ensures s > |src| ==> ParseElement(src[s0..]) == None
  {
    hide LittleEndian, ParseElement;
    CopyAt(src, s0);
    offset, length := 0, 0;
    if src[s0] % 4 == 1 {
      s := s0 + 2;
      if s > |src| { return; }
      length := 4 + src[s - 2] as int / 4 % 8;
      offset := src[s - 2] as int / 32 * 256 + src[s - 1] as int;
    } else if src[s0] % 4 == 2 {
      s := s0 + 3;
      if s > |src| { return; }
      length := 1 + src[s - 3] as int / 4;
      offset := src[s - 2] as int + src[s - 1] as int * 0x100;
      LittleEndian2(src[s0 + 1..s]);
    } else {
      s := s0 + 5;
      if s > |src| { return; }
      length := 1 + src[s - 5] as int / 4;
      offset := src[s - 4] as int + src[s - 3] as int * 0x100 + src[s - 2] as int * 0x1_0000 + src[s - 1] as int * 0x100_0000;
      LittleEndian4(src[s0 + 1..s]);
    }
  }

  /** The forward overlapping copy: `dst[d..d + length]` becomes the continuation of `dst[..d]`. */
  method ForwardCopy(dst: array<Byte>, d0: nat, offset: nat, length: nat)
    requires 1 <= offset <= d0 && d0 + length <= dst.Length
    modifies dst
    ensures dst[..d0 + length] == CopyForward(old(dst[..d0]), offset, length)
    ensures dst[d0 + length..] == old(dst[d0 + length..])
  {
    var d, end := d0, d0 + length;
    while d != end
      invariant d0 <= d <= end
      invariant dst[..d] == CopyForward(old(dst[..d0]), offset, d - d0)
      invariant dst[end..] == old(dst[end..])
    {
      ghost var before := dst[..d];
      dst[d] := dst[d - offset];
      assert dst[..d + 1] == before + [before[d - offset]];
      d := d + 1;
    }
  }

  /** The front element of `src` applies to `out`, giving `out'` and leaving `src'`. */
  ghost predicate Steps(src: seq<Byte>, out: seq<Byte>, src': seq<Byte>, out': seq<Byte>) {
    && src != [] && ParseElement(src).Some?
    && var p := ParseElement(src).value;
    && Applies(p.element, out) && out' == Apply(p.element, out) && src' == src[p.size..]
  }

  /** The front element of `src` is cut short, reaches too far back, or outgrows `n` bytes. */
  ghost predicate Stuck(src: seq<Byte>, out: seq<Byte>, n: nat) {
    && src != []
    && (ParseElement(src).Some? ==>
        var e := ParseElement(src).value.element;
        Applies(e, out) ==> |Apply(e, out)| > n)
  }

  /** A stuck input has no expansion of length `n`. */
  lemma StuckIsRejected(w: WordSize, src: seq<Byte>, out: seq<Byte>, n: nat)
    requires Stuck(src, out, n)
    ensures Expand(src, out).Some? ==> |Expand(src, out).value| > n
    ensures MeetsHugeLiteral(w, src, out, n) <==> HugeLiteral(w, src)
  {
    hide ParseElement, LiteralLength;
  }

  /** After elements that apply within `n` bytes there comes a literal whose length is no `int`. */
  predicate MeetsHugeLiteral(w: WordSize, src: seq<Byte>, out: seq<Byte>, n: nat)
    decreases |src|
  {
    && src != []
    && (HugeLiteral(w, src) ||
        (ParseElement(src).Some? &&
         var p := ParseElement(src).value;
         Applies(p.element, out) && |Apply(p.element, out)| <= n && MeetsHugeLiteral(w, src[p.size..], Apply(p.element, out), n)))
  }

  /** Only 32-bit ints are too narrow for a literal's length. */
  lemma {:induction false} HugeLiteralNeeds32Bit(w: WordSize, src: seq<Byte>, out: seq<Byte>, n: nat)
    requires MeetsHugeLiteral(w, src, out, n)
    ensures w.W32?
    decreases |src|
  {
    hide ParseElement, Apply;
    if HugeLiteral(w, src) {
      LiteralLengthBound(src);
    } else {
      var p := ParseElement(src).value;
      HugeLiteralNeeds32Bit(w, src[p.size..], Apply(p.element, out), n);
    }
  }

  lemma LiteralLengthBound(src: seq<Byte>)
    requires src != [] && src[0] % 4 == 0
    ensures LiteralLength(src).Some? ==> LiteralLength(src).value <= 0x1_0000_0000
  {
    if src[0] / 4 >= 60 && LiteralLength(src).Some? {
      LittleEndianBound(src[1..src[0] / 4 - 58]);
    }
  }

  method DecodeLiteral(w: WordSize, dst: array<Byte>, n: nat, src: seq<Byte>, s0: nat, d0: nat)
    returns (code: int, s: nat, d: nat)
    requires n <= dst.Length && n <= w.MaxInt() && |src| <= w.MaxInt()
    requires s0 < |src| && d0 <= n && src[s0] % 4 == 0
    modifies dst
    ensures dst[..d0] == old(dst[..d0]) && dst[n..] == old(dst[n..])
    ensures code == 0 ==> d0 <= d <= n && s0 < s <= |src| && Steps(src[s0..], old(dst[..d0]), src[s..], dst[..d])
    ensures code != 0 ==> Stuck(src[s0..], old(dst[..d0]), n)
    ensures code in {0, CORRUPT, UNSUPPORTED_LITERAL_LENGTH}
    ensures code == UNSUPPORTED_LITERAL_LENGTH <==> HugeLiteral(w, src[s0..])
  {
    hide ParseElement, CopyForward, LiteralLength;
    var x;
    d := d0;
    s, x := LiteralHeader(src, s0);
    if s > |src| { return CORRUPT, s, d; }
    var length := w.ToInt(x + 1);
    if length <= 0 { return UNSUPPORTED_LITERAL_LENGTH, s, d; }
    if length > n - d || length > |src| - s { return CORRUPT, s, d; }
    forall k | 0 <= k < length { dst[d + k] := src[s + k]; }
    assert dst[..d + length] == old(dst[..d0]) + src[s..s + length];
    d, s := d + length, s + length;
    assert src[s0..][s - s0..] == src[s..];
    return 0, s, d;
  }

  method DecodeCopy(w: WordSize, dst: array<Byte>, n: nat, src: seq<Byte>, s0: nat, d0: nat)
    returns (code: int, s: nat, d: nat)
    requires n <= dst.Length && n <= w.MaxInt() && |src| <= w.MaxInt()
    requires s0 < |src| && d0 <= n && src[s0] % 4 != 0
    modifies dst
    ensures dst[n..] == old(dst[n..])
    ensures code == 0 ==> d0 <= d <= n && s0 < s <= |src| && Steps(src[s0..], old(dst[..d0]), src[s..], dst[..d])
    ensures code != 0 ==> code == CORRUPT && Stuck(src[s0..], old(dst[..d0]), n)
  {
    hide ParseElement, CopyForward;
    var offset, length;
    d := d0;
    s, offset, length := CopyHeader(src, s0);
    if s > |src| { return CORRUPT, s, d; }
    offset := w.ToInt(offset);
    if offset <= 0 || d < offset || length > n - d { return CORRUPT, s, d; }
    ForwardCopy(dst, d, offset, length);
    d := d + length;
    assert dst[n..] == dst[d..][n - d..];
    assert src[s0..][s - s0..] == src[s..];
    return 0, s, d;
  }

  /** Decodes `src` into `dst[..n]`. It accepts exactly the inputs whose expansion has length `n`,
      and then `dst[..n]` is that expansion; nothing from `n` on is touched. */
  method DecodeElements(w: WordSize, dst: array<Byte>, n: nat, src: seq<Byte>) returns (code: int)
    requires n <= dst.Length && n <= w.MaxInt() && |src| <= w.MaxInt()
    modifies dst
    ensures code == 0 <==> Expand(src, []).Some? && |Expand(src, []).value| == n
    ensures code == 0 ==> Expand(src, []) == Some(dst[..n])
    ensures code in {0, CORRUPT, UNSUPPORTED_LITERAL_LENGTH}
    ensures code == UNSUPPORTED_LITERAL_LENGTH <==> MeetsHugeLiteral(w, src, [], n)
    ensures dst[n..] == old(dst[n..])
  {
    hide ParseElement, Apply, LiteralLength;
    var d, s := 0, 0;
    assert src[0..] == src && dst[..0] == [];
    while s < |src|
      invariant 0 <= d <= n && 0 <= s <= |src|
      invariant Expand(src[s..], dst[..d]) == Expand(src, [])
      invariant MeetsHugeLiteral(w, src[s..], dst[..d], n) == MeetsHugeLiteral(w, src, [], n)
      invariant dst[n..] == old(dst[n..])
      decreases |src| - s
    {
      ghost var rest, out := src[s..], dst[..d];
      var s', d';
      if src[s] % 4 == 0 {
        code, s', d' := DecodeLiteral(w, dst, n, src, s, d);
      } else {
        code, s', d' := DecodeCopy(w, dst, n, src, s, d);
      }
      if code != 0 {
        StuckIsRejected(w, rest, out, n);
        return;
      }
      s, d := s', d';
    }
    assert src[s..] == [];
    if d != n { return CORRUPT; }
    return 0;
  }
}
