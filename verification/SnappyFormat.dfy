/** The Snappy block format as its description states it: tagged elements, and the bytes that a
    sequence of elements stands for. Encoder and decoder are both proved against these functions. */
module SnappyFormat {
  import opened Common
  import opened Bytes

  datatype Element = Literal(bytes: seq<Byte>) | Copy(offset: nat, length: nat)

  /** An element together with the number of bytes that its encoding takes. */
  datatype Parsed = Parsed(element: Element, size: nat)

  /** The number of length bytes behind the tag of a literal. */
  function LengthBytes(tag: Byte): (extra: nat) {
    if tag / 4 < 60 then 0 else tag / 4 - 59
  }

  /** The length that a literal's header announces; None when `src` ends inside the header. */
  function LiteralLength(src: seq<Byte>): (r: Option<nat>)
    requires src != []
    ensures r.Some? <==> |src| >= 1 + LengthBytes(src[0])
  {
    var m, extra := src[0] / 4, LengthBytes(src[0]);
    if |src| < 1 + extra then None else Some(1 + if m < 60 then m else LittleEndian(src[1..1 + extra]))
  }

  /** The element at the front of `src`; None when `src` ends inside it. */
  function ParseElement(src: seq<Byte>): (r: Option<Parsed>)
    requires src != []
    ensures r.Some? ==> 1 <= r.value.size <= |src|
  {
    var m := src[0] / 4;
    match src[0] % 4
    case 0 =>
      (match LiteralLength(src)
       case None => None
       case Some(n) =>
         var start := 1 + LengthBytes(src[0]);
         if |src| < start + n then None else Some(Parsed(Literal(src[start..start + n]), start + n)))
    case 1 =>
      if |src| < 2 then None else Some(Parsed(Copy(m / 8 * 256 + src[1], 4 + m % 8), 2))
    case 2 =>
      if |src| < 3 then None else Some(Parsed(Copy(LittleEndian(src[1..3]), 1 + m), 3))
    case 3 =>
      if |src| < 5 then None else Some(Parsed(Copy(LittleEndian(src[1..5]), 1 + m), 5))
  }

  /** Appends to `out`, one byte at a time, `n` bytes each read `offset` places back. */
  function CopyForward(out: seq<Byte>, offset: nat, n: nat): (r: seq<Byte>)
    requires 1 <= offset <= |out|
    ensures |r| == |out| + n && out <= r
    decreases n
  {
    if n == 0 then out else
      var o := CopyForward(out, offset, n - 1);
      o + [o[|o| - offset]]
  }

  predicate Applies(e: Element, out: seq<Byte>) {
    e.Copy? ==> 1 <= e.offset <= |out|
  }

  function Apply(e: Element, out: seq<Byte>): (r: seq<Byte>)
    requires Applies(e, out)
    ensures out <= r
  {
    match e
    case Literal(bytes) => out + bytes
    case Copy(offset, length) => CopyForward(out, offset, length)
  }

  /** The bytes produced by the elements encoded in `src` when `out` has been produced already;
      None when `src` is not a sequence of elements or a copy reaches before the start. */
  function Expand(src: seq<Byte>, out: seq<Byte>): (r: Option<seq<Byte>>)
    ensures r.Some? ==> out <= r.value
    decreases |src|
  {
    if src == [] then Some(out) else
      match ParseElement(src)
      case None => None
      case Some(p) =>
        if Applies(p.element, out) then Expand(src[p.size..], Apply(p.element, out)) else None
  }

  lemma CopyStep(out: seq<Byte>, offset: nat, n: nat)
    requires 1 <= offset <= |out| && n > 0
    ensures var o := CopyForward(out, offset, n - 1); CopyForward(out, offset, n) == o + [o[|o| - offset]]
  {}

  /** Copying `a` and then `b` bytes at one offset is copying `a + b` bytes, overlap included. */
  lemma {:induction false} CopyForwardSplit(out: seq<Byte>, offset: nat, a: nat, b: nat)
    requires 1 <= offset <= |out|
    ensures CopyForward(CopyForward(out, offset, a), offset, b) == CopyForward(out, offset, a + b)
    decreases b
  {
    hide CopyForward;
    var m := CopyForward(out, offset, a);
    if b == 0 {
      CopyNothing(m, offset);
    } else {
      var c := b - 1;
      CopyForwardSplit(out, offset, a, c);
      CopyStep(out, offset, a + c + 1);
      CopyStep(m, offset, c + 1);
    }
  }

  lemma CopyNothing(out: seq<Byte>, offset: nat)
    requires 1 <= offset <= |out|
    ensures CopyForward(out, offset, 0) == out
  {}

  lemma MatchShrinks(src: seq<Byte>, candidate: nat, base: nat, n: nat)
    requires n > 0 && candidate < base && base + n <= |src|
    requires src[candidate..candidate + n] == src[base..base + n]
    ensures src[candidate..candidate + (n - 1)] == src[base..base + (n - 1)]
    ensures src[candidate + (n - 1)] == src[base + (n - 1)]
  {
    SliceOfSlice(src, candidate, candidate + n, 0, n - 1);
    SliceOfSlice(src, base, base + n, 0, n - 1);
    var a, b := src[candidate..candidate + n], src[base..base + n];
    assert a[n - 1] == src[candidate + (n - 1)] && b[n - 1] == src[base + (n - 1)];
  }

  lemma BackReference(pre: seq<Byte>, src: seq<Byte>, m: nat, x: nat)
    requires x < m <= |src|
    ensures (pre + src[..m])[|pre| + x] == src[x]
  {}

  lemma OneMore(pre: seq<Byte>, src: seq<Byte>, m: nat)
    requires m < |src|
    ensures (pre + src[..m]) + [src[m]] == pre + src[..m + 1]
  {
    assert src[..m] + [src[m]] == src[..m + 1];
  }

  /** A copy reproduces exactly the source bytes that match, also when the match overlaps itself. */
  lemma {:induction false} CopyOfMatch(pre: seq<Byte>, src: seq<Byte>, candidate: nat, base: nat, n: nat)
    requires candidate < base && base + n <= |src|
    requires src[candidate..candidate + n] == src[base..base + n]
    ensures CopyForward(pre + src[..base], base - candidate, n) == pre + src[..base + n]
    decreases n
  {
    hide CopyForward;
    if n == 0 {
      CopyNothing(pre + src[..base], base - candidate);
    } else {
      MatchShrinks(src, candidate, base, n);
      CopyOfMatch(pre, src, candidate, base, n - 1);
      var m, offset := base + (n - 1), base - candidate;
      var o := pre + src[..m];
      BackReference(pre, src, m, candidate + (n - 1));
      OneMore(pre, src, m);
      assert |o| - offset == |pre| + (candidate + (n - 1));
      CopyStep(pre + src[..base], offset, n);
    }
  }

  lemma ParseElementExtend(a: seq<Byte>, b: seq<Byte>)
    requires a != [] && ParseElement(a).Some?
    ensures ParseElement(a + b) == ParseElement(a)
  {
    var p := ParseElement(a).value;
    var s := a + b;
    forall i, j | 0 <= i <= j <= |a| ensures s[i..j] == a[i..j] {}
  }

  /** Meanings compose: what `a` makes of `out`, `b` continues. */
  lemma {:induction false} ExpandAppend(a: seq<Byte>, b: seq<Byte>, out: seq<Byte>)
    requires Expand(a, out).Some?
    ensures Expand(a + b, out) == Expand(b, Expand(a, out).value)
    decreases |a|
  {
    hide ParseElement, Apply;
    if a == [] {
      assert a + b == b;
    } else {
      ParseElementExtend(a, b);
      var p := ParseElement(a).value;
      assert (a + b)[p.size..] == a[p.size..] + b;
      ExpandAppend(a[p.size..], b, Apply(p.element, out));
    }
  }

  /** One element alone means what applying it means. */
  lemma ExpandOne(src: seq<Byte>, out: seq<Byte>)
    requires src != [] && ParseElement(src).Some? && ParseElement(src).value.size == |src|
    requires Applies(ParseElement(src).value.element, out)
    ensures Expand(src, out) == Some(Apply(ParseElement(src).value.element, out))
  {
    assert src[|src|..] == [];
  }
}
