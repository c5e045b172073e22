/** The encodings of elements that sections 2.1 and 2.2 of the Snappy format description list, and that
    each of them, also the ones this encoder never writes, is read back as its element. */
module SnappyTags {
  import opened Common
  import opened Bytes
  import opened SnappyFormat

  /** `x` in `k` bytes, least significant first. */
  function LeBytes(k: nat, x: nat): (b: seq<Byte>)
    ensures |b| == k
    decreases k
  {
    if k == 0 then [] else [x % 256] + LeBytes(k - 1, x / 256)
  }

  function Power256(k: nat): (n: nat)
    ensures n >= 1
  {
    if k == 0 then 1 else 256 * Power256(k - 1)
  }

  lemma {:induction false} LeBytesValue(k: nat, x: nat)
    requires x < Power256(k)
    ensures LittleEndian(LeBytes(k, x)) == x
    decreases k
  {
    if k > 0 {
      LeBytesValue(k - 1, x / 256);
      assert LeBytes(k, x)[1..] == LeBytes(k - 1, x / 256);
    }
  }

  /** A literal of up to 60 bytes in a one-byte header, or any literal whose length less one fits
      `extra` length bytes. */
  function LiteralCode(extra: nat, lit: seq<Byte>): (b: seq<Byte>)
    requires lit != [] && extra <= 4
    requires if extra == 0 then |lit| <= 60 else |lit| <= Power256(extra)
  {
    if extra == 0 then [(|lit| - 1) * 4] + lit
    else [(59 + extra) * 4] + LeBytes(extra, |lit| - 1) + lit
  }

  /** A copy with an offset of 11, 16 or 32 bits. */
  datatype Width = Copy1 | Copy2 | Copy4

  predicate Codes(width: Width, offset: nat, length: nat) {
    match width
    case Copy1 => offset < 0x800 && 4 <= length <= 11
    case Copy2 => offset < 0x1_0000 && 1 <= length <= 64
    case Copy4 => offset < 0x1_0000_0000 && 1 <= length <= 64
  }

  function CopyCode(width: Width, offset: nat, length: nat): (b: seq<Byte>)
    requires Codes(width, offset, length)
  {
    match width
    case Copy1 => [offset / 256 * 32 + (length - 4) * 4 + 1, offset % 256]
    case Copy2 => [(length - 1) * 4 + 2] + LeBytes(2, offset)
    case Copy4 => [(length - 1) * 4 + 3] + LeBytes(4, offset)
  }

  lemma Powers()
    ensures Power256(1) == 0x100 && Power256(2) == 0x1_0000 && Power256(3) == 0x100_0000 && Power256(4) == 0x1_0000_0000
  {
    assert Power256(0) == 1;
  }

  /** Every encoding of a literal is read as that literal. */
  lemma LiteralCodeReads(extra: nat, lit: seq<Byte>, rest: seq<Byte>)
    requires lit != [] && extra <= 4
    requires if extra == 0 then |lit| <= 60 else |lit| <= Power256(extra)
    ensures ParseElement(LiteralCode(extra, lit) + rest) == Some(Parsed(Literal(lit), |LiteralCode(extra, lit)|))
  {
    hide LittleEndian, LeBytes, Power256;
    var s := LiteralCode(extra, lit) + rest;
    assert s[1 + extra..1 + extra + |lit|] == lit;
    if extra == 0 {
      assert s[0] == (|lit| - 1) * 4;
      assert LiteralLength(s) == Some(|lit|);
    } else {
      LeBytesValue(extra, |lit| - 1);
      assert s[0] == (59 + extra) * 4;
      assert s[1..1 + extra] == LeBytes(extra, |lit| - 1);
      assert LiteralLength(s) == Some(|lit|);
    }
  }

  /** Every encoding of a copy is read as that copy. */
  lemma CopyCodeReads(width: Width, offset: nat, length: nat, rest: seq<Byte>)
    requires Codes(width, offset, length)
    ensures ParseElement(CopyCode(width, offset, length) + rest) ==
      Some(Parsed(Copy(offset, length), |CopyCode(width, offset, length)|))
  {
    hide LittleEndian, LeBytes, Power256, LiteralLength;
    Powers();
    var s := CopyCode(width, offset, length) + rest;
    match width {
      case Copy1 => Copy1Reads(offset, length, rest);
      case Copy2 =>
        LeBytesValue(2, offset);
        assert s[0] == (length - 1) * 4 + 2 && s[1..3] == LeBytes(2, offset);
      case Copy4 =>
        LeBytesValue(4, offset);
        assert s[0] == (length - 1) * 4 + 3 && s[1..5] == LeBytes(4, offset);
    }
  }

  lemma Copy1Reads(offset: nat, length: nat, rest: seq<Byte>)
    requires Codes(Copy1, offset, length)
    ensures ParseElement(CopyCode(Copy1, offset, length) + rest) == Some(Parsed(Copy(offset, length), 2))
  {
    hide LittleEndian, LeBytes, LiteralLength;
    var s := CopyCode(Copy1, offset, length) + rest;
    var tag := offset / 256 * 32 + (length - 4) * 4 + 1;
    assert s[0] == tag && s[1] == offset % 256;
    assert tag % 4 == 1 && tag / 4 == offset / 256 * 8 + (length - 4);
  }

  /** What stops inside an encoding is no element. */
  lemma CutShort(s: seq<Byte>, k: nat)
    requires s != [] && ParseElement(s).Some? && 0 < k < ParseElement(s).value.size
    ensures ParseElement(s[..k]) == None
  {
    hide ParseElement;
    assert s[..k] + s[k..] == s;
    if ParseElement(s[..k]).Some? {
      ParseElementExtend(s[..k], s[k..]);
    }
  }
}
