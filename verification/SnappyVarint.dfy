/** The length header of a block for every way of writing a number in base 128, also with more digits
    than it needs. */
module SnappyVarint {
  import opened Common
  import opened Bytes
  import opened SnappyBlock

  type Digit = x: int | 0 <= x < 0x80

  /** Digits as bytes: all but the last are marked with 128. */
  function Marked(ds: seq<Digit>): (b: seq<Byte>)
    ensures |b| == |ds|
  {
    if ds == [] then [] else if |ds| == 1 then [ds[0]] else [ds[0] as int + 0x80] + Marked(ds[1..])
  }

  /** The number with these digits, least significant first. */
  function Value(ds: seq<Digit>): (n: nat) {
    if ds == [] then 0 else ds[0] as int + 0x80 * Value(ds[1..])
  }

  lemma {:induction false} MarkedReads(ds: seq<Digit>, rest: seq<Byte>)
    requires ds != []
    ensures ReadLeb128(Marked(ds) + rest) == Some(Varint(Value(ds), |ds|))
    decreases |ds|
  {
    hide ReadLeb128;
    var b := Marked(ds) + rest;
    ReadStep(b);
    if |ds| > 1 {
      MarkedReads(ds[1..], rest);
      assert b[1..] == Marked(ds[1..]) + rest;
    } else {
      assert ds[1..] == [];
    }
  }

  lemma ReadStep(b: seq<Byte>)
    requires b != []
    ensures b[0] < 0x80 ==> ReadLeb128(b) == Some(Varint(b[0], 1))
    ensures b[0] >= 0x80 && ReadLeb128(b[1..]).Some? ==>
      ReadLeb128(b) == Some(Varint(b[0] - 0x80 + 0x80 * ReadLeb128(b[1..]).value.value, 1 + ReadLeb128(b[1..]).value.size))
  {}

  function Power128(k: nat): (n: nat)
    ensures n >= 1
  {
    if k == 0 then 1 else 0x80 * Power128(k - 1)
  }

  lemma {:induction false} TopDigit(ds: seq<Digit>)
    requires ds != [] && ds[|ds| - 1] >= 1
    ensures Value(ds) >= Power128(|ds| - 1)
    decreases |ds|
  {
    if |ds| > 1 {
      TopDigit(ds[1..]);
    }
  }

  lemma TenDigits()
    ensures Power128(9) > 0xffff_ffff
  {
    assert Power128(3) == 0x20_0000;
    assert Power128(6) == 0x20_0000 * 0x20_0000;
  }

  lemma {:induction false} LastMarked(ds: seq<Digit>)
    requires ds != []
    ensures Marked(ds)[|ds| - 1] == ds[|ds| - 1]
    decreases |ds|
  {
    if |ds| > 1 {
      LastMarked(ds[1..]);
    }
  }

  /** A header of up to ten digits is accepted if and only if its number fits 32 bits and an int, with
      the two errors that tell the cases apart. */
  lemma HeaderReads(w: WordSize, ds: seq<Digit>, rest: seq<Byte>)
    requires ds != []
    ensures DecodedLen(w, Marked(ds) + rest) ==
      if |ds| > 10 || Value(ds) > 0xffff_ffff then Err(ErrCorrupt)
      else if w.W32? && Value(ds) > 0x7fff_ffff then Err(ErrTooLarge)
      else Ok(Varint(Value(ds), |ds|))
  {
    hide ReadLeb128, Marked, Value, Power128;
    MarkedReads(ds, rest);
    if |ds| == 10 {
      LastMarked(ds);
      TenDigits();
      if ds[9] >= 1 {
        TopDigit(ds);
      }
    }
  }

  /** A header that does not end is corrupt. */
  lemma {:induction false} EndlessHeader(w: WordSize, src: seq<Byte>)
    requires forall i :: 0 <= i < |src| ==> src[i] >= 0x80
    ensures ReadLeb128(src) == None && DecodedLen(w, src) == Err(ErrCorrupt)
    decreases |src|
  {
    if src != [] {
      EndlessHeader(w, src[1..]);
    }
  }
}
