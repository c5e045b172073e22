/** The machine-level vocabulary shared by the Snappy modules: bytes, 32-bit words and the
    width of the platform's `int`. */
module Bytes {
  type Byte = x: int | 0 <= x < 256
  type Uint32 = x: int | 0 <= x < 0x1_0000_0000

  /** The width of Go's `int`; slices are never longer than `MaxInt`. */
  datatype WordSize = W32 | W64 {
    function MaxInt(): (m: int)
      ensures m >= 0x7fff_ffff
    {
      if W32? then 0x7fff_ffff else 0x7fff_ffff_ffff_ffff
    }

    /** Conversion of an unsigned value to `int`, wrapping round in two's complement. */
    function ToInt(x: nat): (i: int)
      ensures x <= MaxInt() ==> i == x
      ensures i <= MaxInt()
      ensures MaxInt() < x <= 0x1_0000_0000 ==> i <= 0
    {
      var modulus := 2 * (MaxInt() + 1);
      if x % modulus <= MaxInt() then x % modulus else x % modulus - modulus
    }
  }

  /** The unsigned integer denoted by `b`, least significant byte first. */
  function LittleEndian(b: seq<Byte>): (n: nat) {
    if b == [] then 0 else b[0] + 256 * LittleEndian(b[1..])
  }

  lemma LittleEndian1(b: seq<Byte>)
    requires |b| == 1
    ensures LittleEndian(b) == b[0] as int
  {
    assert LittleEndian(b[1..]) == 0;
  }

  lemma LittleEndian2(b: seq<Byte>)
    requires |b| == 2
    ensures LittleEndian(b) == b[0] as int + 256 * b[1] as int
  {
    LittleEndian1(b[1..]);
  }

  lemma LittleEndian3(b: seq<Byte>)
    requires |b| == 3
    ensures LittleEndian(b) == b[0] as int + 256 * b[1] as int + 0x1_0000 * b[2] as int
  {
    LittleEndian2(b[1..]);
  }

  lemma LittleEndian4(b: seq<Byte>)
    requires |b| == 4
    ensures LittleEndian(b) == b[0] as int + 256 * b[1] as int + 0x1_0000 * b[2] as int + 0x100_0000 * b[3] as int
    ensures LittleEndian(b) < 0x1_0000_0000
  {
    LittleEndian3(b[1..]);
  }

  /** What at most four bytes denote fits 32 bits. */
  lemma LittleEndianBound(b: seq<Byte>)
    requires 1 <= |b| <= 4
    ensures LittleEndian(b) < 0x1_0000_0000
  {
    match |b|
    case 1 => LittleEndian1(b);
    case 2 => LittleEndian2(b);
    case 3 => LittleEndian3(b);
    case _ => LittleEndian4(b);
  }

  /** The little-endian bytes of a 24-bit and of a 32-bit number. */
  function Bytes24(x: nat): (b: seq<Byte>)
    requires x < 0x100_0000
    ensures |b| == 3
  {
    [x % 0x100, x / 0x100 % 0x100, x / 0x1_0000]
  }

  function Bytes32(x: Uint32): (b: seq<Byte>)
    ensures |b| == 4
  {
    [x % 0x100, x / 0x100 % 0x100, x / 0x1_0000 % 0x100, x / 0x100_0000]
  }

  lemma Bytes24Value(x: nat)
    requires x < 0x100_0000
    ensures LittleEndian(Bytes24(x)) == x
  {
    hide LittleEndian;
    LittleEndian3(Bytes24(x));
    Digits(x);
    Digits(x / 0x100);
  }

  lemma Bytes32Value(x: Uint32)
    ensures LittleEndian(Bytes32(x)) == x
  {
    hide LittleEndian;
    LittleEndian4(Bytes32(x));
    Digits(x);
    Digits(x / 0x100);
    Digits(x / 0x1_0000);
  }

  lemma Digits(x: nat)
    ensures x == x % 0x100 + 0x100 * (x / 0x100)
    ensures x / 0x100 / 0x100 == x / 0x1_0000 && x / 0x1_0000 / 0x100 == x / 0x100_0000
  {}
}
