/** `encodeBlock` of golang/snappy/encode_other.go: the LZ77 matcher with its lossy hash table. The
    hash is a parameter, so everything below holds for every hash function. */
module SnappyEncodeBlock {
  import opened Common
  import opened Bytes
  import opened SnappyFormat
  import opened SnappyEmit

  const MAX_BLOCK_SIZE := 0x1_0000
  const INPUT_MARGIN := 16 - 1
  const MIN_NON_LITERAL_BLOCK_SIZE := 1 + 1 + INPUT_MARGIN
  const MAX_TABLE_SIZE := 0x4000

  type Uint16 = x: int | 0 <= x < 0x1_0000

  /** The hash of a 32-bit word under a shift. */
  type Hash = (Uint32, nat) -> nat

  function Load32(b: seq<Byte>, i: nat): (u: Uint32)
    requires i + 4 <= |b|
  {
    b[i] as int + b[i + 1] as int * 0x100 + b[i + 2] as int * 0x1_0000 + b[i + 3] as int * 0x100_0000
  }

  function Load64(b: seq<Byte>, i: nat): (u: nat)
    requires i + 8 <= |b|
  {
    Load32(b, i) as int + Load32(b, i + 4) as int * 0x1_0000_0000
  }

  /** Equal words are equal bytes. */
  lemma Load32Injective(b: seq<Byte>, i: nat, j: nat)
    requires i + 4 <= |b| && j + 4 <= |b| && Load32(b, i) == Load32(b, j)
    ensures b[i..i + 4] == b[j..j + 4]
  {
    Load32Digits(b, i);
    Load32Digits(b, j);
  }

  lemma Load32Digits(b: seq<Byte>, i: nat)
    requires i + 4 <= |b|
    ensures var u := Load32(b, i);
      b[i..i + 4] == [u % 0x100, u / 0x100 % 0x100, u / 0x1_0000 % 0x100, u / 0x100_0000]
  {
    var u := Load32(b, i);
    assert u / 0x100 == b[i + 1] as int + b[i + 2] as int * 0x100 + b[i + 3] as int * 0x1_0000;
    assert u / 0x1_0000 == b[i + 2] as int + b[i + 3] as int * 0x100;
    assert u / 0x100_0000 == b[i + 3];
  }

  /** The three words that the match loop takes out of one 64-bit load. */
  lemma Load64Shifts(b: seq<Byte>, i: nat)
    requires i + 8 <= |b|
    ensures Load64(b, i) % 0x1_0000_0000 == Load32(b, i)
    ensures Load64(b, i) / 0x100 % 0x1_0000_0000 == Load32(b, i + 1)
    ensures Load64(b, i) / 0x1_0000 % 0x1_0000_0000 == Load32(b, i + 2)
  {
    var high1 := b[i + 5] as int + b[i + 6] as int * 0x100 + b[i + 7] as int * 0x1_0000;
    var low2, high2 := b[i] as int + b[i + 1] as int * 0x100, b[i + 6] as int + b[i + 7] as int * 0x100;
    assert Load64(b, i) == b[i] as int + 0x100 * Load32(b, i + 1) as int + 0x100_0000_0000 * high1;
    assert Load64(b, i) == low2 + 0x1_0000 * Load32(b, i + 2) as int + 0x1_0000_0000_0000 * high2;
    assert Load64(b, i) == Load32(b, i) as int + 0x1_0000_0000 * Load32(b, i + 4) as int;
    hide Load32, Load64;
    LowWord(Load32(b, i), Load32(b, i + 4));
    WordAbove(b[i] as int, Load32(b, i + 1), high1);
    WordAbove2(low2, Load32(b, i + 2), high2);
  }

  lemma LowWord(u: Uint32, high: nat)
    ensures (u as int + 0x1_0000_0000 * high) % 0x1_0000_0000 == u
  {}

  lemma WordAbove(low: nat, u: Uint32, high: nat)
    requires low < 0x100
    ensures (low + 0x100 * u as int + 0x100_0000_0000 * high) / 0x100 % 0x1_0000_0000 == u
  {
    assert (low + 0x100 * u as int + 0x100_0000_0000 * high) / 0x100 == u as int + 0x1_0000_0000 * high;
  }

  lemma WordAbove2(low: nat, u: Uint32, high: nat)
    requires low < 0x1_0000
    ensures (low + 0x1_0000 * u as int + 0x1_0000_0000_0000 * high) / 0x1_0000 % 0x1_0000_0000 == u
  {
    assert (low + 0x1_0000 * u as int + 0x1_0000_0000_0000 * high) / 0x1_0000 == u as int + 0x1_0000_0000 * high;
  }

  predicate IsBlock(src: seq<Byte>) {
    MIN_NON_LITERAL_BLOCK_SIZE <= |src| <= MAX_BLOCK_SIZE
  }

  /** Every table entry is a position before `s`. */
  ghost predicate TableBelow(table: array<Uint16>, s: nat)
    reads table
  {
    table.Length == MAX_TABLE_SIZE && forall i :: 0 <= i < table.Length ==> table[i] < s
  }

  /** `nextHash` is the hash of the word at `s`. */
  ghost predicate HashAt(hash: Hash, shift: nat, src: seq<Byte>, s: nat, nextHash: nat) {
    s + 4 <= |src| && nextHash == hash(Load32(src, s), shift)
  }

  /** A match of four bytes at `s`. */
  ghost predicate MatchAt(src: seq<Byte>, candidate: nat, s: nat) {
    candidate < s && s + 4 <= |src| && src[candidate..candidate + 4] == src[s..s + 4]
  }

  /** `bytes` decodes, after `pre`, to the first `n` bytes of the block. */
  ghost predicate Emitted(bytes: seq<Byte>, pre: seq<Byte>, src: seq<Byte>, n: nat) {
    n <= |src| && Expand(bytes, pre) == Some(pre + src[..n])
  }

  lemma EmittedAppend(a: seq<Byte>, b: seq<Byte>, pre: seq<Byte>, src: seq<Byte>, m: nat, n: nat)
    requires Emitted(a, pre, src, m) && n <= |src|
    requires Expand(b, pre + src[..m]) == Some(pre + src[..n])
    ensures Emitted(a + b, pre, src, n)
  {
    ExpandAppend(a, b, pre);
  }

  /** Scans forward from `s0`, ever faster, for a position whose word occurred before. */
  method FindMatch(hash: Hash, shift: nat, src: seq<Byte>, table: array<Uint16>, s0: nat, nextHash0: nat)
    returns (found: bool, s: nat, candidate: nat)
    requires IsBlock(src) && 1 <= s0 && TableBelow(table, s0) && HashAt(hash, shift, src, s0, nextHash0)
    modifies table
    ensures s0 <= s
    ensures found ==> s < |src| - INPUT_MARGIN && MatchAt(src, candidate, s) && TableBelow(table, s + 1)
    ensures found ==> table[hash(Load32(src, s), shift) % MAX_TABLE_SIZE] == s
    ensures !found ==> s + (32 + s - s0) / 32 > |src| - INPUT_MARGIN
    ensures var entry := old(table[nextHash0 % MAX_TABLE_SIZE]);
      s0 < |src| - INPUT_MARGIN && Load32(src, s0) == Load32(src, entry) ==> found && s == s0 && candidate == entry
  {
    hide Load32;
    var sLimit := |src| - INPUT_MARGIN;
    var skip, nextS: nat, nextHash: nat := 32, s0, nextHash0;
    s, candidate := s0, 0;
    while true
      invariant s0 <= s <= nextS && skip == 32 + (nextS - s0)
      invariant nextS == s0 ==> nextHash == nextHash0 && table[..] == old(table[..])
      invariant nextS > s0 && s0 < sLimit ==> Load32(src, s0) != Load32(src, old(table[nextHash0 % MAX_TABLE_SIZE]))
      invariant TableBelow(table, nextS) && HashAt(hash, shift, src, nextS, nextHash)
      decreases |src| - nextS
    {
      s := nextS;
      var bytesBetweenHashLookups := skip / 32;
      nextS := s + bytesBetweenHashLookups;
      skip := skip + bytesBetweenHashLookups;
      if nextS > sLimit { return false, s, candidate; }
      candidate := table[nextHash % MAX_TABLE_SIZE];
      table[nextHash % MAX_TABLE_SIZE] := s;
      nextHash := hash(Load32(src, nextS), shift);
      if Load32(src, s) == Load32(src, candidate) {
        Load32Injective(src, s, candidate);
        return true, s, candidate;
      }
    }
  }

  /** The end of the longest stretch from `j` on that repeats the one from `i` on. */
  method ExtendMatch(src: seq<Byte>, i0: nat, j0: nat) returns (j: nat)
    requires i0 < j0 <= |src|
    ensures j0 <= j <= |src| && src[i0..i0 + (j - j0)] == src[j0..j]
    ensures j < |src| ==> src[i0 + (j - j0)] != src[j]
  {
    var i := i0;
    j := j0;
    while j < |src| && src[i] == src[j]
      invariant j0 <= j <= |src| && i - i0 == j - j0
      invariant src[i0..i] == src[j0..j]
    {
      assert src[i0..i + 1] == src[i0..i] + [src[i]] && src[j0..j + 1] == src[j0..j] + [src[j]];
      i, j := i + 1, j + 1;
    }
  }

  /** Space for a whole block: one spare byte in 65, and three for the last literal. */
  ghost predicate HasRoom(capacity: int, n: nat) {
    65 * capacity >= 66 * n + 195
  }

  lemma MatchExtends(src: seq<Byte>, candidate: nat, base: nat, s: nat)
    requires MatchAt(src, candidate, base) && base + 4 <= s <= |src|
    requires src[candidate + 4..candidate + 4 + (s - (base + 4))] == src[base + 4..s]
    ensures src[candidate..candidate + (s - base)] == src[base..base + (s - base)]
  {
    var n := s - base;
    assert src[candidate..candidate + n] == src[candidate..candidate + 4] + src[candidate + 4..candidate + n];
    assert src[base..s] == src[base..base + 4] + src[base + 4..s];
  }

  /** Extends the match at `base` and emits it as a copy. */
  method EmitMatch(src: seq<Byte>, dst: array<Byte>, d0: nat, d: nat, candidate: nat, base: nat, ghost pre: seq<Byte>)
    returns (d': nat, s: nat)
    requires IsBlock(src) && MatchAt(src, candidate, base)
    requires d0 <= d <= dst.Length && HasRoom(dst.Length - d0, |src|) && 65 * (d - d0) <= 66 * base + 69
    requires Emitted(dst[d0..d], pre, src, base)
    modifies dst
    ensures base + 4 <= s <= |src| && d < d' <= dst.Length
    ensures Emitted(dst[d0..d'], pre, src, s) && 65 * (d' - d0) <= 66 * s
    ensures dst[..d0] == old(dst[..d0])
  {
    hide Expand, CopyForward, ParseElement, CopySize;
    s := ExtendMatch(src, candidate + 4, base + 4);
    ghost var out, before := pre + src[..base], dst[d0..d];
    MatchExtends(src, candidate, base, s);
    CopyOfMatch(pre, src, candidate, base, s - base);
    var i := EmitCopy(dst, d, base - candidate, s - base, out);
    d' := d + i;
    assert dst[d0..d] == dst[..d][d0..] == before;
    assert dst[..d0] == dst[..d][..d0];
    assert dst[d0..d'] == before + dst[d..d'];
    EmittedAppend(before, dst[d..d'], pre, src, base, s);
  }

  /** Enters `s - 1` and `s` into the table and looks for a match at `s`; all three hashes come out
      of one 64-bit load. */
  method Reindex(hash: Hash, shift: nat, src: seq<Byte>, table: array<Uint16>, s: nat)
    returns (matched: bool, candidate: nat, nextHash: nat)
    requires IsBlock(src) && 1 <= s < |src| - INPUT_MARGIN && TableBelow(table, s)
    modifies table
    ensures TableBelow(table, s + 1)
    ensures matched ==> MatchAt(src, candidate, s)
    ensures !matched ==> HashAt(hash, shift, src, s + 1, nextHash)
    ensures var previous, current := hash(Load32(src, s - 1), shift) % MAX_TABLE_SIZE, hash(Load32(src, s), shift) % MAX_TABLE_SIZE;
      && candidate == (if current == previous then s - 1 else old(table[current]))
      && (matched <==> Load32(src, s) == Load32(src, candidate))
      && table[current] == s && (current != previous ==> table[previous] == s - 1)
  {
    hide Load32, Load64;
    var x := Load64(src, s - 1);
    Load64Shifts(src, s - 1);
    var prevHash := hash(x % 0x1_0000_0000, shift);
    table[prevHash % MAX_TABLE_SIZE] := s - 1;
    var currHash := hash(x / 0x100 % 0x1_0000_0000, shift);
    candidate := table[currHash % MAX_TABLE_SIZE];
    table[currHash % MAX_TABLE_SIZE] := s;
    nextHash := 0;
    matched := x / 0x100 % 0x1_0000_0000 == Load32(src, candidate);
    if !matched {
      nextHash := hash(x / 0x1_0000 % 0x1_0000_0000, shift);
      return;
    }
    Load32Injective(src, candidate, s);
  }

  /** Emits copies for as long as each match is directly followed by another. */
  method EmitMatches(hash: Hash, shift: nat, src: seq<Byte>, table: array<Uint16>, dst: array<Byte>,
                     d0: nat, dIn: nat, sIn: nat, candidateIn: nat, ghost pre: seq<Byte>)
    returns (d: nat, nextEmit: nat, nextHash: nat, exhausted: bool)
    requires IsBlock(src) && 1 <= sIn && MatchAt(src, candidateIn, sIn) && TableBelow(table, sIn + 1)
    requires d0 <= dIn <= dst.Length && HasRoom(dst.Length - d0, |src|) && 65 * (dIn - d0) <= 66 * sIn + 69
    requires Emitted(dst[d0..dIn], pre, src, sIn)
    modifies table, dst
    ensures sIn < nextEmit && d0 <= d <= dst.Length
    ensures Emitted(dst[d0..d], pre, src, nextEmit) && 65 * (d - d0) <= 66 * nextEmit
    ensures !exhausted ==>
      && nextEmit < |src| - INPUT_MARGIN
      && TableBelow(table, nextEmit + 1) && HashAt(hash, shift, src, nextEmit + 1, nextHash)
    ensures dst[..d0] == old(dst[..d0])
  {
    hide Emitted, Load32;
    var s: nat, candidate: nat := sIn, candidateIn;
    d, nextEmit, nextHash := dIn, sIn, 0;
    while true
      invariant sIn <= s && MatchAt(src, candidate, s) && TableBelow(table, s + 1)
      invariant d0 <= d <= dst.Length && 65 * (d - d0) <= 66 * s + 69
      invariant Emitted(dst[d0..d], pre, src, s)
      invariant dst[..d0] == old(dst[..d0])
      decreases |src| - s
    {
      d, s := EmitMatch(src, dst, d0, d, candidate, s, pre);
      nextEmit := s;
      if s >= |src| - INPUT_MARGIN { return d, nextEmit, nextHash, true; }
      var matched;
      matched, candidate, nextHash := Reindex(hash, shift, src, table, s);
      if !matched { return d, nextEmit, nextHash, false; }
    }
  }

  /** Emits `src[from..to]` as a literal after what is already there. */
  method EmitUnmatched(src: seq<Byte>, dst: array<Byte>, d0: nat, d: nat, from: nat, to: nat, ghost pre: seq<Byte>)
    returns (d': nat)
    requires IsBlock(src) && from < to <= |src|
    requires d0 <= d && d + LiteralOverhead(to - from) + (to - from) <= dst.Length
    requires Emitted(dst[d0..d], pre, src, from)
    modifies dst
    ensures d' == d + LiteralOverhead(to - from) + (to - from)
    ensures Emitted(dst[d0..d'], pre, src, to)
    ensures dst[..d0] == old(dst[..d0])
  {
    hide Expand;
    ghost var before, out := dst[d0..d], pre + src[..from];
    var i := EmitLiteral(dst, d, src[from..to], out);
    d' := d + i;
    assert out + src[from..to] == pre + src[..to];
    assert dst[d0..d] == dst[..d][d0..] == before;
    assert dst[..d0] == dst[..d][..d0];
    assert dst[d0..d'] == before + dst[d..d'];
    EmittedAppend(before, dst[d..d'], pre, src, from, to);
  }

  function Pow2(n: nat): (p: nat) {
    if n == 0 then 1 else 2 * Pow2(n - 1)
  }

  /** The shift that reduces a 32-bit hash to the range of a table fit for `n` bytes. */
  method TableShift(n: nat) returns (shift: nat)
    ensures 18 <= shift <= 24
    ensures shift > 18 ==> n * Pow2(shift - 18) <= MAX_TABLE_SIZE
  {
    var tableSize := 0x100;
    shift := 32 - 8;
    assert Pow2(6) == 8 * Pow2(3) && Pow2(3) == 8;
    while tableSize < MAX_TABLE_SIZE && tableSize < n
      invariant 18 <= shift <= 24
      invariant tableSize * Pow2(shift - 18) == MAX_TABLE_SIZE
    {
      shift, tableSize := shift - 1, tableSize * 2;
    }
    if shift > 18 {
      assert Pow2(shift - 18) >= 2;
      assert tableSize < MAX_TABLE_SIZE;
      assert n * Pow2(shift - 18) <= tableSize * Pow2(shift - 18);
    }
  }

  /** The main loop: literals and copies, up to the first position `nextEmit` not yet covered. */
  method EncodeMatches(hash: Hash, shift: nat, src: seq<Byte>, table: array<Uint16>, dst: array<Byte>, d0: nat, ghost pre: seq<Byte>)
    returns (d: nat, nextEmit: nat)
    requires IsBlock(src) && TableBelow(table, 1)
    requires d0 <= dst.Length && HasRoom(dst.Length - d0, |src|)
    modifies table, dst
    ensures d0 <= d <= dst.Length && nextEmit <= |src| && 65 * (d - d0) <= 66 * nextEmit
    ensures Emitted(dst[d0..d], pre, src, nextEmit)
    ensures dst[..d0] == old(dst[..d0])
  {
    hide Emitted, Load32, LiteralOverhead;
    var s := 1;
    d, nextEmit := d0, 0;
    var nextHash := hash(Load32(src, s), shift);
    NothingEmitted(dst[d0..d], pre, src);
    while true
      invariant nextEmit < s && TableBelow(table, s) && HashAt(hash, shift, src, s, nextHash)
      invariant d0 <= d <= dst.Length && 65 * (d - d0) <= 66 * nextEmit
      invariant Emitted(dst[d0..d], pre, src, nextEmit)
      invariant dst[..d0] == old(dst[..d0])
      decreases |src| - s
    {
      var found, s', candidate := FindMatch(hash, shift, src, table, s, nextHash);
      if !found { return; }
      s := s';
      LiteralCost(s - nextEmit);
      d := EmitUnmatched(src, dst, d0, d, nextEmit, s, pre);
      var exhausted;
      d, nextEmit, nextHash, exhausted := EmitMatches(hash, shift, src, table, dst, d0, d, s, candidate, pre);
      if exhausted {
        EmittedBound(dst[d0..d], pre, src, nextEmit);
        return;
      }
      s := nextEmit + 1;
    }
  }

  /** A literal before a copy costs at most one byte in 65 once the copy is counted. */
  lemma LiteralCost(n: nat)
    requires n >= 1
    ensures 65 * LiteralOverhead(n) <= n + 69 && LiteralOverhead(n) <= 3
  {}

  /** Encodes a block at `dst[d0..d]`: after any `pre`, it decodes to `pre + src`, and it is at most
      one byte in 65, and three bytes, longer than `src`. */
  method EncodeBlock(hash: Hash, dst: array<Byte>, d0: nat, src: seq<Byte>, ghost pre: seq<Byte>) returns (d: nat)
    requires IsBlock(src) && d0 <= dst.Length && HasRoom(dst.Length - d0, |src|)
    modifies dst
    ensures d0 <= d <= dst.Length
    ensures Expand(dst[d0..d], pre) == Some(pre + src)
    ensures 65 * (d - d0) <= 66 * |src| + 195
    ensures dst[..d0] == old(dst[..d0])
  {
    hide Expand, Emitted;
    var shift := TableShift(|src|);
    var table: array<Uint16> := new Uint16[MAX_TABLE_SIZE](_ => 0);
    var nextEmit;
    d, nextEmit := EncodeMatches(hash, shift, src, table, dst, d0, pre);
    if nextEmit < |src| {
      d := EmitUnmatched(src, dst, d0, d, nextEmit, |src|, pre);
    }
    AllEmitted(dst[d0..d], pre, src);
  }

  lemma NothingEmitted(bytes: seq<Byte>, pre: seq<Byte>, src: seq<Byte>)
    requires bytes == []
    ensures Emitted(bytes, pre, src, 0)
  {
    assert pre + src[..0] == pre;
  }

  lemma EmittedBound(bytes: seq<Byte>, pre: seq<Byte>, src: seq<Byte>, n: nat)
    requires Emitted(bytes, pre, src, n)
    ensures n <= |src|
  {}

  lemma AllEmitted(bytes: seq<Byte>, pre: seq<Byte>, src: seq<Byte>)
    requires Emitted(bytes, pre, src, |src|)
    ensures Expand(bytes, pre) == Some(pre + src)
  {
    assert src[..|src|] == src;
  }
}
