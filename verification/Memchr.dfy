/** gl/memchr.c: search for a byte, a machine word at a time. */
module Memchr {
  import opened Options
  import opened Words

  /** The machine: its byte order, and whether a longword has 8 bytes or 4. */
  datatype Machine = Machine(bigEndian: bool, wide: bool)

  /** sizeof (longword). */
  function WordSize(m: Machine): nat {
    if m.wide then 8 else 4
  }

  // ----- longwords of 8 bytes

  /** repeated_one: a 1 in every byte. */
  const REPEATED_ONE: bv64 := 0x01010101 | (0x01010101 << 31 << 1)

  /** repeated_c: `c` in every byte, built by doubling. */
  function RepeatedByte(c: Byte): bv64 {
    var two := (c as bv64) | ((c as bv64) << 8);
    var four := two | (two << 16);
    four | (four << 31 << 1)
  }

  /** The test of the word loop; non-zero stops the loop. */
  function ZeroByteTest(w: bv64): bv64 {
    ((w - REPEATED_ONE) & !w) & (REPEATED_ONE << 7)
  }

  /** The words agree in one of their eight bytes. */
  predicate ShareByte(w: bv64, r: bv64) {
    || w & 0xff == r & 0xff || w & 0xff00 == r & 0xff00
    || w & 0xff_0000 == r & 0xff_0000 || w & 0xff00_0000 == r & 0xff00_0000
    || w & 0xff_0000_0000 == r & 0xff_0000_0000 || w & 0xff00_0000_0000 == r & 0xff00_0000_0000
    || w & 0xff_0000_0000_0000 == r & 0xff_0000_0000_0000
    || w & 0xff00_0000_0000_0000 == r & 0xff00_0000_0000_0000
  }

  lemma XorMakesZero(w: bv64, r: bv64)
    ensures ShareByte(w ^ r, 0) <==> ShareByte(w, r)
  {
  }

  lemma ZeroByteFound(w: bv64)
    ensures ZeroByteTest(w) != 0 <==> ShareByte(w, 0)
  {
  }

  /** The word test stops the loop exactly when some byte of the word is the one looked for. */
  lemma WordTest(w: bv64, r: bv64)
    ensures ZeroByteTest(w ^ r) != 0 <==> ShareByte(w, r)
  {
    XorMakesZero(w, r);
    ZeroByteFound(w ^ r);
  }

  function PackBytes(b0: Byte, b1: Byte, b2: Byte, b3: Byte, b4: Byte, b5: Byte, b6: Byte, b7: Byte): bv64 {
    (b0 as bv64) | ((b1 as bv64) << 8) | ((b2 as bv64) << 16) | ((b3 as bv64) << 24) |
    ((b4 as bv64) << 32) | ((b5 as bv64) << 40) | ((b6 as bv64) << 48) | ((b7 as bv64) << 56)
  }

  /** What the eight bytes of a word are. */
  predicate BytesOf(w: bv64, b0: Byte, b1: Byte, b2: Byte, b3: Byte, b4: Byte, b5: Byte, b6: Byte, b7: Byte) {
    && w & 0xff == b0 as bv64 && w & 0xff00 == (b1 as bv64) << 8
    && w & 0xff_0000 == (b2 as bv64) << 16 && w & 0xff00_0000 == (b3 as bv64) << 24
    && w & 0xff_0000_0000 == (b4 as bv64) << 32 && w & 0xff00_0000_0000 == (b5 as bv64) << 40
    && w & 0xff_0000_0000_0000 == (b6 as bv64) << 48 && w & 0xff00_0000_0000_0000 == (b7 as bv64) << 56
  }

  lemma PackedBytes(b0: Byte, b1: Byte, b2: Byte, b3: Byte, b4: Byte, b5: Byte, b6: Byte, b7: Byte)
    ensures BytesOf(PackBytes(b0, b1, b2, b3, b4, b5, b6, b7), b0, b1, b2, b3, b4, b5, b6, b7)
  {
  }

  lemma RepeatedBytes(c: Byte)
    ensures BytesOf(RepeatedByte(c), c, c, c, c, c, c, c, c)
  {
  }

  lemma SameByteInPlace(b: Byte, c: Byte)
    ensures
      && (b as bv64 == c as bv64 <==> b == c) && ((b as bv64) << 8 == (c as bv64) << 8 <==> b == c)
      && ((b as bv64) << 16 == (c as bv64) << 16 <==> b == c) && ((b as bv64) << 24 == (c as bv64) << 24 <==> b == c)
      && ((b as bv64) << 32 == (c as bv64) << 32 <==> b == c) && ((b as bv64) << 40 == (c as bv64) << 40 <==> b == c)
      && ((b as bv64) << 48 == (c as bv64) << 48 <==> b == c) && ((b as bv64) << 56 == (c as bv64) << 56 <==> b == c)
  {
  }

  lemma SharedByteFound(w: bv64, r: bv64, b0: Byte, b1: Byte, b2: Byte, b3: Byte, b4: Byte, b5: Byte, b6: Byte, b7: Byte, c: Byte)
    requires BytesOf(w, b0, b1, b2, b3, b4, b5, b6, b7) && BytesOf(r, c, c, c, c, c, c, c, c)
    ensures ShareByte(w, r) <==>
            b0 == c || b1 == c || b2 == c || b3 == c || b4 == c || b5 == c || b6 == c || b7 == c
  {
    SameByteInPlace(b0, c);
    SameByteInPlace(b1, c);
    SameByteInPlace(b2, c);
    SameByteInPlace(b3, c);
    SameByteInPlace(b4, c);
    SameByteInPlace(b5, c);
    SameByteInPlace(b6, c);
    SameByteInPlace(b7, c);
  }

  // ----- longwords of 4 bytes

  const REPEATED_ONE_32: bv32 := 0x01010101

  function RepeatedByte32(c: Byte): bv32 {
    var two := (c as bv32) | ((c as bv32) << 8);
    two | (two << 16)
  }

  function ZeroByteTest32(w: bv32): bv32 {
    ((w - REPEATED_ONE_32) & !w) & (REPEATED_ONE_32 << 7)
  }

  function PackBytes32(b0: Byte, b1: Byte, b2: Byte, b3: Byte): bv32 {
    (b0 as bv32) | ((b1 as bv32) << 8) | ((b2 as bv32) << 16) | ((b3 as bv32) << 24)
  }

  predicate ShareByte32(w: bv32, r: bv32) {
    || w & 0xff == r & 0xff || w & 0xff00 == r & 0xff00
    || w & 0xff_0000 == r & 0xff_0000 || w & 0xff00_0000 == r & 0xff00_0000
  }

  lemma XorMakesZero32(w: bv32, r: bv32)
    ensures ShareByte32(w ^ r, 0) <==> ShareByte32(w, r)
  {
  }

  lemma ZeroByteFound32(w: bv32)
    ensures ZeroByteTest32(w) != 0 <==> ShareByte32(w, 0)
  {
  }

  predicate BytesOf32(w: bv32, b0: Byte, b1: Byte, b2: Byte, b3: Byte) {
    && w & 0xff == b0 as bv32 && w & 0xff00 == (b1 as bv32) << 8
    && w & 0xff_0000 == (b2 as bv32) << 16 && w & 0xff00_0000 == (b3 as bv32) << 24
  }

  lemma PackedBytes32(b0: Byte, b1: Byte, b2: Byte, b3: Byte)
    ensures BytesOf32(PackBytes32(b0, b1, b2, b3), b0, b1, b2, b3)
  {
  }

  lemma RepeatedBytes32(c: Byte)
    ensures BytesOf32(RepeatedByte32(c), c, c, c, c)
  {
  }

  lemma SameByteInPlace32(b: Byte, c: Byte)
    ensures
      && (b as bv32 == c as bv32 <==> b == c) && ((b as bv32) << 8 == (c as bv32) << 8 <==> b == c)
      && ((b as bv32) << 16 == (c as bv32) << 16 <==> b == c) && ((b as bv32) << 24 == (c as bv32) << 24 <==> b == c)
  {
  }

  lemma SharedByteFound32(w: bv32, r: bv32, b0: Byte, b1: Byte, b2: Byte, b3: Byte, c: Byte)
    requires BytesOf32(w, b0, b1, b2, b3) && BytesOf32(r, c, c, c, c)
    ensures ShareByte32(w, r) <==> b0 == c || b1 == c || b2 == c || b3 == c
  {
    SameByteInPlace32(b0, c);
    SameByteInPlace32(b1, c);
    SameByteInPlace32(b2, c);
    SameByteInPlace32(b3, c);
  }

  /** The word test on 4 bytes. */
  lemma WordTest32(b0: Byte, b1: Byte, b2: Byte, b3: Byte, c: Byte)
    ensures ZeroByteTest32(PackBytes32(b0, b1, b2, b3) ^ RepeatedByte32(c)) != 0
            <==> b0 == c || b1 == c || b2 == c || b3 == c
  {
    hide *;
    var w, r := PackBytes32(b0, b1, b2, b3), RepeatedByte32(c);
    XorMakesZero32(w, r);
    ZeroByteFound32(w ^ r);
    PackedBytes32(b0, b1, b2, b3);
    RepeatedBytes32(c);
    SharedByteFound32(w, r, b0, b1, b2, b3, c);
  }

  method TestBytes32(b0: Byte, b1: Byte, b2: Byte, b3: Byte, c: Byte) returns (hit: bool)
    ensures hit <==> b0 == c || b1 == c || b2 == c || b3 == c
  {
    hide *;
    WordTest32(b0, b1, b2, b3, c);
    hit := ZeroByteTest32(PackBytes32(b0, b1, b2, b3) ^ RepeatedByte32(c)) != 0;
  }

  // ----- the search

  /** Test the longword at `p`. */
  method TestWord(s: seq<Byte>, p: nat, m: Machine, c: Byte) returns (hit: bool)
    requires p + WordSize(m) <= |s|
    ensures hit <==> c in s[p..p + WordSize(m)]
  {
    var w := s[p..p + WordSize(m)];
    if m.wide {
      if m.bigEndian {
        hit := TestBytes(w[7], w[6], w[5], w[4], w[3], w[2], w[1], w[0], c);
      } else {
        hit := TestBytes(w[0], w[1], w[2], w[3], w[4], w[5], w[6], w[7], c);
      }
    } else {
      if m.bigEndian {
        hit := TestBytes32(w[3], w[2], w[1], w[0], c);
      } else {
        hit := TestBytes32(w[0], w[1], w[2], w[3], c);
      }
    }
  }

  method TestBytes(b0: Byte, b1: Byte, b2: Byte, b3: Byte, b4: Byte, b5: Byte, b6: Byte, b7: Byte, c: Byte)
    returns (hit: bool)
    ensures hit <==> b0 == c || b1 == c || b2 == c || b3 == c || b4 == c || b5 == c || b6 == c || b7 == c
  {
    hide *;
    var longword := PackBytes(b0, b1, b2, b3, b4, b5, b6, b7);
    hit := ZeroByteTest(longword ^ RepeatedByte(c)) != 0;
    WordTest(longword, RepeatedByte(c));
    PackedBytes(b0, b1, b2, b3, b4, b5, b6, b7);
    RepeatedBytes(c);
    SharedByteFound(longword, RepeatedByte(c), b0, b1, b2, b3, b4, b5, b6, b7, c);
  }

  /** The specification: `r` is the first of the first `n` bytes that equals `c`. */
  ghost predicate FirstByte(s: seq<Byte>, c: Byte, n: nat, r: Option<nat>)
    requires n <= |s|
  {
    match r
    case Some(i) => i < n && s[i] == c && c !in s[..i]
    case None => c !in s[..n]
  }

  lemma NotInExtends(s: seq<Byte>, c: Byte, a: nat, b: nat)
    requires a <= b <= |s| && c !in s[..a] && c !in s[a..b]
    ensures c !in s[..b]
  {
    assert s[..b] == s[..a] + s[a..b];
  }

  /** memchr on a buffer at any `address`, hence any alignment. */
  method FindByte(s: seq<Byte>, address: nat, m: Machine, c: Byte, n: nat) returns (r: Option<nat>)
    requires n <= |s|
    ensures FirstByte(s, c, n, r)
  {
    var p, left, word := 0, n, WordSize(m);
    while left > 0 && (address + p) % word != 0
      invariant 0 <= p <= p + left == n && c !in s[..p]
    {
      if s[p] == c {
        return Some(p);
      }
      NotInExtends(s, c, p, p + 1);
      left, p := left - 1, p + 1;
    }
    while left >= word
      invariant 0 <= p <= p + left == n && c !in s[..p]
    {
      var hit := TestWord(s, p, m, c);
      if hit {
        break;
      }
      NotInExtends(s, c, p, p + word);
      p, left := p + word, left - word;
    }
    while left > 0
      invariant 0 <= p <= p + left == n && c !in s[..p]
    {
      if s[p] == c {
        return Some(p);
      }
      NotInExtends(s, c, p, p + 1);
      left, p := left - 1, p + 1;
    }
    return None;
  }
}
