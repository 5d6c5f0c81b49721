/** Bit strings, and the shifts and masks by which src/lzs.c packs them into bytes. */
module LzsBits {
  import opened Words

  /** x << n, without a word size. */
  function Shl(x: nat, n: nat): nat {
    if n == 0 then x else 2 * Shl(x, n - 1)
  }

  /** x >> n */
  function Shr(x: nat, n: nat): nat {
    if n == 0 then x else Shr(x / 2, n - 1)
  }

  /** x & ((1 << n) - 1); what an n-bit variable keeps of `x`. */
  function Mask(x: nat, n: nat): nat {
    if n == 0 then 0 else 2 * Mask(x / 2, n - 1) + x % 2
  }

  /** The low `n` bits of `x`, most significant first. */
  function Bits(x: nat, n: nat): (b: seq<bool>)
    ensures |b| == n
  {
    if n == 0 then [] else Bits(x / 2, n - 1) + [x % 2 == 1]
  }

  /** The number written in the `n` bits from `p` on. */
  function Value(b: seq<bool>, p: nat, n: nat): nat
    requires p + n <= |b|
  {
    if n == 0 then 0 else 2 * Value(b, p, n - 1) + (if b[p + n - 1] then 1 else 0)
  }

  /** The bits of a byte string. */
  function Unpack(s: seq<Letter>): (b: seq<bool>)
    ensures |b| == 8 * |s|
  {
    if |s| == 0 then [] else Unpack(s[..|s| - 1]) + Bits(s[|s| - 1], 8)
  }

  lemma {:induction false} ShlBound(x: nat, n: nat, v: nat, k: nat)
    requires x < Shl(1, k) && v < Shl(1, n)
    ensures Shl(x, n) + v < Shl(1, k + n)
    decreases n
  {
    if n > 0 {
      ShlBound(x, n - 1, v / 2, k);
    }
  }

  lemma {:induction false} ShrBound(x: nat, n: nat, k: nat)
    requires x < Shl(1, k + n)
    ensures Shr(x, n) < Shl(1, k)
    decreases n
  {
    if n > 0 {
      ShrBound(x / 2, n - 1, k);
    }
  }

  lemma {:induction false} MaskBound(x: nat, n: nat)
    ensures Mask(x, n) < Shl(1, n)
    decreases n
  {
    if n > 0 {
      MaskBound(x / 2, n - 1);
    }
  }

  /** Shr and Mask are the quotient and the remainder by the power of two. */
  lemma {:induction false} ShiftsDivide(x: nat, n: nat)
    ensures x == Shl(Shr(x, n), n) + Mask(x, n) && Mask(x, n) < Shl(1, n)
    decreases n
  {
    if n > 0 {
      ShiftsDivide(x / 2, n - 1);
    }
  }

  lemma ByteBound()
    ensures Shl(1, 8) == 256
  {
    assert Shl(1, 4) == 16;
  }

  /** Shifting in `v` appends its bits. */
  lemma {:induction false} BitsShl(x: nat, k: nat, v: nat, n: nat)
    requires v < Shl(1, n)
    ensures Bits(Shl(x, n) + v, k + n) == Bits(x, k) + Bits(v, n)
    decreases n
  {
    if n > 0 {
      var y := Shl(x, n) + v;
      assert y / 2 == Shl(x, n - 1) + v / 2 && y % 2 == v % 2;
      BitsShl(x, k, v / 2, n - 1);
    }
  }

  /** Shifting out the low bits leaves the bits before them. */
  lemma {:induction false} BitsShr(x: nat, k: nat, n: nat)
    ensures Bits(x, k + n) == Bits(Shr(x, n), k) + Bits(x, n)
    decreases n
  {
    if n > 0 {
      BitsShr(x / 2, k, n - 1);
      AppendAssociative(Bits(Shr(x / 2, n - 1), k), Bits(x / 2, n - 1), [x % 2 == 1]);
    }
  }

  /** Masking keeps the bits the mask covers. */
  lemma {:induction false} BitsMask(x: nat, w: nat, n: nat)
    requires n <= w
    ensures Bits(Mask(x, w), n) == Bits(x, n)
    decreases n
  {
    if n > 0 {
      assert Mask(x, w) / 2 == Mask(x / 2, w - 1) && Mask(x, w) % 2 == x % 2;
      BitsMask(x / 2, w - 1, n - 1);
    }
  }

  /** A value is determined by its bits. */
  lemma {:induction false} ValueOfBits(b: seq<bool>, p: nat, x: nat, n: nat)
    requires p + n <= |b| && b[p..p + n] == Bits(x, n) && x < Shl(1, n)
    ensures Value(b, p, n) == x
    decreases n
  {
    if n > 0 {
      var c := Bits(x, n);
      assert c[..n - 1] == Bits(x / 2, n - 1) && c[n - 1] == (x % 2 == 1);
      assert b[p..p + n - 1] == b[p..p + n][..n - 1];
      assert b[p + n - 1] == b[p..p + n][n - 1];
      ValueOfBits(b, p, x / 2, n - 1);
    }
  }

  /** Reading does not depend on what follows. */
  lemma {:induction false} ValuePrefix(a: seq<bool>, b: seq<bool>, p: nat, n: nat)
    requires p + n <= |a| <= |b| && a == b[..|a|]
    ensures Value(a, p, n) == Value(b, p, n)
    decreases n
  {
    if n > 0 {
      ValuePrefix(a, b, p, n - 1);
    }
  }

  lemma {:induction false} UnpackByte(s: seq<Letter>, i: nat)
    requires i < |s|
    ensures Unpack(s)[8 * i..8 * i + 8] == Bits(s[i], 8)
    decreases |s|
  {
    var front := s[..|s| - 1];
    if i < |s| - 1 {
      UnpackByte(front, i);
      assert Unpack(s)[8 * i..8 * i + 8] == Unpack(front)[8 * i..8 * i + 8];
    }
  }

  lemma UnpackAppend(s: seq<Letter>, c: Letter)
    ensures Unpack(s + [c]) == Unpack(s) + Bits(c, 8)
  {
    assert (s + [c])[..|s|] == s;
  }

  /** The last `left` bits of byte `i` of a byte string. */
  lemma UnpackTail(s: seq<Letter>, i: nat, left: nat)
    requires i < |s| && left <= 8
    ensures Unpack(s)[8 * i + 8 - left..8 * i + 8] == Bits(s[i], left)
  {
    hide *;
    UnpackByte(s, i);
    BitsShr(s[i], 8 - left, left);
    SlicePrefix(Unpack(s), 8 * i, 8 - left, 8);
  }

  /** The first `n` bits of byte `i`. */
  lemma UnpackHead(s: seq<Letter>, i: nat, n: nat)
    requires i < |s| && n <= 8
    ensures Unpack(s)[8 * i..8 * i + n] == Bits(Shr(s[i], 8 - n), n)
  {
    hide *;
    UnpackByte(s, i);
    BitsShr(s[i], n, 8 - n);
    SlicePrefix(Unpack(s), 8 * i, n, 8);
  }

  lemma SlicePrefix(b: seq<bool>, p: nat, n: nat, m: nat)
    requires n <= m && p + m <= |b|
    ensures b[p..p + n] == b[p..p + m][..n] && b[p..p + m] == b[p..p + n] + b[p + n..p + m]
  {
  }

  lemma AppendAssociative(a: seq<bool>, b: seq<bool>, c: seq<bool>)
    ensures (a + b) + c == a + (b + c) && (c == [] ==> a + (b + c) == a + b)
  {
  }
}
