/** What the output of lzs_compress of src/lzs.c looks like, bit by bit and token by token, and what
    lzs_decompress makes of streams that do not fit or do not make sense. */
module LzsExact {
  import opened Words
  import opened LzsBits
  import opened LzsFormat
  import opened LzsGreedy

  // ----- the format, spelled out

  function Repeated(bit: bool, n: nat): (r: seq<bool>)
    ensures |r| == n
  {
    seq(n, _ => bit)
  }

  /** Bit strings are written most significant bit first. */
  lemma ByteBits(c: Letter)
    ensures Bits(c, 8) == [c / 128 % 2 == 1, c / 64 % 2 == 1, c / 32 % 2 == 1, c / 16 % 2 == 1,
                           c / 8 % 2 == 1, c / 4 % 2 == 1, c / 2 % 2 == 1, c % 2 == 1]
  {
    hide Bits;
    BitsShr(c, 4, 4);
    LowNibble(c);
    FourBits(c / 16);
    FourBits(c);
    assert c / 16 / 8 == c / 128 && c / 16 / 4 == c / 64 && c / 16 / 2 == c / 32;
  }

  lemma LastBit(x: nat, n: nat)
    ensures Bits(x, n + 1) == Bits(x / 2, n) + [x % 2 == 1]
  {
  }

  lemma TopBits(x: nat, top: nat, n: nat)
    requires x < Shl(1, n)
    ensures Bits(Shl(top, n) + x, 2 + n) == [top / 2 % 2 == 1, top % 2 == 1] + Bits(x, n)
    ensures Bits(Shl(top, n) + x, 1 + n) == [top % 2 == 1] + Bits(x, n)
  {
    BitsShl(top, 2, x, n);
    BitsShl(top, 1, x, n);
    LastBit(top, 1);
    LastBit(top / 2, 0);
    LastBit(top, 0);
  }

  lemma Powers()
    ensures Shl(1, 7) == 128 && Shl(1, 8) == 256 && Shl(1, 11) == 2048 && Shl(1, 14) == 0x4000
    ensures Shl(3, 7) == 0x180 && Shl(2, 11) == 0x1000 && Shl(0, 8) == 0 && Shl(3, 14) == 0xc000
  {
    assert Shl(1, 7) == 2 * Shl(1, 6) && Shl(1, 6) == 2 * Shl(1, 5) && Shl(1, 5) == 2 * Shl(1, 4);
    assert Shl(1, 4) == 2 * Shl(1, 3) && Shl(1, 3) == 2 * Shl(1, 2) && Shl(1, 2) == 2 * Shl(1, 1);
    assert Shl(1, 11) == 2 * Shl(1, 10) && Shl(1, 10) == 2 * Shl(1, 9) && Shl(1, 9) == 2 * Shl(1, 8);
    assert Shl(1, 14) == 2 * Shl(1, 13) && Shl(1, 13) == 2 * Shl(1, 12) && Shl(1, 12) == 2 * Shl(1, 11);
    ShlTimes(3, 7);
    ShlTimes(2, 11);
    ShlTimes(0, 8);
    ShlTimes(3, 14);
  }

  lemma {:induction false} ShlTimes(x: nat, n: nat)
    ensures Shl(x, n) == x * Shl(1, n)
  {
    if n > 0 {
      ShlTimes(x, n - 1);
    }
  }

  /** A literal is a 0 and its byte. */
  lemma LiteralFormat(c: Letter)
    ensures EncodeToken(Literal(c)) == [false] + Bits(c, 8)
  {
    Powers();
    TopBits(c, 0, 8);
  }

  /** An offset is 11 and 7 bits when it fits, 10 and 11 bits otherwise. */
  lemma OffsetFormat(offset: nat)
    ensures offset < 128 ==> EncodeOffset(offset) == [true, true] + Bits(offset, 7)
    ensures 128 <= offset < 2048 ==> EncodeOffset(offset) == [true, false] + Bits(offset, 11)
  {
    Powers();
    if offset < 128 {
      TopBits(offset, 3, 7);
    } else if offset < 2048 {
      TopBits(offset, 2, 11);
    }
  }

  /** Lengths 2 to 4 take two bits, 5 to 7 four. */
  lemma ShortLengthFormat()
    ensures EncodeLength(2) == [false, false] && EncodeLength(3) == [false, true] && EncodeLength(4) == [true, false]
    ensures EncodeLength(5) == [true, true, false, false] && EncodeLength(6) == [true, true, false, true]
    ensures EncodeLength(7) == [true, true, true, false]
  {
    FourBits(12);
    FourBits(13);
    FourBits(14);
    TwoBits(0);
    TwoBits(1);
    TwoBits(2);
  }

  /** From 8 on every 15 take 1111, and the rest four bits. */
  lemma LongLengthFormat(length: nat)
    requires length >= 8
    ensures EncodeLength(length) == Repeated(true, 4 * (1 + (length - 8) / 15)) + Bits((length - 8) % 15, 4)
  {
    hide Bits, Repeated, EncodeNibbles;
    NibblesFormat(length + 7);
    assert (length + 7) / 15 == 1 + (length - 8) / 15 && (length + 7) % 15 == (length - 8) % 15;
  }

  lemma TwoBits(x: nat)
    ensures Bits(x, 2) == [x / 2 % 2 == 1, x % 2 == 1]
  {
    LastBit(x, 1);
    LastBit(x / 2, 0);
  }

  lemma FourBits(x: nat)
    ensures Bits(x, 4) == [x / 8 % 2 == 1, x / 4 % 2 == 1, x / 2 % 2 == 1, x % 2 == 1]
  {
    LastBit(x, 3);
    LastBit(x / 2, 2);
    TwoBits(x / 4);
    assert x / 4 / 2 == x / 8 && x / 2 / 2 == x / 4;
  }

  lemma {:induction false} NibblesFormat(v: nat)
    ensures EncodeNibbles(v) == Repeated(true, 4 * (v / 15)) + Bits(v % 15, 4)
  {
    if v < 15 {
      assert v / 15 == 0 && v % 15 == v;
      assert EncodeNibbles(v) == Bits(v, 4);
    } else {
      NibblesFormat(v - 15);
      FourBits(15);
      var k: nat := (v - 15) / 15;
      assert v / 15 == k + 1 && v % 15 == (v - 15) % 15;
      assert Bits(15, 4) == Repeated(true, 4);
      assert Repeated(true, 4 * (k + 1)) == Repeated(true, 4) + Repeated(true, 4 * k);
      AppendAssociative(Repeated(true, 4), Repeated(true, 4 * k), Bits(v % 15, 4));
    }
  }

  /** The stream ends with 110000000 and seven more zeros. */
  lemma EndFormat()
    ensures EndMarker() == [true, true] + Repeated(false, 14)
  {
    Powers();
    TopBits(0, 3, 14);
    ZeroBits(14);
  }

  lemma {:induction false} ZeroBits(n: nat)
    ensures Bits(0, n) == Repeated(false, n)
  {
    if n > 0 {
      ZeroBits(n - 1);
      assert Repeated(false, n) == Repeated(false, n - 1) + [false];
    }
  }

  // ----- the parse, token by token

  /** The two bytes at `p` stand at `q`, at most 2047 bytes before. */
  predicate PairBefore(src: Input, q: nat, p: nat) {
    q < p <= q + 2047 && p + 1 < |src| && src[q] == src[p] && src[q + 1] == src[p + 1]
  }

  /** The first `n` bytes from `q` and from `p` on agree. */
  predicate AgreeFor(src: Input, q: nat, p: nat, n: nat) {
    q < p && p + n <= |src| && src[q..q + n] == src[p..p + n]
  }

  lemma AgreeForShift(src: Input, q: nat, p: nat, n: nat)
    requires q < p < |src| && n > 0
    ensures AgreeFor(src, q, p, n) <==> src[q] == src[p] && AgreeFor(src, q + 1, p + 1, n - 1)
  {
    if p + n <= |src| {
      assert src[q..q + n] == [src[q]] + src[q + 1..q + n];
      assert src[p..p + n] == [src[p]] + src[p + 1..p + n];
      if src[q..q + n] == src[p..p + n] {
        assert src[q] == src[q..q + n][0] && src[p] == src[p..p + n][0];
        assert src[q + 1..q + n] == src[q..q + n][1..] && src[p + 1..p + n] == src[p..p + n][1..];
      }
    }
  }

  lemma {:induction false} MatchLengthMeans(src: Input, q: nat, p: nat, n: nat)
    requires q < p <= |src|
    ensures AgreeFor(src, q, p, n) <==> n <= MatchLength(src, q, p)
    decreases n
  {
    hide AgreeFor;
    if n == 0 {
      AgreeForNothing(src, q, p);
    } else if p < |src| {
      AgreeForShift(src, q, p, n);
      MatchLengthMeans(src, q + 1, p + 1, n - 1);
    } else {
      AgreeForTooMuch(src, q, p, n);
    }
  }

  lemma AgreeForNothing(src: Input, q: nat, p: nat)
    requires q < p <= |src|
    ensures AgreeFor(src, q, p, 0)
  {
  }

  lemma AgreeForTooMuch(src: Input, q: nat, p: nat, n: nat)
    requires p + n > |src|
    ensures !AgreeFor(src, q, p, n)
  {
  }

  /** What the main loop emits for the byte at `p`, when more than two are left: a literal when the pair
      there stands nowhere in the 2047 bytes before; otherwise a copy, of a match no start there beats,
      and no nearer one equals. */
  ghost predicate BestToken(src: Input, p: nat, t: Token) {
    match t
    case Literal(c) => p < |src| && c == src[p] && forall q: nat :: !PairBefore(src, q, p)
    case Copy(offset, length) =>
      && 1 <= offset <= p && PairBefore(src, p - offset, p) && 2 <= length && AgreeFor(src, p - offset, p, length)
      && forall q: nat | PairBefore(src, q, p) ::
           && !AgreeFor(src, q, p, length + 1)
           && (p - offset < q ==> !AgreeFor(src, q, p, length))
  }

  lemma NextTokenBest(src: Input, p: nat)
    requires p + 1 < |src|
    ensures BestToken(src, p, NextToken(src, p))
  {
    var m := Best(src, p, WindowStart(p));
    forall q: nat | PairBefore(src, q, p)
      ensures m.length >= 2 && !AgreeFor(src, q, p, m.length + 1) && (m.start < q ==> !AgreeFor(src, q, p, m.length))
    {
      BestIsLongestNearest(src, p, WindowStart(p), q);
      PairMatches(src, q, p);
      MatchLengthMeans(src, q, p, m.length + 1);
      MatchLengthMeans(src, q, p, m.length);
    }
    if m.length != 1 {
      PairMatches(src, m.start, p);
      MatchLengthMeans(src, m.start, p, m.length);
    }
  }

  /** What is emitted when exactly two bytes are left at `p` and the pairs before `h` have been entered. */
  ghost predicate LastTokens(src: Input, p: nat, h: nat, t: Token) {
    match t
    case Literal(c) => p < |src| && c == src[p] && forall q: nat | q < h :: !PairBefore(src, q, p)
    case Copy(offset, length) =>
      && 1 <= offset <= p && p - offset < h && PairBefore(src, p - offset, p) && length == 2
      && forall q: nat | p - offset < q < h :: !PairBefore(src, q, p)
  }

  lemma TailBest(src: Input, p: nat, h: nat)
    requires h <= p && p + 2 == |src|
    ensures Tail(src, p, h) != [] && LastTokens(src, p, h, Tail(src, p, h)[0])
    ensures Tail(src, p, h)[0].Literal? ==> Tail(src, p, h)[1..] == [Literal(src[p + 1])]
    ensures Tail(src, p, h)[0].Copy? ==> |Tail(src, p, h)| == 1
  {
    forall q: nat | q < h && PairBefore(src, q, p)
      ensures LastPair(src, src[p], src[p + 1], h).Some? && q <= LastPair(src, src[p], src[p + 1], h).value
    {
      LastPairIsLast(src, src[p], src[p + 1], h, q);
    }
  }

  /** Where token `i` of a parse that starts at `pos` begins. */
  function StartOf(ts: seq<Token>, pos: nat, i: nat): nat
    requires i <= |ts|
  {
    pos + TotalSize(ts[..i])
  }

  /** Token `i` is the one the compressor owes the input at that place. */
  ghost predicate Due(src: Input, pos: nat, ts: seq<Token>, i: nat)
    requires i < |ts|
  {
    var p := StartOf(ts, pos, i);
    && p < |src|
    && (p + 2 < |src| ==> BestToken(src, p, ts[i]))
    && (p + 2 == |src| ==> LastTokens(src, p, if i == 0 then pos else StartOf(ts, pos, i - 1) + 1, ts[i]))
    && (p + 1 == |src| ==> ts[i] == Literal(src[p]))
  }

  lemma StartFirst(ts: seq<Token>, pos: nat)
    ensures StartOf(ts, pos, 0) == pos
  {
    assert ts[..0] == [];
  }

  lemma StartAfter(t: Token, rest: seq<Token>, pos: nat, i: nat)
    requires i <= |rest|
    ensures StartOf([t] + rest, pos, i + 1) == StartOf(rest, pos + Size(t), i)
  {
    var ts := [t] + rest;
    assert ts[..i + 1][0] == t && ts[..i + 1][1..] == rest[..i];
  }

  lemma TailDue(src: Input, pos: nat, h: nat, i: nat)
    requires h <= pos <= |src| <= pos + 2 && i < |Tail(src, pos, h)|
    ensures var ts := Tail(src, pos, h);
      && StartOf(ts, pos, i) == pos + i < |src|
      && (pos + i + 2 == |src| ==> i == 0 && LastTokens(src, pos, h, ts[0]))
      && (pos + i + 1 == |src| ==> ts[i] == Literal(src[pos + i]))
  {
    var ts := Tail(src, pos, h);
    if pos + 2 == |src| {
      TailBest(src, pos, h);
      if i == 1 {
        assert ts[0].Literal? && ts[1..][0] == ts[1];
        assert ts[..1][0] == ts[0] && ts[..1][1..] == [];
        assert TotalSize(ts[..1]) == Size(ts[0]) + TotalSize([]);
      }
    }
    assert ts[..0] == [];
  }

  /** Every token of the parse is the one due at its place. */
  lemma {:induction false} GreedyDue(src: Input, pos: nat, i: nat)
    requires pos <= |src| && i < |Greedy(src, pos)|
    ensures Due(src, pos, Greedy(src, pos), i)
    decreases |src| - pos
  {
    hide BestToken, LastTokens, NextToken, Tail, StartOf, TotalSize;
    var ts := Greedy(src, pos);
    StartFirst(ts, pos);
    if |src| <= pos + 2 {
      TailDue(src, pos, pos, i);
    } else {
      NextTokenFits(src, pos);
      var t := NextToken(src, pos);
      var next := pos + Size(t);
      var rest := if |src| <= next + 2 then Tail(src, next, pos + 1) else Greedy(src, next);
      assert ts == [t] + rest;
      if i == 0 {
        NextTokenBest(src, pos);
      } else {
        StartAfter(t, rest, pos, i - 1);
        if i > 1 {
          StartAfter(t, rest, pos, i - 2);
        }
        if |src| <= next + 2 {
          TailDue(src, next, pos + 1, i - 1);
        } else {
          GreedyDue(src, next, i - 1);
          StartFirst(rest, next);
        }
      }
    }
  }

  /** The tokens make up the whole input. */
  lemma GreedyComplete(src: Input)
    requires |src| <= 0x1_0000
    ensures TotalSize(Greedy(src, 0)) == |src|
  {
    GreedyReproduces(src, 0);
    assert src[..0] == [];
    ExpandSize([], Greedy(src, 0));
  }

  // ----- streams that fail

  /** Tokens that fit, then one that reaches back too far: the stream is invalid; then one that does not
      fit any more: the buffer is too small.  Whatever follows does not matter. */
  lemma {:induction false} DecodeStops(b: seq<bool>, p: nat, ts: seq<Token>, k: nat, buf: seq<Letter>, n: nat)
    requires Reads(b, p, ts) && k < |ts| && AllApplicable(ts[..k], n) && n + TotalSize(ts[..k]) <= |buf|
    ensures var at, t := n + TotalSize(ts[..k]), ts[k];
      && (t.Copy? && t.offset > at ==> Decode(b, p, buf, n) == (InvalidStream, Run(buf, n, ts[..k])))
      && (!(t.Copy? && t.offset > at) && at + Size(t) > |buf| ==>
            Decode(b, p, buf, n) == (BufferTooSmall, Run(buf, n, ts[..k])))
    decreases k
  {
    hide ParseToken, Store;
    if k == 0 {
      assert ts[..0] == [];
    } else {
      assert ts[..k][0] == ts[0] && ts[..k][1..] == ts[1..][..k - 1];
      DecodeStops(b, ParseToken(b, p).next, ts[1..], k - 1, Store(buf, n, ts[0]), n + Size(ts[0]));
    }
  }

  /** What decompressing a written stream says, for a buffer of any size and tokens of any offset: it is
      done exactly when every copy reaches back into the output and all of it fits. */
  lemma DecodeVerdict(b: seq<bool>, ts: seq<Token>, k: nat, buf: seq<Letter>)
    requires (forall t | t in ts :: Encodable(t)) && At(b, 0, Encode(ts) + Bits(0x180, 9))
    requires k < |ts| && AllApplicable(ts[..k], 0) && TotalSize(ts[..k]) <= |buf|
    ensures var at, t := TotalSize(ts[..k]), ts[k];
      && (t.Copy? && t.offset > at ==> Decode(b, 0, buf, 0) == (InvalidStream, Run(buf, 0, ts[..k])))
      && (!(t.Copy? && t.offset > at) && at + Size(t) > |buf| ==>
            Decode(b, 0, buf, 0) == (BufferTooSmall, Run(buf, 0, ts[..k])))
  {
    hide At, Decode, Encode, AllApplicable;
    StreamIsRead(b, ts);
    DecodeStops(b, 0, ts, k, buf, 0);
  }

  /** The 9 bits that end a stream stand at `p`. */
  predicate EndsAt(b: seq<bool>, p: nat) {
    p + 9 <= |b| && b[p..p + 9] == [true, true] + Repeated(false, 7)
  }

  lemma {:induction false} BitsOfValue(b: seq<bool>, p: nat, n: nat)
    requires p + n <= |b|
    ensures b[p..p + n] == Bits(Value(b, p, n), n)
    decreases n
  {
    if n > 0 {
      BitsOfValue(b, p, n - 1);
      assert b[p..p + n] == b[p..p + n - 1] + [b[p + n - 1]];
      LastBit(Value(b, p, n), n - 1);
    }
  }

  lemma MarkerRead(b: seq<bool>, p: nat)
    requires p + 9 <= |b| && Value(b, p, 9) == 0x180
    ensures EndsAt(b, p)
  {
    hide Bits, Value;
    BitsOfValue(b, p, 9);
    Powers();
    TopBits(0, 3, 7);
    ZeroBits(7);
  }

  /** A stream that does not have them anywhere is never done: it ends invalid or does not fit. */
  lemma {:induction false} NeverDone(b: seq<bool>, p: nat, buf: seq<Letter>, n: nat)
    requires n <= |buf| && forall q: nat :: !EndsAt(b, q)
    ensures !Decode(b, p, buf, n).0.Done?
    decreases |b| - p
  {
    hide Store, Value, EndsAt, ParseOffset, ParseLength;
    var parsed := ParseToken(b, p);
    if parsed.End? {
      MarkerRead(b, p);
    } else if parsed.Item? {
      var t := parsed.token;
      if (t.Copy? ==> t.offset <= n) && n + Size(t) <= |buf| {
        NeverDone(b, parsed.next, Store(buf, n, t), n + Size(t));
      }
    }
  }

  /** A copy that reaches back by 0 leaves the buffer as it is. */
  lemma {:induction false} CopyFromHere(buf: seq<Letter>, n: nat, length: nat)
    requires n + length <= |buf|
    ensures CopyBytes(buf, n, 0, length) == buf
    decreases length
  {
    if length > 0 {
      assert buf[n := buf[n]] == buf;
      CopyFromHere(buf, n + 1, length - 1);
    }
  }

  /** With less than 9 bits there is nothing to read. */
  lemma TooShort(b: seq<bool>, buf: seq<Letter>)
    requires |b| < 9
    ensures Decode(b, 0, buf, 0) == (InvalidStream, buf)
  {
  }
}
