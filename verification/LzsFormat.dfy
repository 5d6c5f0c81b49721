/** The LZS stream format of src/lzs.c (section 3.5 of RFC 3943): tokens, how the compressor writes
    them, how the decompressor reads any bit string, and that reading undoes writing. */
module LzsFormat {
  import opened Options
  import opened Words
  import opened LzsBits

  datatype Token = Literal(byte: Letter) | Copy(offset: nat, length: nat)

  /** Largest distance and length the formats of both sides can carry. */
  const MAX_HISTORY := 2048
  const MAX_LENGTH := 0xffff

  predicate Encodable(t: Token) {
    t.Copy? ==> 1 <= t.offset < MAX_HISTORY && 2 <= t.length <= MAX_LENGTH
  }

  // ----- writing

  function EncodeOffset(offset: nat): seq<bool> {
    if offset < 0x80 then Bits(0x180 + offset, 9) else Bits(0x1000 + offset, 13)
  }

  /** One 1111 group for every 15, then the remainder. */
  function EncodeNibbles(v: nat): seq<bool> {
    Bits(if v < 15 then v else 15, 4) + if v < 15 then [] else EncodeNibbles(v - 15)
  }

  /** The code of a match length; matches have at least two bytes. */
  function EncodeLength(length: nat): seq<bool> {
    if length < 2 then []
    else if length < 5 then Bits(length - 2, 2)
    else if length < 8 then Bits(length + 7, 4)
    else EncodeNibbles(length + 7)
  }

  function EncodeToken(t: Token): seq<bool> {
    match t
    case Literal(c) => Bits(c, 9)
    case Copy(offset, length) => EncodeOffset(offset) + EncodeLength(length)
  }

  function Encode(ts: seq<Token>): seq<bool> {
    if ts == [] then [] else EncodeToken(ts[0]) + Encode(ts[1..])
  }

  /** The end marker, with the 7 zero bits that make sure it is flushed. */
  function EndMarker(): (b: seq<bool>)
    ensures |b| == 16
  {
    Bits(0xc000, 16)
  }

  // ----- reading

  /** What the cheap test of GET_BITS amounts to, whatever the field: 9 bits are left. */
  predicate Readable(b: seq<bool>, p: nat) {
    p + 9 <= |b|
  }

  /** The length nibbles; `length` is a 16-bit variable. */
  function ParseNibbles(b: seq<bool>, p: nat, length: nat): (r: Option<(nat, nat)>)
    ensures r.Some? ==> p < r.value.1 <= |b|
    decreases |b| - p
  {
    if !Readable(b, p) then None else
    var data := Value(b, p, 4);
    if data != 15 then Some(((length + data) % 0x1_0000, p + 4))
    else ParseNibbles(b, p + 4, (length + 15) % 0x1_0000)
  }

  function ParseLength(b: seq<bool>, p: nat): (r: Option<(nat, nat)>)
    ensures r.Some? ==> p < r.value.1 <= |b|
  {
    if !Readable(b, p) then None else
    var data := Value(b, p, 2);
    if data != 3 then Some((data + 2, p + 2)) else
    if !Readable(b, p + 2) then None else
    var data := Value(b, p + 2, 2);
    if data != 3 then Some((data + 5, p + 4)) else
    ParseNibbles(b, p + 4, 8)
  }

  /** The offset, given the 9 bits that announce it. */
  function ParseOffset(b: seq<bool>, p: nat, data: nat): (r: Option<(nat, nat)>)
    ensures r.Some? ==> p <= r.value.1
  {
    if 0x180 <= data then Some((data % 128, p)) else
    if !Readable(b, p) then None else
    Some((16 * (data % 128) + Value(b, p, 4), p + 4))
  }

  datatype Parsed = Truncated | End | Item(token: Token, next: nat)

  function ParseToken(b: seq<bool>, p: nat): (r: Parsed)
    ensures r.Item? ==> p < r.next <= |b|
  {
    if !Readable(b, p) then Truncated else
    var data := Value(b, p, 9);
    if data < 0x100 then ValueBound(b, p, 9); Item(Literal(data), p + 9) else
    if data == 0x180 then End else
    var offset := ParseOffset(b, p + 9, data);
    if offset.None? then Truncated else
    var length := ParseLength(b, offset.value.1);
    if length.None? then Truncated else
    Item(Copy(offset.value.0, length.value.0), length.value.1)
  }

  lemma {:induction false} ValueBound(b: seq<bool>, p: nat, n: nat)
    requires p + n <= |b|
    ensures Value(b, p, n) < Shl(1, n)
    decreases n
  {
    if n > 0 {
      ValueBound(b, p, n - 1);
    }
  }

  datatype Result = Done(outlen: nat) | BufferTooSmall | InvalidStream

  /** Copy byte by byte from `offset` back; with offset 0 the buffer stays as it is. */
  function CopyBytes(buf: seq<Letter>, pos: nat, offset: nat, length: nat): (r: seq<Letter>)
    requires offset <= pos && pos + length <= |buf|
    ensures |r| == |buf|
    decreases length
  {
    if length == 0 then buf
    else CopyBytes(buf[pos := buf[pos - offset]], pos + 1, offset, length - 1)
  }

  /** How many bytes a token yields. */
  function Size(t: Token): nat {
    match t
    case Literal(_) => 1
    case Copy(_, length) => length
  }

  /** The buffer once the token has been carried out at `outlen`. */
  function Store(buf: seq<Letter>, outlen: nat, t: Token): (r: seq<Letter>)
    requires outlen + Size(t) <= |buf| && (t.Copy? ==> t.offset <= outlen)
    ensures |r| == |buf|
  {
    match t
    case Literal(c) => buf[outlen := c]
    case Copy(offset, length) => CopyBytes(buf, outlen, offset, length)
  }

  /** What the decompressor makes of any bit string: its result, and the buffer it leaves. */
  function Decode(b: seq<bool>, p: nat, buf: seq<Letter>, outlen: nat): (r: (Result, seq<Letter>))
    requires outlen <= |buf|
    ensures |r.1| == |buf|
    decreases |b| - p
  {
    match ParseToken(b, p)
    case Truncated => (InvalidStream, buf)
    case End => (Done(outlen), buf)
    case Item(t, next) =>
      if t.Copy? && t.offset > outlen then (InvalidStream, buf)
      else if outlen + Size(t) > |buf| then (BufferTooSmall, buf)
      else Decode(b, next, Store(buf, outlen, t), outlen + Size(t))
  }

  // ----- the meaning of tokens

  /** Append `length` bytes, each the one `offset` before it. */
  function Repeat(out: seq<Letter>, offset: nat, length: nat): (r: seq<Letter>)
    requires 1 <= offset <= |out|
    ensures |r| == |out| + length
    decreases length
  {
    if length == 0 then out else Repeat(out + [out[|out| - offset]], offset, length - 1)
  }

  /** A token makes sense after `n` bytes of output. */
  predicate Applicable(t: Token, n: nat) {
    Encodable(t) && (t.Copy? ==> t.offset <= n)
  }

  function Apply(out: seq<Letter>, t: Token): (r: seq<Letter>)
    requires Applicable(t, |out|)
  {
    match t
    case Literal(c) => out + [c]
    case Copy(offset, length) => Repeat(out, offset, length)
  }

  predicate AllApplicable(ts: seq<Token>, n: nat) {
    ts == [] || (Applicable(ts[0], n) && AllApplicable(ts[1..], n + Size(ts[0])))
  }

  /** The bytes a token sequence stands for, after those already there. */
  function Expand(out: seq<Letter>, ts: seq<Token>): (r: seq<Letter>)
    requires AllApplicable(ts, |out|)
    ensures |r| >= |out|
    decreases |ts|
  {
    if ts == [] then out else Expand(Apply(out, ts[0]), ts[1..])
  }

  // ----- reading undoes writing

  /** The `n` bits at `p` write the number `x`. */
  ghost predicate FieldAt(b: seq<bool>, p: nat, n: nat, x: nat) {
    p + n <= |b| && Value(b, p, n) == x
  }

  function NibblesWidth(v: nat): nat {
    if v < 15 then 4 else 4 + NibblesWidth(v - 15)
  }

  ghost predicate NibblesAt(b: seq<bool>, p: nat, v: nat)
    decreases v
  {
    if v < 15 then FieldAt(b, p, 4, v) else FieldAt(b, p, 4, 15) && NibblesAt(b, p + 4, v - 15)
  }

  function LengthWidth(length: nat): nat {
    if length < 5 then 2 else if length < 8 then 4 else 4 + NibblesWidth(length - 8)
  }

  ghost predicate LengthAt(b: seq<bool>, p: nat, length: nat) {
    if length < 5 then 2 <= length && FieldAt(b, p, 2, length - 2)
    else if length < 8 then FieldAt(b, p, 2, 3) && FieldAt(b, p + 2, 2, length - 5)
    else FieldAt(b, p, 2, 3) && FieldAt(b, p + 2, 2, 3) && NibblesAt(b, p + 4, length - 8)
  }

  function OffsetWidth(offset: nat): nat {
    if offset < 0x80 then 9 else 13
  }

  ghost predicate OffsetAt(b: seq<bool>, p: nat, offset: nat) {
    if offset < 0x80 then FieldAt(b, p, 9, 0x180 + offset)
    else FieldAt(b, p, 9, 0x100 + offset / 16) && FieldAt(b, p + 9, 4, offset % 16)
  }

  function TokenWidth(t: Token): nat {
    match t
    case Literal(_) => 9
    case Copy(offset, length) => OffsetWidth(offset) + LengthWidth(length)
  }

  /** The token as a reader meets it. */
  ghost predicate TokenAt(b: seq<bool>, p: nat, t: Token) {
    match t
    case Literal(c) => FieldAt(b, p, 9, c)
    case Copy(offset, length) => OffsetAt(b, p, offset) && LengthAt(b, p + OffsetWidth(offset), length)
  }

  /** The groups of a length add up, modulo 2^16. */
  lemma {:induction false} NibblesRead(b: seq<bool>, p: nat, v: nat, length: nat)
    requires NibblesAt(b, p, v) && p + NibblesWidth(v) + 9 <= |b|
    ensures ParseNibbles(b, p, length) == Some(((length + v) % 0x1_0000, p + NibblesWidth(v)))
    decreases v
  {
    hide Value;
    if 15 <= v {
      NibblesRead(b, p + 4, v - 15, (length + 15) % 0x1_0000);
      WrapsOnce(length + 15, v - 15);
    }
  }

  lemma WrapsOnce(a: nat, b: nat)
    ensures (a % 0x1_0000 + b) % 0x1_0000 == (a + b) % 0x1_0000
  {
  }

  lemma LengthRead(b: seq<bool>, p: nat, length: nat)
    requires LengthAt(b, p, length) && p + LengthWidth(length) + 9 <= |b| && length <= MAX_LENGTH
    ensures ParseLength(b, p) == Some((length, p + LengthWidth(length)))
  {
    if 8 <= length {
      NibblesRead(b, p + 4, length - 8, 8);
    }
  }

  lemma OffsetRead(b: seq<bool>, p: nat, offset: nat)
    requires OffsetAt(b, p, offset) && 1 <= offset < MAX_HISTORY && p + OffsetWidth(offset) + 9 <= |b|
    ensures var data := Value(b, p, 9);
            0x100 < data != 0x180 && ParseOffset(b, p + 9, data) == Some((offset, p + OffsetWidth(offset)))
  {
  }

  /** A token that was written is read back, provided an end marker can still follow. */
  lemma TokenRead(b: seq<bool>, p: nat, t: Token)
    requires Encodable(t) && TokenAt(b, p, t) && p + TokenWidth(t) + 9 <= |b|
    ensures ParseToken(b, p) == Item(t, p + TokenWidth(t))
  {
    if t.Copy? {
      OffsetRead(b, p, t.offset);
      LengthRead(b, p + OffsetWidth(t.offset), t.length);
    }
  }

  // ----- what writing leaves

  /** The first `k` bits of `u` stand in `b` at `p`. */
  ghost predicate Starts(b: seq<bool>, p: nat, u: seq<bool>, k: nat)
    requires k <= |u|
    decreases k
  {
    p + k <= |b| && (k == 0 || (b[p + k - 1] == u[k - 1] && Starts(b, p, u, k - 1)))
  }

  /** `u` stands in `b` at `p`. */
  ghost predicate At(b: seq<bool>, p: nat, u: seq<bool>) {
    Starts(b, p, u, |u|)
  }

  lemma {:induction false} StartsIsSlice(b: seq<bool>, p: nat, u: seq<bool>, k: nat)
    requires k <= |u|
    ensures Starts(b, p, u, k) <==> p + k <= |b| && b[p..p + k] == u[..k]
    decreases k
  {
    if k > 0 && p + k <= |b| {
      StartsIsSlice(b, p, u, k - 1);
      assert b[p..p + k] == b[p..p + k - 1] + [b[p + k - 1]] && u[..k] == u[..k - 1] + [u[k - 1]];
    }
  }

  lemma AtIsSlice(b: seq<bool>, p: nat, u: seq<bool>)
    ensures At(b, p, u) <==> p + |u| <= |b| && b[p..p + |u|] == u
  {
    StartsIsSlice(b, p, u, |u|);
    assert u[..|u|] == u;
  }

  lemma AtSplit(b: seq<bool>, p: nat, u: seq<bool>, v: seq<bool>)
    requires At(b, p, u + v)
    ensures At(b, p, u) && At(b, p + |u|, v)
  {
    AtIsSlice(b, p, u + v);
    AtIsSlice(b, p, u);
    AtIsSlice(b, p + |u|, v);
    var w := b[p..p + |u| + |v|];
    assert w[..|u|] == u && w[|u|..] == v;
    assert b[p..p + |u|] == w[..|u|] && b[p + |u|..p + |u| + |v|] == w[|u|..];
  }

  lemma AtSplitFirst(b: seq<bool>, p: nat, u: seq<bool>, v: seq<bool>, w: seq<bool>)
    requires At(b, p, (u + v) + w)
    ensures At(b, p, u) && At(b, p + |u|, v + w)
  {
    assert (u + v) + w == u + (v + w);
    AtSplit(b, p, u, v + w);
  }

  lemma WrittenField(b: seq<bool>, p: nat, x: nat, n: nat)
    requires At(b, p, Bits(x, n)) && x < Shl(1, n)
    ensures FieldAt(b, p, n, x)
  {
    AtIsSlice(b, p, Bits(x, n));
    ValueOfBits(b, p, x, n);
  }

  /** A field that is read in two parts. */
  lemma WrittenFields(b: seq<bool>, p: nat, x: nat, n: nat, k: nat)
    requires At(b, p, Bits(x, n + k)) && x < Shl(1, n + k)
    ensures FieldAt(b, p, n, Shr(x, k)) && FieldAt(b, p + n, k, Mask(x, k))
  {
    BitsShr(x, n, k);
    BitsMask(x, k, k);
    MaskBound(x, k);
    ShrBound(x, k, n);
    AtSplit(b, p, Bits(Shr(x, k), n), Bits(Mask(x, k), k));
    WrittenField(b, p, Shr(x, k), n);
    WrittenField(b, p + n, Mask(x, k), k);
  }

  lemma FieldBounds()
    ensures Shl(1, 2) == 4 && Shl(1, 4) == 16 && Shl(1, 9) == 512 && Shl(1, 13) == 8192
  {
    assert Shl(1, 4) == 16;
    assert Shl(1, 7) == 128;
    assert Shl(1, 9) == 512;
    assert Shl(1, 11) == 2048;
  }

  lemma {:induction false} WrittenNibbles(b: seq<bool>, p: nat, v: nat)
    requires At(b, p, EncodeNibbles(v))
    ensures NibblesAt(b, p, v) && |EncodeNibbles(v)| == NibblesWidth(v)
    decreases v
  {
    FieldBounds();
    var d := if v < 15 then v else 15;
    AtSplit(b, p, Bits(d, 4), if v < 15 then [] else EncodeNibbles(v - 15));
    WrittenField(b, p, d, 4);
    if 15 <= v {
      WrittenNibbles(b, p + 4, v - 15);
    }
  }

  lemma LowPair(x: nat)
    ensures Shr(x, 2) == x / 4 && Mask(x, 2) == x % 4
  {
    ShiftsDivide(x, 2);
    var y := Shr(x, 2);
    assert Shl(y, 1) == 2 * y;
    assert Shl(1, 2) == 4;
  }

  lemma LowNibble(x: nat)
    ensures Shr(x, 4) == x / 16 && Mask(x, 4) == x % 16
  {
    ShiftsDivide(x, 4);
    assert Shl(1, 4) == 16;
    var y := Shr(x, 4);
    assert Shl(y, 1) == 2 * y;
    assert Shl(y, 3) == 8 * y;
  }

  /** A 4-bit group is read as two pairs. */
  lemma WrittenPairs(b: seq<bool>, p: nat, x: nat)
    requires At(b, p, Bits(x, 4)) && x < 16
    ensures FieldAt(b, p, 2, x / 4) && FieldAt(b, p + 2, 2, x % 4)
  {
    FieldBounds();
    LowPair(x);
    WrittenFields(b, p, x, 2, 2);
  }

  lemma WrittenLength(b: seq<bool>, p: nat, length: nat)
    requires 2 <= length && At(b, p, EncodeLength(length))
    ensures LengthAt(b, p, length) && |EncodeLength(length)| == LengthWidth(length)
  {
    FieldBounds();
    if length < 5 {
      WrittenField(b, p, length - 2, 2);
    } else if length < 8 {
      WrittenPairs(b, p, length + 7);
    } else {
      var d := if length + 7 < 15 then length + 7 else 15;
      AtSplit(b, p, Bits(d, 4), EncodeNibbles(length - 8));
      WrittenPairs(b, p, d);
      WrittenNibbles(b, p + 4, length - 8);
    }
  }

  lemma WrittenOffset(b: seq<bool>, p: nat, offset: nat)
    requires offset < MAX_HISTORY && At(b, p, EncodeOffset(offset))
    ensures OffsetAt(b, p, offset) && |EncodeOffset(offset)| == OffsetWidth(offset)
  {
    FieldBounds();
    if offset < 0x80 {
      WrittenField(b, p, 0x180 + offset, 9);
    } else {
      var x := 0x1000 + offset;
      LowNibble(x);
      WrittenFields(b, p, x, 9, 4);
    }
  }

  lemma WrittenToken(b: seq<bool>, p: nat, t: Token)
    requires Encodable(t) && At(b, p, EncodeToken(t))
    ensures TokenAt(b, p, t) && |EncodeToken(t)| == TokenWidth(t)
  {
    FieldBounds();
    match t {
      case Literal(c) =>
        WrittenField(b, p, c, 9);
      case Copy(offset, length) =>
        AtSplit(b, p, EncodeOffset(offset), EncodeLength(length));
        WrittenOffset(b, p, offset);
        WrittenLength(b, p + |EncodeOffset(offset)|, length);
    }
  }

  /** The tokens, one after the other, and the 9 bits that end the stream. */
  ghost predicate TokensAt(b: seq<bool>, p: nat, ts: seq<Token>)
    decreases |ts|
  {
    if ts == [] then FieldAt(b, p, 9, 0x180)
    else TokenAt(b, p, ts[0]) && TokensAt(b, p + TokenWidth(ts[0]), ts[1..])
  }

  lemma WrittenFirst(b: seq<bool>, p: nat, ts: seq<Token>, end: seq<bool>)
    requires ts != [] && Encodable(ts[0]) && At(b, p, Encode(ts) + end)
    ensures TokenAt(b, p, ts[0]) && At(b, p + TokenWidth(ts[0]), Encode(ts[1..]) + end)
  {
    hide At, TokenAt, EncodeToken, TokenWidth;
    AtSplitFirst(b, p, EncodeToken(ts[0]), Encode(ts[1..]), end);
    WrittenToken(b, p, ts[0]);
  }

  lemma {:induction false} WrittenTokens(b: seq<bool>, p: nat, ts: seq<Token>, end: seq<bool>)
    requires (forall t | t in ts :: Encodable(t)) && At(b, p, Encode(ts) + end)
    requires forall q: nat | At(b, q, end) :: FieldAt(b, q, 9, 0x180)
    ensures TokensAt(b, p, ts)
    decreases |ts|
  {
    hide At, FieldAt, TokenAt, EncodeToken;
    if ts == [] {
      assert Encode(ts) + end == end;
    } else {
      WrittenFirst(b, p, ts, end);
      WrittenTokens(b, p + TokenWidth(ts[0]), ts[1..], end);
    }
  }

  lemma {:induction false} TokensRoom(b: seq<bool>, p: nat, ts: seq<Token>)
    requires TokensAt(b, p, ts)
    ensures p + 9 <= |b|
    decreases |ts|
  {
    if ts != [] {
      TokensRoom(b, p + TokenWidth(ts[0]), ts[1..]);
    }
  }

  /** Copying inside the buffer is what repeating means. */
  lemma {:induction false} CopyIsRepeat(buf: seq<Letter>, n: nat, offset: nat, length: nat)
    requires 1 <= offset <= n && n + length <= |buf|
    ensures CopyBytes(buf, n, offset, length)[..n + length] == Repeat(buf[..n], offset, length)
    ensures CopyBytes(buf, n, offset, length)[n + length..] == buf[n + length..]
    decreases length
  {
    if length > 0 {
      var buf' := buf[n := buf[n - offset]];
      CopyIsRepeat(buf', n + 1, offset, length - 1);
      assert buf'[..n + 1] == buf[..n] + [buf[n - offset]];
      assert buf'[n + length..] == buf[n + length..];
    }
  }

  lemma {:induction false} EncodableTokens(ts: seq<Token>, n: nat)
    requires AllApplicable(ts, n)
    ensures forall t | t in ts :: Encodable(t)
    decreases |ts|
  {
    if ts != [] {
      EncodableTokens(ts[1..], n + Size(ts[0]));
    }
  }

  /** The whole bytes of a bit stream; up to 7 bits at the end are not written out. */
  predicate Packed(bytes: seq<Letter>, stream: seq<bool>) {
    |bytes| == |stream| / 8 && Unpack(bytes) == stream[..8 * |bytes|]
  }

  /** The stream the compressor writes for `ts`. */
  function Stream(ts: seq<Token>): seq<bool> {
    Encode(ts) + EndMarker()
  }

  lemma StoreIsApply(buf: seq<Letter>, n: nat, t: Token)
    requires Applicable(t, n) && n + Size(t) <= |buf|
    ensures |Apply(buf[..n], t)| == n + Size(t)
    ensures Store(buf, n, t)[..n + Size(t)] == Apply(buf[..n], t)
    ensures Store(buf, n, t)[n + Size(t)..] == buf[n + Size(t)..]
  {
    if t.Copy? {
      CopyIsRepeat(buf, n, t.offset, t.length);
    }
  }

  function TotalSize(ts: seq<Token>): nat {
    if ts == [] then 0 else Size(ts[0]) + TotalSize(ts[1..])
  }

  /** The buffer once all the tokens have been carried out. */
  function Run(buf: seq<Letter>, outlen: nat, ts: seq<Token>): (r: seq<Letter>)
    requires AllApplicable(ts, outlen) && outlen + TotalSize(ts) <= |buf|
    ensures |r| == |buf|
    decreases |ts|
  {
    if ts == [] then buf else Run(Store(buf, outlen, ts[0]), outlen + Size(ts[0]), ts[1..])
  }

  /** Reading from `p` on yields exactly the tokens `ts`, then the end. */
  predicate Reads(b: seq<bool>, p: nat, ts: seq<Token>)
    decreases |ts|
  {
    var r := ParseToken(b, p);
    if ts == [] then r == End else r.Item? && r.token == ts[0] && Reads(b, r.next, ts[1..])
  }

  lemma {:induction false} TokensRead(b: seq<bool>, p: nat, ts: seq<Token>)
    requires (forall t | t in ts :: Encodable(t)) && TokensAt(b, p, ts)
    ensures Reads(b, p, ts)
    decreases |ts|
  {
    if ts != [] {
      TokensRoom(b, p + TokenWidth(ts[0]), ts[1..]);
      TokenRead(b, p, ts[0]);
      TokensRead(b, p + TokenWidth(ts[0]), ts[1..]);
    }
  }

  lemma {:induction false} DecodeIsRun(b: seq<bool>, p: nat, ts: seq<Token>, buf: seq<Letter>, outlen: nat)
    requires AllApplicable(ts, outlen) && outlen + TotalSize(ts) <= |buf| && Reads(b, p, ts)
    ensures Decode(b, p, buf, outlen) == (Done(outlen + TotalSize(ts)), Run(buf, outlen, ts))
    decreases |ts|
  {
    if ts != [] {
      var next := ParseToken(b, p).next;
      DecodeIsRun(b, next, ts[1..], Store(buf, outlen, ts[0]), outlen + Size(ts[0]));
    }
  }

  lemma {:induction false} RunIsExpand(buf: seq<Letter>, n: nat, ts: seq<Token>)
    requires AllApplicable(ts, n) && n + TotalSize(ts) <= |buf|
    ensures Run(buf, n, ts)[..n + TotalSize(ts)] == Expand(buf[..n], ts)
    ensures Run(buf, n, ts)[n + TotalSize(ts)..] == buf[n + TotalSize(ts)..]
    decreases |ts|
  {
    if ts != [] {
      StoreIsApply(buf, n, ts[0]);
      var buf', m, k := Store(buf, n, ts[0]), n + Size(ts[0]), n + TotalSize(ts);
      RunIsExpand(buf', m, ts[1..]);
      assert buf'[k..] == buf'[m..][k - m..] && buf[k..] == buf[m..][k - m..];
    }
  }

  lemma StreamIsRead(b: seq<bool>, ts: seq<Token>)
    requires (forall t | t in ts :: Encodable(t)) && At(b, 0, Encode(ts) + Bits(0x180, 9))
    ensures Reads(b, 0, ts)
  {
    var end := Bits(0x180, 9);
    forall q: nat | At(b, q, end) ensures FieldAt(b, q, 9, 0x180) {
      FieldBounds();
      WrittenField(b, q, 0x180, 9);
    }
    WrittenTokens(b, 0, ts, end);
    TokensRead(b, 0, ts);
  }

  /** Decoding what was written for `ts` yields the bytes `ts` stands for, and touches no others.
      The last 7 bits of the stream need not be there. */
  lemma DecodeWritten(b: seq<bool>, ts: seq<Token>, buf: seq<Letter>)
    requires AllApplicable(ts, 0) && |Expand([], ts)| <= |buf|
    requires At(b, 0, Encode(ts) + Bits(0x180, 9))
    ensures var out, r := Expand([], ts), Decode(b, 0, buf, 0);
            r.0 == Done(|out|) && r.1[..|out|] == out && r.1[|out|..] == buf[|out|..]
  {
    EncodableTokens(ts, 0);
    StreamIsRead(b, ts);
    ExpandSize([], ts);
    DecodeIsRun(b, 0, ts, buf, 0);
    RunIsExpand(buf, 0, ts);
    assert buf[..0] == [];
  }

  lemma {:induction false} ExpandSize(out: seq<Letter>, ts: seq<Token>)
    requires AllApplicable(ts, |out|)
    ensures |Expand(out, ts)| == |out| + TotalSize(ts)
    decreases |ts|
  {
    if ts != [] {
      ExpandSize(Apply(out, ts[0]), ts[1..]);
    }
  }

  /** Written tokens never take more than 9 bits for every byte they stand for. */
  lemma {:induction false} EncodeBound(ts: seq<Token>)
    requires forall t | t in ts :: Encodable(t)
    ensures |Encode(ts)| <= 9 * TotalSize(ts)
    decreases |ts|
  {
    if ts != [] {
      TokenBound(ts[0]);
      EncodeBound(ts[1..]);
    }
  }

  lemma {:induction false} NibblesBound(v: nat)
    ensures |EncodeNibbles(v)| <= v + 4
  {
    if 15 <= v {
      NibblesBound(v - 15);
    }
  }

  lemma TokenBound(t: Token)
    requires Encodable(t)
    ensures |EncodeToken(t)| <= 9 * Size(t)
  {
    if t.Copy? {
      NibblesBound(t.length + 7);
    }
  }
}
