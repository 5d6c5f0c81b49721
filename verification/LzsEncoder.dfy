/** lzs_compress of src/lzs.c: the bit writer and the compressor itself. */
module LzsEncoder {
  import opened Words
  import opened LzsBits
  import opened LzsFormat
  import opened LzsGreedy
  import opened LzsSearch

  // ----- PUT_BITS

  /** Moving the top 8 of `m + 8` pending bits to the output changes no bit of the stream. */
  lemma FlushByte(bytes: seq<Letter>, x: nat, m: nat, c: Letter)
    requires c == Mask(Shr(x, m), 8)
    ensures Unpack(bytes + [c]) + Bits(x, m) == Unpack(bytes) + Bits(x, 8 + m)
  {
    UnpackAppend(bytes, c);
    BitsMask(Shr(x, m), 8, 8);
    BitsShr(x, 8, m);
    AppendAssociative(Unpack(bytes), Bits(c, 8), Bits(x, m));
  }

  lemma LowByte(x: nat)
    ensures Mask(x, 8) < 256
  {
    MaskBound(x, 8);
    ByteBound();
  }

  /** The output side of the compressor: whole bytes in `dst`, fewer than 8 bits pending. */
  class BitWriter {
    const dst: array<Letter>
    var outpos: nat
    var outbits: nat
    var nrOutbits: nat
    /** Everything put so far. */
    ghost var stream: seq<bool>

    ghost predicate Valid()
      reads this, dst
    {
      outpos <= dst.Length && nrOutbits < 8 && Unpack(dst[..outpos]) + Bits(outbits, nrOutbits) == stream
    }

    constructor (dst: array<Letter>)
      ensures Valid() && this.dst == dst && stream == []
    {
      this.dst := dst;
      outpos, outbits, nrOutbits, stream := 0, 0, 0, [];
    }

    /** Write out one byte's worth of pending bits, unless the buffer is full. */
    method PutByte() returns (ok: bool)
      requires outpos <= dst.Length && 8 <= nrOutbits && Unpack(dst[..outpos]) + Bits(outbits, nrOutbits) == stream
      modifies this, dst
      ensures stream == old(stream) && outpos <= dst.Length
      ensures ok <==> old(outpos) < dst.Length
      ensures ok ==> nrOutbits == old(nrOutbits) - 8 && Unpack(dst[..outpos]) + Bits(outbits, nrOutbits) == stream
    {
      nrOutbits := nrOutbits - 8;
      if outpos == dst.Length {
        return false;
      }
      LowByte(Shr(outbits, nrOutbits));
      FlushByte(dst[..outpos], outbits, nrOutbits, Mask(Shr(outbits, nrOutbits), 8));
      ghost var before := dst[..outpos];
      dst[outpos] := Mask(Shr(outbits, nrOutbits), 8);
      assert dst[..outpos + 1] == before + [dst[outpos]];
      outpos := outpos + 1;
      return true;
    }

    /** PUT_BITS: append the low `nr` bits of `bits`; refused when a byte is due and there is no room.
        `outbits` is a 32-bit variable; `|` adds, as the low bits have just been shifted in as zero. */
    method PutBits(nr: nat, bits: nat) returns (ok: bool)
      requires Valid() && nr <= 16 && bits < Shl(1, nr)
      modifies this, dst
      ensures ok ==> Valid() && stream == old(stream) + Bits(bits, nr)
      ensures !ok ==> 8 * dst.Length + 8 <= |old(stream)| + nr
    {
      ShiftIn(dst[..outpos], outbits, nrOutbits, bits, nr, stream);
      outbits := Mask(Shl(outbits, nr) + bits, 32);
      nrOutbits := nrOutbits + nr;
      stream := stream + Bits(bits, nr);
      if nr > 8 {
        ok := PutByte();
        if !ok {
          return;
        }
      }
      if nrOutbits >= 8 {
        ok := PutByte();
        if !ok {
          return;
        }
      }
      return true;
    }
  }

  lemma ShiftIn(bytes: seq<Letter>, x: nat, m: nat, bits: nat, nr: nat, stream: seq<bool>)
    requires bits < Shl(1, nr) && m + nr <= 32 && Unpack(bytes) + Bits(x, m) == stream
    ensures Unpack(bytes) + Bits(Mask(Shl(x, nr) + bits, 32), m + nr) == stream + Bits(bits, nr)
  {
    BitsShl(x, m, bits, nr);
    BitsMask(Shl(x, nr) + bits, 32, m + nr);
    AppendAssociative(Unpack(bytes), Bits(x, m), Bits(bits, nr));
  }

  // ----- tokens

  method PutOffset(w: BitWriter, offset: nat) returns (ok: bool)
    requires w.Valid() && offset < MAX_HISTORY
    modifies w, w.dst
    ensures ok ==> w.Valid() && w.stream == old(w.stream) + EncodeOffset(offset)
    ensures !ok ==> 8 * w.dst.Length + 8 <= |old(w.stream)| + |EncodeOffset(offset)|
  {
    FieldBounds();
    if offset < 0x80 {
      ok := w.PutBits(9, 0x180 + offset);
    } else {
      ok := w.PutBits(13, 0x1000 + offset);
    }
  }

  /** A byte of the length code holds two of its groups. */
  lemma TwoNibbles(x: nat)
    requires x < 256
    ensures Bits(x, 8) == Bits(x / 16, 4) + Bits(x % 16, 4)
  {
    BitsShr(x, 4, 4);
    LowNibble(x);
    BitsMask(x, 4, 4);
  }

  lemma FirstNibble(v: nat, d: nat)
    requires d == (if v < 15 then v else 15)
    ensures EncodeNibbles(v) == Bits(d, 4) + if v < 15 then [] else EncodeNibbles(v - 15)
  {
  }

  lemma NibblePair(v: nat, x: nat, after: seq<bool>)
    requires 15 <= v && x == (if v < 30 then 0xf0 + (v - 15) else 0xff)
    requires after == (if v < 30 then [] else EncodeNibbles(v - 30))
    ensures EncodeNibbles(v) == Bits(x, 8) + after
  {
    var hi, lo := x / 16, x % 16;
    FirstNibble(v, hi);
    FirstNibble(v - 15, lo);
    TwoNibbles(x);
    AppendAssociative(Bits(hi, 4), Bits(lo, 4), after);
  }

  lemma AppendNibbles(before: seq<bool>, v: nat, x: nat, after: seq<bool>)
    requires 15 <= v && x == (if v < 30 then 0xf0 + (v - 15) else 0xff)
    requires after == (if v < 30 then [] else EncodeNibbles(v - 30))
    ensures 8 <= |EncodeNibbles(v)| && (before + Bits(x, 8)) + after == before + EncodeNibbles(v)
    ensures v < 30 ==> before + Bits(x, 8) == before + EncodeNibbles(v)
  {
    NibblePair(v, x, after);
    AppendAssociative(before, Bits(x, 8), after);
  }

  method PutNibbles(w: BitWriter, v: nat) returns (ok: bool)
    requires w.Valid() && 15 <= v
    modifies w, w.dst
    ensures ok ==> w.Valid() && w.stream == old(w.stream) + EncodeNibbles(v)
    ensures !ok ==> 8 * w.dst.Length + 8 <= |old(w.stream)| + |EncodeNibbles(v)|
  {
    FieldBounds();
    ByteBound();
    var length := v;
    ghost var whole := w.stream + EncodeNibbles(v);
    while length >= 30
      invariant w.Valid() && w.stream + EncodeNibbles(length) == whole
    {
      AppendNibbles(w.stream, length, 0xff, EncodeNibbles(length - 30));
      ok := w.PutBits(8, 0xff);
      if !ok {
        return;
      }
      length := length - 30;
    }
    if length >= 15 {
      AppendNibbles(w.stream, length, 0xf0 + (length - 15), []);
      ok := w.PutBits(8, 0xf0 + (length - 15));
    } else {
      assert EncodeNibbles(length) == Bits(length, 4);
      ok := w.PutBits(4, length);
    }
  }

  method PutLength(w: BitWriter, length: nat) returns (ok: bool)
    requires w.Valid() && 2 <= length
    modifies w, w.dst
    ensures ok ==> w.Valid() && w.stream == old(w.stream) + EncodeLength(length)
    ensures !ok ==> 8 * w.dst.Length + 8 <= |old(w.stream)| + |EncodeLength(length)|
  {
    FieldBounds();
    if length < 5 {
      ok := w.PutBits(2, length - 2);
    } else if length < 8 {
      ok := w.PutBits(4, length + 7);
    } else {
      ok := PutNibbles(w, length + 7);
    }
  }

  method PutCopy(w: BitWriter, offset: nat, length: nat) returns (ok: bool)
    requires w.Valid() && offset < MAX_HISTORY && 2 <= length
    modifies w, w.dst
    ensures ok ==> w.Valid() && w.stream == old(w.stream) + EncodeToken(Copy(offset, length))
    ensures !ok ==> 8 * w.dst.Length + 8 <= |old(w.stream)| + |EncodeToken(Copy(offset, length))|
  {
    AppendAssociative(w.stream, EncodeOffset(offset), EncodeLength(length));
    ok := PutOffset(w, offset);
    if ok {
      ok := PutLength(w, length);
    }
  }

  method PutLiteral(w: BitWriter, c: Letter) returns (ok: bool)
    requires w.Valid()
    modifies w, w.dst
    ensures ok ==> w.Valid() && w.stream == old(w.stream) + EncodeToken(Literal(c))
    ensures !ok ==> 8 * w.dst.Length + 8 <= |old(w.stream)| + |EncodeToken(Literal(c))|
  {
    FieldBounds();
    ok := w.PutBits(9, c);
  }

  // ----- the compressor

  /** What has been put and what is still to come make up the encoding of the whole input. */
  ghost predicate OnTrack(src: Input, stream: seq<bool>, rest: seq<Token>) {
    stream + Encode(rest) == Encode(Greedy(src, 0))
  }

  lemma OnTrackStep(src: Input, stream: seq<bool>, t: Token, rest: seq<Token>)
    requires OnTrack(src, stream, [t] + rest)
    ensures OnTrack(src, stream + EncodeToken(t), rest)
    ensures |stream| + |EncodeToken(t)| <= |Encode(Greedy(src, 0))|
  {
    var ts := [t] + rest;
    assert ts[0] == t && ts[1..] == rest;
    AppendAssociative(stream, EncodeToken(t), Encode(rest));
  }

  /** What remains after the token for `pos`. */
  ghost function AfterNext(src: Input, pos: nat): seq<Token>
    requires pos + 2 < |src|
  {
    NextTokenFits(src, pos);
    var next := pos + Size(NextToken(src, pos));
    if |src| <= next + 2 then Tail(src, next, pos + 1) else Greedy(src, next)
  }

  lemma OnTrackNext(src: Input, stream: seq<bool>, pos: nat)
    requires pos + 2 < |src| && OnTrack(src, stream, Greedy(src, pos))
    ensures OnTrack(src, stream + EncodeToken(NextToken(src, pos)), AfterNext(src, pos))
    ensures |stream| + |EncodeToken(NextToken(src, pos))| <= |Encode(Greedy(src, 0))|
  {
    OnTrackStep(src, stream, NextToken(src, pos), AfterNext(src, pos));
  }

  lemma OnTrackDone(src: Input, stream: seq<bool>)
    requires OnTrack(src, stream, [])
    ensures stream == Encode(Greedy(src, 0))
  {
    assert stream + [] == stream;
  }

  lemma OnTrackStart(src: Input)
    ensures OnTrack(src, [], Greedy(src, 0))
  {
  }

  /** The tables once a token of `next - pos` bytes has been dealt with: all its positions are in, but
      when at most two bytes are left only the first one is. */
  ghost predicate Entered(src: Input, bigEndian: bool, table: seq<nat>, chain: seq<nat>, pos: nat, next: nat) {
    if next + 2 < |src| then TableOk(src, bigEndian, table, next) && ChainOk(src, chain, next)
    else TableOk(src, bigEndian, table, pos + 1)
  }

  /** Enter the positions of a match other than its first, unless the input is nearly used up. */
  method InsertMatch(src: Input, bigEndian: bool, table: array<nat>, chain: array<nat>, pos: nat, length: nat)
    requires 1 <= length && table != chain
    requires TableOk(src, bigEndian, table[..], pos + 1) && ChainOk(src, chain[..], pos + 1)
    modifies table, chain
    ensures Entered(src, bigEndian, table[..], chain[..], pos, pos + length)
  {
    if pos + length + 2 >= |src| {
      return;
    }
    var inpos := pos + 1;
    while inpos < pos + length
      invariant pos < inpos <= pos + length
      invariant TableOk(src, bigEndian, table[..], inpos) && ChainOk(src, chain[..], inpos)
    {
      var _ := InsertHash(src, bigEndian, table, chain, inpos);
      inpos := inpos + 1;
    }
  }

  /** The token for one position of the main loop, put and accounted for. */
  method PutNext(w: BitWriter, src: Input, bigEndian: bool, table: array<nat>, chain: array<nat>, pos: nat)
    returns (ok: bool, length: nat)
    requires w.Valid() && pos + 2 < |src| <= HASH_TABLE_SIZE
    requires table != chain && w.dst as object != table && w.dst as object != chain
    requires TableOk(src, bigEndian, table[..], pos) && ChainOk(src, chain[..], pos)
    modifies w, w.dst, table, chain
    ensures length == Size(NextToken(src, pos))
    ensures ok ==> w.Valid() && w.stream == old(w.stream) + EncodeToken(NextToken(src, pos))
    ensures !ok ==> 8 * w.dst.Length + 8 <= |old(w.stream)| + |EncodeToken(NextToken(src, pos))|
    ensures TableOk(src, bigEndian, table[..], pos + 1) && ChainOk(src, chain[..], pos + 1)
  {
    var start;
    var hofs := InsertHash(src, bigEndian, table, chain, pos);
    if hofs == INVALID_OFS || hofs + MAX_HISTORY <= pos {
      NoMatch(src, pos, hofs);
      length := 1;
      ok := PutLiteral(w, src[pos]);
    } else {
      length, start := FindMatch(src, chain, pos, hofs);
      ok := PutCopy(w, pos - start, length);
    }
  }

  /** The main loop between two rounds: more of the input to come, or at most two bytes of it. */
  ghost predicate Underway(src: Input, bigEndian: bool, table: seq<nat>, chain: seq<nat>, stream: seq<bool>, pos: nat, hashed: nat) {
    && hashed <= pos <= |src| <= HASH_TABLE_SIZE
    && (if pos + 2 < |src|
        then OnTrack(src, stream, Greedy(src, pos)) && TableOk(src, bigEndian, table, pos) && ChainOk(src, chain, pos)
        else OnTrack(src, stream, Tail(src, pos, hashed)) && TableOk(src, bigEndian, table, hashed))
  }

  lemma UnderwayAtStart(src: Input, bigEndian: bool, table: seq<nat>, chain: seq<nat>)
    requires |src| <= HASH_TABLE_SIZE && |table| == HASH_TABLE_SIZE && |chain| == MAX_HISTORY
    requires forall i | 0 <= i < |table| :: table[i] == INVALID_OFS
    ensures Underway(src, bigEndian, table, chain, [], 0, 0)
  {
    OnTrackStart(src);
  }

  lemma Depart(src: Input, bigEndian: bool, table: seq<nat>, chain: seq<nat>, stream: seq<bool>, pos: nat, hashed: nat)
    requires Underway(src, bigEndian, table, chain, stream, pos, hashed) && pos + 2 < |src|
    ensures |src| <= HASH_TABLE_SIZE && TableOk(src, bigEndian, table, pos) && ChainOk(src, chain, pos)
    ensures OnTrack(src, stream + EncodeToken(NextToken(src, pos)), AfterNext(src, pos))
    ensures |stream| + |EncodeToken(NextToken(src, pos))| <= |Encode(Greedy(src, 0))|
    ensures 1 <= Size(NextToken(src, pos)) <= |src| - pos
  {
    NextTokenFits(src, pos);
    OnTrackNext(src, stream, pos);
  }

  lemma Arrive(src: Input, bigEndian: bool, table: seq<nat>, chain: seq<nat>, stream: seq<bool>, pos: nat, next: nat)
    requires pos + 2 < |src| <= HASH_TABLE_SIZE && pos < next == pos + Size(NextToken(src, pos)) <= |src|
    requires OnTrack(src, stream, AfterNext(src, pos))
    requires Entered(src, bigEndian, table, chain, pos, next)
    ensures Underway(src, bigEndian, table, chain, stream, next, pos + 1)
  {
    hide OnTrack, TableOk, ChainOk, Tail, Greedy, NextToken;
  }

  /** One round of the main loop: a token, and unless the input is nearly used up, its positions. */
  method PutRound(w: BitWriter, src: Input, bigEndian: bool, table: array<nat>, chain: array<nat>, pos: nat, ghost hashed: nat)
    returns (ok: bool, next: nat)
    requires w.Valid() && pos + 2 < |src| && table != chain && w.dst as object != table && w.dst as object != chain
    requires Underway(src, bigEndian, table[..], chain[..], w.stream, pos, hashed)
    modifies w, w.dst, table, chain
    ensures pos < next <= |src|
    ensures ok ==> w.Valid() && Underway(src, bigEndian, table[..], chain[..], w.stream, next, pos + 1)
    ensures !ok ==> 8 * w.dst.Length + 8 <= |Encode(Greedy(src, 0))|
  {
    hide *;
    var length;
    Depart(src, bigEndian, table[..], chain[..], w.stream, pos, hashed);
    ok, length := PutNext(w, src, bigEndian, table, chain, pos);
    next := pos + length;
    if ok {
      ghost var stream := w.stream;
      InsertMatch(src, bigEndian, table, chain, pos, length);
      Arrive(src, bigEndian, table[..], chain[..], stream, pos, next);
    }
  }

  /** The main loop.  It leaves at most two bytes; `hashed` positions are then in the tables. */
  method PutMain(w: BitWriter, src: Input, bigEndian: bool, table: array<nat>, chain: array<nat>)
    returns (ok: bool, pos: nat, ghost hashed: nat)
    requires w.Valid() && table != chain && w.dst as object != table && w.dst as object != chain
    requires Underway(src, bigEndian, table[..], chain[..], w.stream, 0, 0)
    modifies w, w.dst, table, chain
    ensures ok ==> |src| <= pos + 2 && w.Valid() && Underway(src, bigEndian, table[..], chain[..], w.stream, pos, hashed)
    ensures !ok ==> 8 * w.dst.Length + 8 <= |Encode(Greedy(src, 0))|
  {
    hide *;
    var next;
    ok, pos, hashed := true, 0, 0;
    while pos + 2 < |src|
      invariant pos <= |src| && w.Valid() && Underway(src, bigEndian, table[..], chain[..], w.stream, pos, hashed)
    {
      ok, next := PutRound(w, src, bigEndian, table, chain, pos, hashed);
      if !ok {
        return;
      }
      hashed := pos + 1;
      pos := next;
    }
  }

  /** Put one token of those still to come. */
  method PutLiteralOnTrack(w: BitWriter, src: Input, c: Letter, ghost rest: seq<Token>) returns (ok: bool)
    requires w.Valid() && OnTrack(src, w.stream, [Literal(c)] + rest)
    modifies w, w.dst
    ensures ok ==> w.Valid() && OnTrack(src, w.stream, rest)
    ensures !ok ==> 8 * w.dst.Length + 8 <= |Encode(Greedy(src, 0))|
  {
    OnTrackStep(src, w.stream, Literal(c), rest);
    ok := PutLiteral(w, c);
  }

  /** The tokens for the last bytes, given what the table says. */
  lemma TailTokens(src: Input, pos: nat, hashed: nat, hofs: nat)
    requires hashed <= pos <= |src| <= HASH_TABLE_SIZE
    requires pos + 2 == |src| ==> hofs == Stored(LastPair(src, src[pos], src[pos + 1], hashed))
    ensures pos + 2 == |src| && hofs != INVALID_OFS && hofs + MAX_HISTORY > pos ==>
              hofs < pos && Tail(src, pos, hashed) == [Copy(pos - hofs, 2)] + []
    ensures pos + 2 == |src| && (hofs == INVALID_OFS || hofs + MAX_HISTORY <= pos) ==>
              Tail(src, pos, hashed) == [Literal(src[pos])] + ([Literal(src[pos + 1])] + [])
    ensures pos + 1 == |src| ==> Tail(src, pos, hashed) == [Literal(src[pos])] + []
    ensures pos == |src| ==> Tail(src, pos, hashed) == []
  {
  }

  /** The special cases at the end. */
  method PutTail(w: BitWriter, src: Input, bigEndian: bool, table: array<nat>, pos: nat, ghost hashed: nat)
    returns (ok: bool)
    requires hashed <= pos <= |src| <= pos + 2 && w.Valid()
    requires exists chain :: Underway(src, bigEndian, table[..], chain, w.stream, pos, hashed)
    modifies w, w.dst
    ensures ok ==> w.Valid() && OnTrack(src, w.stream, [])
    ensures !ok ==> 8 * w.dst.Length + 8 <= |Encode(Greedy(src, 0))|
  {
    ok := true;
    var hofs: nat := INVALID_OFS;
    if pos + 2 == |src| {
      hofs := table[Hash(src[pos], src[pos + 1], bigEndian)];
      assert hofs == table[..][Hash(src[pos], src[pos + 1], bigEndian)];
    }
    TailTokens(src, pos, hashed, hofs);
    if pos + 2 == |src| {
      if hofs != INVALID_OFS && hofs + MAX_HISTORY > pos {
        OnTrackStep(src, w.stream, Copy(pos - hofs, 2), []);
        ok := PutCopy(w, pos - hofs, 2);
      } else {
        ok := PutLiteralOnTrack(w, src, src[pos], [Literal(src[pos + 1])] + []);
        if ok {
          ok := PutLiteralOnTrack(w, src, src[pos + 1], []);
        }
      }
    } else if pos + 1 == |src| {
      ok := PutLiteralOnTrack(w, src, src[pos], []);
    }
  }

  /** The end marker, and with it the last whole byte of the stream. */
  method PutEnd(w: BitWriter) returns (ok: bool)
    requires w.Valid()
    modifies w, w.dst
    ensures ok ==> w.Valid() && w.stream == old(w.stream) + EndMarker()
    ensures !ok ==> 8 * w.dst.Length + 8 <= |old(w.stream)| + 16
  {
    FieldBounds();
    assert Shl(1, 15) == 2 * Shl(1, 14) && Shl(1, 16) == 2 * Shl(1, 15);
    ok := w.PutBits(16, 0xc000);
  }

  lemma WholeBytes(bytes: seq<Letter>, pending: seq<bool>, stream: seq<bool>)
    requires |pending| < 8 && Unpack(bytes) + pending == stream
    ensures Packed(bytes, stream)
  {
  }

  /** lzs_compress, into a buffer of dst.Length bytes. */
  method Compress(dst: array<Letter>, src: Input, bigEndian: bool) returns (r: Result)
    modifies dst
    ensures |src| > 0x1_0000 ==> r == BufferTooSmall
    ensures |src| <= 0x1_0000 ==>
              r == (if |Stream(Greedy(src, 0))| / 8 <= dst.Length then Done(|Stream(Greedy(src, 0))| / 8) else BufferTooSmall)
    ensures r.Done? ==> r.outlen <= dst.Length && Packed(dst[..r.outlen], Stream(Greedy(src, 0)))
  {
    if |src| > INVALID_OFS + 1 {
      return BufferTooSmall;
    }
    var chain := new nat[MAX_HISTORY];
    var table := new nat[HASH_TABLE_SIZE](_ => INVALID_OFS);
    var w := new BitWriter(dst);
    UnderwayAtStart(src, bigEndian, table[..], chain[..]);
    var ok, pos;
    ghost var hashed;
    ok, pos, hashed := PutMain(w, src, bigEndian, table, chain);
    if ok {
      ok := PutTail(w, src, bigEndian, table, pos, hashed);
    }
    if ok {
      OnTrackDone(src, w.stream);
      ok := PutEnd(w);
    }
    if !ok {
      return BufferTooSmall;
    }
    WholeBytes(dst[..w.outpos], Bits(w.outbits, w.nrOutbits), w.stream);
    return Done(w.outpos);
  }
}
