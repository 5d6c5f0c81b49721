/** lzs_decompress of src/lzs.c. */
module LzsDecoder {
  import opened Options
  import opened Words
  import opened LzsBits
  import opened LzsFormat

  /** Where the next bit is: in byte `i`, which has `bitsLeft` unread bits. */
  function BitPosition(i: nat, bitsLeft: nat): nat
    requires bitsLeft <= 8
  {
    8 * i + 8 - bitsLeft
  }

  lemma {:induction false} MaskShl(x: nat, k: nat, n: nat)
    ensures Mask(Shl(x, n), k + n) == Shl(Mask(x, k), n)
    decreases n
  {
    if n > 0 {
      MaskShl(x, k, n - 1);
      assert Shl(x, n) / 2 == Shl(x, n - 1) && Shl(x, n) % 2 == 0;
    }
  }

  /** All the wanted bits are in the current byte. */
  lemma BitsWithin(src: seq<Letter>, i: nat, left: nat, bits: nat)
    requires i < |src| && 1 <= bits <= left <= 8
    ensures Value(Unpack(src), BitPosition(i, left), bits) == Mask(Shr(src[i], left - bits), bits)
  {
    var b, p, x := Unpack(src), BitPosition(i, left), Shr(src[i], left - bits);
    UnpackTail(src, i, left);
    BitsShr(src[i], bits, left - bits);
    SlicePrefix(b, p, bits, left);
    BitsMask(x, bits, bits);
    MaskBound(x, bits);
    ValueOfBits(b, p, Mask(x, bits), bits);
  }

  /** The wanted bits are the rest of the current byte and some of the next. */
  lemma BitsAcross(src: seq<Letter>, i: nat, left: nat, bits: nat)
    requires i + 1 < |src| && 1 <= left < bits <= left + 8 <= 16
    ensures Value(Unpack(src), BitPosition(i, left), bits)
         == Mask(Shl(src[i], bits - left), bits) + Shr(src[i + 1], left + 8 - bits)
  {
    hide Bits, Value, Unpack, Shl, Shr, Mask;
    var b, p, n := Unpack(src), BitPosition(i, left), bits - left;
    var x, v := Mask(src[i], left), Shr(src[i + 1], 8 - n);
    UnpackTail(src, i, left);
    UnpackHead(src, i + 1, n);
    SlicePrefix(b, p, left, bits);
    MaskShl(src[i], left, n);
    ByteBound();
    ShrBound(src[i + 1], 8 - n, n);
    MaskBound(src[i], left);
    BitsMask(src[i], left, left);
    BitsShl(x, left, v, n);
    ShlBound(x, n, v, left);
    ValueOfBits(b, p, Shl(x, n) + v, bits);
  }

  /** GET_BITS: the next `bits` bits, or a refusal when fewer than two bytes are left. */
  method GetBits(src: seq<Letter>, i: nat, bitsLeft: nat, bits: nat)
    returns (ok: bool, data: nat, i': nat, bitsLeft': nat)
    requires i <= |src| && 1 <= bitsLeft <= 8 && 1 <= bits <= 9
    ensures ok <==> Readable(Unpack(src), BitPosition(i, bitsLeft))
    ensures i' <= |src| && 1 <= bitsLeft' <= 8
    ensures ok ==> BitPosition(i', bitsLeft') == BitPosition(i, bitsLeft) + bits <= 8 * |src|
    ensures ok ==> data == Value(Unpack(src), BitPosition(i, bitsLeft), bits)
  {
    if |src| - i < 2 {
      return false, 0, i, bitsLeft;
    }
    ok, i', bitsLeft' := true, i, bitsLeft;
    if bits >= 8 || bits >= bitsLeft {
      data := Mask(Shl(src[i'], bits - bitsLeft'), bits);
      i' := i' + 1;
      bitsLeft' := bitsLeft' + 8 - bits;
      if bits > 8 || bitsLeft' < 8 {
        BitsAcross(src, i, bitsLeft, bits);
        data := data + Shr(src[i'], bitsLeft');
        if bits > 8 && bitsLeft' == 0 {
          bitsLeft' := 8;
          i' := i' + 1;
        }
      } else {
        BitsWithin(src, i, bitsLeft, bits);
      }
    } else {
      BitsWithin(src, i, bitsLeft, bits);
      data := Mask(Shr(src[i], bitsLeft - bits), bits);
      bitsLeft' := bitsLeft - bits;
    }
  }

  /** The length nibbles of a match; `length` wraps as a 16-bit variable does. */
  method GetNibbles(src: seq<Letter>, i0: nat, left0: nat, length0: nat)
    returns (ok: bool, length: nat, i: nat, bitsLeft: nat)
    requires i0 <= |src| && 1 <= left0 <= 8
    ensures i <= |src| && 1 <= bitsLeft <= 8
    ensures var r := ParseNibbles(Unpack(src), BitPosition(i0, left0), length0);
            if ok then r == Some((length, BitPosition(i, bitsLeft))) else r == None
  {
    ghost var b := Unpack(src);
    var data;
    i, bitsLeft, length := i0, left0, length0;
    while true
      invariant i <= |src| && 1 <= bitsLeft <= 8
      invariant ParseNibbles(b, BitPosition(i, bitsLeft), length) == ParseNibbles(b, BitPosition(i0, left0), length0)
      decreases 8 * |src| + 8 - BitPosition(i, bitsLeft)
    {
      ok, data, i, bitsLeft := GetBits(src, i, bitsLeft, 4);
      if !ok {
        return;
      }
      if data != 15 {
        length := (length + data) % 0x1_0000;
        return;
      }
      length := (length + 15) % 0x1_0000;
    }
  }

  method GetLength(src: seq<Letter>, i0: nat, left0: nat)
    returns (ok: bool, length: nat, i: nat, bitsLeft: nat)
    requires i0 <= |src| && 1 <= left0 <= 8
    ensures i <= |src| && 1 <= bitsLeft <= 8
    ensures var r := ParseLength(Unpack(src), BitPosition(i0, left0));
            if ok then r == Some((length, BitPosition(i, bitsLeft))) else r == None
  {
    var data;
    length := 0;
    ok, data, i, bitsLeft := GetBits(src, i0, left0, 2);
    if !ok {
      return;
    }
    if data != 3 {
      length := data + 2;
      return;
    }
    ok, data, i, bitsLeft := GetBits(src, i, bitsLeft, 2);
    if !ok {
      return;
    }
    if data != 3 {
      length := data + 5;
    } else {
      ok, length, i, bitsLeft := GetNibbles(src, i, bitsLeft, 8);
    }
  }

  /** The offset of a match, from the 9 bits already read and, for a long one, 4 more. */
  method GetOffset(src: seq<Letter>, i0: nat, left0: nat, data0: nat)
    returns (ok: bool, offset: nat, i: nat, bitsLeft: nat)
    requires i0 <= |src| && 1 <= left0 <= 8
    ensures i <= |src| && 1 <= bitsLeft <= 8
    ensures var r := ParseOffset(Unpack(src), BitPosition(i0, left0), data0);
            if ok then r == Some((offset, BitPosition(i, bitsLeft))) else r == None
  {
    var data;
    ok, offset, i, bitsLeft := true, data0 % 128, i0, left0;
    if data0 < 0x180 {
      ok, data, i, bitsLeft := GetBits(src, i, bitsLeft, 4);
      if ok {
        offset := 16 * offset + data;
      }
    }
  }

  /** The copy loop of a match. */
  method CopyMatch(dst: array<Letter>, outlen0: nat, offset: nat, length0: nat) returns (outlen: nat)
    requires offset <= outlen0 && outlen0 + length0 <= dst.Length
    modifies dst
    ensures outlen == outlen0 + length0
    ensures dst[..] == CopyBytes(old(dst[..]), outlen0, offset, length0)
  {
    var length := length0;
    outlen := outlen0;
    while length > 0
      invariant offset <= outlen && outlen + length == outlen0 + length0
      invariant CopyBytes(dst[..], outlen, offset, length) == CopyBytes(old(dst[..]), outlen0, offset, length0)
    {
      ghost var buf := dst[..];
      dst[outlen] := dst[outlen - offset];
      assert dst[..] == buf[outlen := buf[outlen - offset]];
      outlen := outlen + 1;
      length := length - 1;
    }
  }

  lemma DecodeTruncated(b: seq<bool>, p: nat, buf: seq<Letter>, outlen: nat)
    requires outlen <= |buf| && !Readable(b, p)
    ensures Decode(b, p, buf, outlen) == (InvalidStream, buf)
  {
  }

  lemma DecodeLiteral(b: seq<bool>, p: nat, buf: seq<Letter>, outlen: nat, c: Letter)
    requires outlen <= |buf| && Readable(b, p) && Value(b, p, 9) == c
    ensures outlen == |buf| ==> Decode(b, p, buf, outlen) == (BufferTooSmall, buf)
    ensures outlen < |buf| ==> Decode(b, p, buf, outlen) == Decode(b, p + 9, buf[outlen := c], outlen + 1)
  {
  }

  lemma DecodeEnd(b: seq<bool>, p: nat, buf: seq<Letter>, outlen: nat)
    requires outlen <= |buf| && Readable(b, p) && Value(b, p, 9) == 0x180
    ensures Decode(b, p, buf, outlen) == (Done(outlen), buf)
  {
  }

  /** The step for a match. */
  lemma DecodeMatch(b: seq<bool>, p: nat, buf: seq<Letter>, outlen: nat)
    requires outlen <= |buf| && Readable(b, p) && AtMatch(b, p, Value(b, p, 9))
    ensures var o := ParseOffset(b, p + 9, Value(b, p, 9));
      if o.None? || ParseLength(b, o.value.1).None? then Decode(b, p, buf, outlen) == (InvalidStream, buf)
      else
        var l := ParseLength(b, o.value.1).value;
        Decode(b, p, buf, outlen) ==
          if o.value.0 > outlen then (InvalidStream, buf)
          else if l.0 + outlen > |buf| then (BufferTooSmall, buf)
          else Decode(b, l.1, CopyBytes(buf, outlen, o.value.0, l.0), outlen + l.0)
  {
  }

  /** Take literals up to the first 9 bits that are not one, or until decoding stops. */
  method TakeLiterals(dst: array<Letter>, src: seq<Letter>, i0: nat, left0: nat, outlen0: nat)
    returns (stop: Option<Result>, data: nat, i: nat, bitsLeft: nat, outlen: nat)
    requires i0 <= |src| && 1 <= left0 <= 8 && outlen0 <= dst.Length
    modifies dst
    ensures i <= |src| && 1 <= bitsLeft <= 8 && outlen <= dst.Length
    ensures var b, p0 := Unpack(src), BitPosition(i0, left0);
            var goal := Decode(b, p0, old(dst[..]), outlen0);
            if stop.Some? then (stop.value, dst[..]) == goal
            else BitPosition(i, bitsLeft) >= p0 + 9 && AtMatch(b, BitPosition(i, bitsLeft) - 9, data)
                 && Decode(b, BitPosition(i, bitsLeft) - 9, dst[..], outlen) == goal
  {
    hide Decode, Value, Unpack;
    ghost var b, p := Unpack(src), BitPosition(i0, left0);
    ghost var goal := Decode(b, p, dst[..], outlen0);
    var ok;
    outlen := outlen0;
    ok, data, i, bitsLeft := GetBits(src, i0, left0, 9);
    if !ok {
      DecodeTruncated(b, p, dst[..], outlen);
      return Some(InvalidStream), data, i, bitsLeft, outlen;
    }
    while data < 0x100
      invariant outlen <= dst.Length && i <= |src| && 1 <= bitsLeft <= 8
      invariant BitPosition(i0, left0) + 9 <= BitPosition(i, bitsLeft) == p + 9 <= 8 * |src|
      invariant Readable(b, p) && data == Value(b, p, 9)
      invariant Decode(b, p, dst[..], outlen) == goal
      decreases 8 * |src| + 8 - BitPosition(i, bitsLeft)
    {
      DecodeLiteral(b, p, dst[..], outlen, data);
      if outlen == dst.Length {
        return Some(BufferTooSmall), data, i, bitsLeft, outlen;
      }
      ghost var buf := dst[..];
      dst[outlen] := data;
      assert dst[..] == buf[outlen := dst[outlen]];
      outlen := outlen + 1;
      p := BitPosition(i, bitsLeft);
      ok, data, i, bitsLeft := GetBits(src, i, bitsLeft, 9);
      if !ok {
        DecodeTruncated(b, p, dst[..], outlen);
        return Some(InvalidStream), data, i, bitsLeft, outlen;
      }
    }
    stop := None;
    if data == 0x180 {
      DecodeEnd(b, p, dst[..], outlen);
      stop := Some(Done(outlen));
    }
  }

  /** The 9 bits at `p` can be read and announce a match. */
  ghost predicate AtMatch(b: seq<bool>, p: nat, data: nat) {
    Readable(b, p) && data == Value(b, p, 9) && 0x100 <= data != 0x180
  }

  /** Take a match whose first 9 bits have been read. */
  method TakeMatch(dst: array<Letter>, src: seq<Letter>, data: nat, i0: nat, left0: nat, outlen0: nat)
    returns (stop: Option<Result>, i: nat, bitsLeft: nat, outlen: nat)
    requires i0 <= |src| && 1 <= left0 <= 8 && outlen0 <= dst.Length
    requires BitPosition(i0, left0) >= 9 && AtMatch(Unpack(src), BitPosition(i0, left0) - 9, data)
    modifies dst
    ensures i <= |src| && 1 <= bitsLeft <= 8 && outlen <= dst.Length
    ensures var b := Unpack(src);
            var goal := Decode(b, BitPosition(i0, left0) - 9, old(dst[..]), outlen0);
            if stop.Some? then (stop.value, dst[..]) == goal
            else BitPosition(i, bitsLeft) > BitPosition(i0, left0)
                 && Decode(b, BitPosition(i, bitsLeft), dst[..], outlen) == goal
  {
    hide Decode, Value, Unpack, ParseOffset, ParseLength, CopyBytes;
    var ok, offset, length;
    DecodeMatch(Unpack(src), BitPosition(i0, left0) - 9, dst[..], outlen0);
    outlen := outlen0;
    ok, offset, i, bitsLeft := GetOffset(src, i0, left0, data);
    if !ok {
      return Some(InvalidStream), i, bitsLeft, outlen;
    }
    ok, length, i, bitsLeft := GetLength(src, i, bitsLeft);
    if !ok {
      return Some(InvalidStream), i, bitsLeft, outlen;
    }
    if offset > outlen {
      return Some(InvalidStream), i, bitsLeft, outlen;
    }
    if length + outlen > dst.Length {
      return Some(BufferTooSmall), i, bitsLeft, outlen;
    }
    outlen := CopyMatch(dst, outlen, offset, length);
    stop := None;
  }

  /** lzs_decompress, into a buffer of dst.Length bytes. */
  method Decompress(dst: array<Letter>, src: seq<Letter>) returns (r: Result)
    modifies dst
    ensures (r, dst[..]) == Decode(Unpack(src), 0, old(dst[..]), 0)
  {
    ghost var b := Unpack(src);
    ghost var goal := Decode(b, 0, dst[..], 0);
    var outlen: nat, i: nat, bitsLeft: nat := 0, 0, 8;
    var stop, data;
    while true
      invariant outlen <= dst.Length && i <= |src| && 1 <= bitsLeft <= 8
      invariant Decode(b, BitPosition(i, bitsLeft), dst[..], outlen) == goal
      decreases 8 * |src| + 8 - BitPosition(i, bitsLeft)
    {
      stop, data, i, bitsLeft, outlen := TakeLiterals(dst, src, i, bitsLeft, outlen);
      if stop.Some? {
        return stop.value;
      }
      stop, i, bitsLeft, outlen := TakeMatch(dst, src, data, i, bitsLeft, outlen);
      if stop.Some? {
        return stop.value;
      }
    }
  }
}
