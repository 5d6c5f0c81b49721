/** What the two halves of src/lzs.c promise together. */
module LzsRoundTrip {
  import opened Words
  import opened LzsBits
  import opened LzsFormat
  import opened LzsGreedy
  import opened LzsDecoder
  import opened LzsEncoder

  /** The first 9 bits of the end marker already end the stream; the other 7 are padding, so dropping
      the bits that do not fill a byte does not reach them. */
  lemma PackedHoldsMarker(bytes: seq<Letter>, ts: seq<Token>)
    requires Packed(bytes, Stream(ts))
    ensures At(Unpack(bytes), 0, Encode(ts) + Bits(0x180, 9))
  {
    var body, marker := Encode(ts), Bits(0x180, 9);
    assert Shr(0xc000, 7) == 0x180;
    BitsShr(0xc000, 9, 7);
    AppendAssociative(body, marker, Bits(0xc000, 7));
    var b, u := Unpack(bytes), body + marker;
    assert Stream(ts) == u + Bits(0xc000, 7);
    assert b[..|u|] == Stream(ts)[..|u|] == u;
    AtIsSlice(b, 0, u);
  }

  lemma DecodePacked(bytes: seq<Letter>, ts: seq<Token>, buf: seq<Letter>)
    requires AllApplicable(ts, 0) && Packed(bytes, Stream(ts)) && |Expand([], ts)| <= |buf|
    ensures var out, r := Expand([], ts), Decode(Unpack(bytes), 0, buf, 0);
            r.0 == Done(|out|) && r.1 == out + buf[|out|..]
  {
    hide *;
    PackedHoldsMarker(bytes, ts);
    DecodeWritten(Unpack(bytes), ts, buf);
    var out, r := Expand([], ts), Decode(Unpack(bytes), 0, buf, 0);
    assert r.1 == r.1[..|out|] + r.1[|out|..];
  }

  /** Decompressing what the compressor wrote for `src` gives `src` back, and leaves the rest of the
      output buffer alone. */
  lemma RoundTrip(src: Input, bytes: seq<Letter>, buf: seq<Letter>)
    requires |src| <= 0x1_0000 && Packed(bytes, Stream(Greedy(src, 0))) && |src| <= |buf|
    ensures var r := Decode(Unpack(bytes), 0, buf, 0);
            r.0 == Done(|src|) && r.1 == src + buf[|src|..]
  {
    hide Decode, Packed, Stream, Greedy, Unpack, At;
    GreedyReproduces(src, 0);
    assert src[..0] == [];
    DecodePacked(bytes, Greedy(src, 0), buf);
  }

  /** The output is at most (9n + 16) / 8 bytes long, so a buffer of that size is never too small. */
  lemma SizeBound(src: Input)
    requires |src| <= 0x1_0000
    ensures |Stream(Greedy(src, 0))| <= 9 * |src| + 16
    ensures |Stream(Greedy(src, 0))| / 8 <= (9 * |src| + 16) / 8
  {
    var ts := Greedy(src, 0);
    GreedyReproduces(src, 0);
    assert src[..0] == [];
    EncodableTokens(ts, 0);
    EncodeBound(ts);
    ExpandSize([], ts);
  }

  /** Compressing into `packed` and decompressing what was written into `dst`: with room for 9/8 of the
      input and two bytes, and for the input, this gives the input back. */
  method ThereAndBack(src: Input, packed: array<Letter>, dst: array<Letter>, bigEndian: bool) returns (sent: Result, got: Result)
    requires |src| <= 0x1_0000 && packed != dst
    modifies packed, dst
    ensures (9 * |src| + 16) / 8 <= packed.Length ==> sent.Done?
    ensures sent.Done? ==> 8 * sent.outlen <= 9 * |src| + 16
    ensures sent.Done? && |src| <= dst.Length ==>
              got == Done(|src|) && dst[..|src|] == src && dst[|src|..] == old(dst[|src|..])
    ensures !sent.Done? ==> got == sent && dst[..] == old(dst[..])
  {
    hide Decode, Stream, Greedy, Unpack, Packed;
    SizeBound(src);
    sent := Compress(packed, src, bigEndian);
    got := sent;
    if sent.Done? {
      var bytes := packed[..sent.outlen];
      ghost var buf := dst[..];
      got := Decompress(dst, bytes);
      if |src| <= |buf| {
        RoundTrip(src, bytes, buf);
        assert dst[..] == src + buf[|src|..];
      }
    }
  }

  /** The two bytes at `pos` stand at `q` as well. */
  predicate PairAt(src: Input, q: nat, pos: nat)
    requires q < pos && pos + 1 < |src|
  {
    src[q] == src[pos] && src[q + 1] == src[pos + 1]
  }

  /** The main loop emits a literal exactly when the pair at `pos` stands nowhere in the previous 2047
      positions; otherwise a copy that no match there beats, and no nearer one equals. */
  lemma NextTokenIsBest(src: Input, pos: nat)
    requires pos + 1 < |src|
    ensures NextToken(src, pos) == Literal(src[pos])
            <==> forall q | WindowStart(pos) <= q < pos :: !PairAt(src, q, pos)
    ensures var t := NextToken(src, pos);
            t.Copy? ==> 1 <= t.offset <= pos && t.offset < MAX_HISTORY
                        && t.length == MatchLength(src, pos - t.offset, pos)
                        && forall q | WindowStart(pos) <= q < pos ::
                             MatchLength(src, q, pos) <= t.length
                             && (pos - t.offset < q ==> MatchLength(src, q, pos) < t.length)
  {
    var m := Best(src, pos, WindowStart(pos));
    forall q | WindowStart(pos) <= q < pos
      ensures PairAt(src, q, pos) <==> 2 <= MatchLength(src, q, pos)
      ensures MatchLength(src, q, pos) <= m.length || MatchLength(src, q, pos) < 2
      ensures m.length >= 2 && m.start < q ==> MatchLength(src, q, pos) < m.length
    {
      BestIsLongestNearest(src, pos, WindowStart(pos), q);
      assert MatchLength(src, q, pos) == if src[q] == src[pos] then 1 + MatchLength(src, q + 1, pos + 1) else 0;
    }
    if m.length >= 2 {
      assert PairAt(src, m.start, pos);
    }
  }

  /** No copy in the stream reaches back by 0, which would take over what the buffer happened to hold. */
  predicate NoZeroOffset(b: seq<bool>, p: nat)
    decreases |b| - p
  {
    match ParseToken(b, p)
    case Item(t, next) => (t.Copy? ==> t.offset > 0) && NoZeroOffset(b, next)
    case _ => true
  }

  lemma StoreDeterminate(buf: seq<Letter>, buf': seq<Letter>, n: nat, t: Token)
    requires |buf| == |buf'| && n + Size(t) <= |buf| && (t.Copy? ==> 1 <= t.offset <= n) && buf[..n] == buf'[..n]
    ensures Store(buf, n, t)[..n + Size(t)] == Store(buf', n, t)[..n + Size(t)]
  {
    if t.Copy? {
      CopyIsRepeat(buf, n, t.offset, t.length);
      CopyIsRepeat(buf', n, t.offset, t.length);
    } else {
      assert buf[n := t.byte][..n + 1] == buf[..n] + [t.byte];
      assert buf'[n := t.byte][..n + 1] == buf'[..n] + [t.byte];
    }
  }

  /** On any stream without such a copy, valid or not, the result and the bytes put out do not depend
      on what the output buffer held before. */
  lemma {:induction false} DecodeDeterminate(b: seq<bool>, p: nat, buf: seq<Letter>, buf': seq<Letter>, n: nat)
    requires |buf| == |buf'| && n <= |buf| && buf[..n] == buf'[..n] && NoZeroOffset(b, p)
    ensures var r, r' := Decode(b, p, buf, n), Decode(b, p, buf', n);
      r.0 == r'.0 && (r.0.Done? ==> r.0.outlen <= |buf| && r.1[..r.0.outlen] == r'.1[..r.0.outlen])
    decreases |b| - p
  {
    hide ParseToken, Store;
    var parsed := ParseToken(b, p);
    if parsed.Item? {
      var t := parsed.token;
      if (t.Copy? ==> t.offset <= n) && n + Size(t) <= |buf| {
        StoreDeterminate(buf, buf', n, t);
        DecodeDeterminate(b, parsed.next, Store(buf, n, t), Store(buf', n, t), n + Size(t));
      }
    }
  }
}
