/** The match search of lzs_compress in src/lzs.c: a hash table of the last position of every pair of
    bytes, a ring of back links, and a walk along the links for the longest match. */
module LzsSearch {
  import opened Options
  import opened Words
  import opened LzsFormat
  import opened LzsGreedy

  // ----- the hash table and the ring of back links

  const HASH_TABLE_SIZE := 0x1_0000
  const INVALID_OFS := 0xffff

  /** HASH: the 16-bit value of two adjacent bytes, in either byte order. */
  function Hash(a: Letter, c: Letter, bigEndian: bool): (h: nat)
    ensures h < HASH_TABLE_SIZE
  {
    if bigEndian then 256 * a + c else a + 256 * c
  }

  lemma HashInjective(a: Letter, c: Letter, a': Letter, c': Letter, bigEndian: bool)
    requires Hash(a, c, bigEndian) == Hash(a', c', bigEndian)
    ensures a == a' && c == c'
  {
  }

  /** How a position, or the absence of one, is stored. */
  function Stored(q: Option<nat>): nat {
    if q.Some? then q.value else INVALID_OFS
  }

  /** The slot of the ring a position uses. */
  function Slot(q: nat): (s: nat)
    ensures s < MAX_HISTORY
  {
    q % MAX_HISTORY
  }

  lemma SlotsDiffer(q: nat, r: nat)
    requires q < r < q + MAX_HISTORY
    ensures Slot(q) != Slot(r)
  {
  }

  /** The previous position that holds the same two bytes as `q`. */
  function Previous(src: Input, q: nat): Option<nat>
    requires q + 1 < |src|
  {
    LastPair(src, src[q], src[q + 1], q)
  }

  /** For every pair of bytes the table holds its last position below `h`. */
  ghost predicate TableOk(src: Input, bigEndian: bool, table: seq<nat>, h: nat) {
    && |table| == HASH_TABLE_SIZE && (h == 0 || h < |src|)
    && forall a: Letter, c: Letter :: table[Hash(a, c, bigEndian)] == Stored(LastPair(src, a, c, h))
  }

  /** The slots of the last MAX_HISTORY positions below `h` hold their back links; the others, which
      may never have been written, say nothing. */
  ghost predicate ChainOk(src: Input, chain: seq<nat>, h: nat) {
    && |chain| == MAX_HISTORY && (h == 0 || h < |src|)
    && forall q | 0 <= q < h <= q + MAX_HISTORY :: chain[Slot(q)] == Stored(Previous(src, q))
  }

  lemma InsertTable(src: Input, bigEndian: bool, table: seq<nat>, h: nat)
    requires TableOk(src, bigEndian, table, h) && h + 1 < |src|
    ensures TableOk(src, bigEndian, table[Hash(src[h], src[h + 1], bigEndian) := h], h + 1)
  {
    var key := Hash(src[h], src[h + 1], bigEndian);
    var table' := table[key := h];
    forall a: Letter, c: Letter
      ensures table'[Hash(a, c, bigEndian)] == Stored(LastPair(src, a, c, h + 1))
    {
      if Hash(a, c, bigEndian) == key {
        HashInjective(a, c, src[h], src[h + 1], bigEndian);
      }
    }
  }

  lemma InsertChain(src: Input, chain: seq<nat>, h: nat, link: nat)
    requires ChainOk(src, chain, h) && h + 1 < |src| && link == Stored(Previous(src, h))
    ensures ChainOk(src, chain[Slot(h) := link], h + 1)
  {
    var chain' := chain[Slot(h) := link];
    forall q | 0 <= q < h + 1 <= q + MAX_HISTORY ensures chain'[Slot(q)] == Stored(Previous(src, q)) {
      if q < h {
        SlotsDiffer(q, h);
      }
    }
  }

  /** Enter position `pos`; the result is where its two bytes stood last. */
  method InsertHash(src: Input, bigEndian: bool, table: array<nat>, chain: array<nat>, pos: nat) returns (hofs: nat)
    requires pos + 1 < |src| && table != chain
    requires TableOk(src, bigEndian, table[..], pos) && ChainOk(src, chain[..], pos)
    modifies table, chain
    ensures TableOk(src, bigEndian, table[..], pos + 1) && ChainOk(src, chain[..], pos + 1)
    ensures hofs == Stored(Previous(src, pos))
  {
    ghost var table0, chain0 := table[..], chain[..];
    var hash := Hash(src[pos], src[pos + 1], bigEndian);
    hofs := table[hash];
    InsertTable(src, bigEndian, table0, pos);
    InsertChain(src, chain0, pos, hofs);
    chain[Slot(pos)] := hofs;
    table[hash] := pos;
    assert table[..] == table0[hash := pos] && chain[..] == chain0[Slot(pos) := hofs];
  }

  // ----- the walk along the back links

  /** The first `k` bytes of a match can be split off. */
  lemma {:induction false} MatchSplit(src: Input, q: nat, pos: nat, k: nat)
    requires q < pos <= |src| && k <= MatchLength(src, q, pos)
    ensures MatchLength(src, q, pos) == k + MatchLength(src, q + k, pos + k)
    decreases k
  {
    if k > 0 {
      MatchSplit(src, q + 1, pos + 1, k - 1);
    }
  }

  /** Positions that do not hold the same two bytes do not change the best match. */
  lemma {:induction false} SkipUnlike(src: Input, pos: nat, a: nat, b: nat)
    requires a <= b <= pos && pos + 1 < |src|
    requires forall r | a <= r < b :: src[r] != src[pos] || src[r + 1] != src[pos + 1]
    ensures Best(src, pos, a) == Best(src, pos, b)
    decreases b - a
  {
    if a < b {
      SkipUnlike(src, pos, a + 1, b);
      PairMatches(src, a, pos);
    }
  }

  /** Nothing between the last pair below `h` and `h` changes the best match. */
  lemma SkipToLast(src: Input, pos: nat, h: nat, from: nat)
    requires from <= h <= pos && pos + 1 < |src|
    requires var q := LastPair(src, src[pos], src[pos + 1], h); q.Some? ==> q.value < from
    ensures Best(src, pos, from) == Best(src, pos, h)
  {
    forall r | from <= r < h ensures src[r] != src[pos] || src[r + 1] != src[pos + 1] {
      if src[r] == src[pos] && src[r + 1] == src[pos + 1] {
        LastPairIsLast(src, src[pos], src[pos + 1], h, r);
      }
    }
    SkipUnlike(src, pos, from, h);
  }

  /** A match up to the end of the input cannot be improved on. */
  lemma {:induction false} BestAtEnd(src: Input, pos: nat, a: nat, b: nat)
    requires a <= b <= pos <= |src| && Best(src, pos, b).length + pos == |src|
    ensures Best(src, pos, a) == Best(src, pos, b)
    decreases b - a
  {
    if a < b {
      BestAtEnd(src, pos, a + 1, b);
    }
  }

  /** memcmp of the bytes after the first two: does the match go beyond `length`? */
  method LongerMatch(src: Input, hofs: nat, pos: nat, length: nat) returns (longer: bool)
    requires hofs < pos && 2 <= length && pos + length < |src| && 2 <= MatchLength(src, hofs, pos)
    ensures longer <==> length < MatchLength(src, hofs, pos)
  {
    var i := 0;
    while i < length - 1
      invariant 0 <= i <= length - 1 && 2 + i <= MatchLength(src, hofs, pos)
    {
      MatchSplit(src, hofs, pos, 2 + i);
      if src[hofs + 2 + i] != src[pos + 2 + i] {
        return false;
      }
      i := i + 1;
    }
    return true;
  }

  /** Extend a match that is known to go beyond `length0` to its full length. */
  method ExtendMatch(src: Input, hofs: nat, pos: nat, length0: nat) returns (length: nat)
    requires hofs < pos <= |src| && length0 < MatchLength(src, hofs, pos)
    ensures length == MatchLength(src, hofs, pos)
  {
    length := length0 + 1;
    MatchSplit(src, hofs, pos, length);
    while length + pos != |src| && src[length + pos] == src[length + hofs]
      invariant length <= MatchLength(src, hofs, pos)
      invariant MatchLength(src, hofs, pos) == length + MatchLength(src, hofs + length, pos + length)
      decreases |src| - length
    {
      length := length + 1;
    }
  }

  /** The state of the walk: everything from `seen` on has been considered, `hofs` comes next. */
  ghost predicate Walk(src: Input, pos: nat, seen: nat, hofs: nat, length: nat, start: nat) {
    && pos + 2 < |src| <= HASH_TABLE_SIZE && seen <= pos < seen + MAX_HISTORY
    && hofs == Stored(LastPair(src, src[pos], src[pos + 1], seen))
    && 2 <= length && pos + length < |src| && start < pos
    && (if seen == pos then length == 2 && start == hofs && hofs != INVALID_OFS
        else Best(src, pos, seen) == Match(length, start))
  }

  lemma WalkStep(src: Input, pos: nat, seen: nat, hofs: nat, length: nat, start: nat)
    requires Walk(src, pos, seen, hofs, length, start) && hofs != INVALID_OFS && hofs + MAX_HISTORY > pos
    ensures hofs < seen && hofs + 1 < |src| && src[hofs] == src[pos] && src[hofs + 1] == src[pos + 1]
    ensures var n := MatchLength(src, hofs, pos);
            2 <= n && Best(src, pos, hofs) == if n > length then Match(n, hofs) else Match(length, start)
  {
    SkipToLast(src, pos, seen, hofs + 1);
    PairMatches(src, hofs, pos);
  }

  lemma WalkOn(src: Input, pos: nat, hofs: nat, length: nat, start: nat)
    requires pos + 2 < |src| <= HASH_TABLE_SIZE && hofs < pos < hofs + MAX_HISTORY
    requires src[hofs] == src[pos] && src[hofs + 1] == src[pos + 1]
    requires Best(src, pos, hofs) == Match(length, start) && 2 <= length && length + pos < |src|
    ensures Walk(src, pos, hofs, Stored(Previous(src, hofs)), length, start)
  {
  }

  lemma WalkEnd(src: Input, pos: nat, seen: nat, hofs: nat, length: nat, start: nat)
    requires Walk(src, pos, seen, hofs, length, start) && seen < pos
    requires hofs == INVALID_OFS || hofs + MAX_HISTORY <= pos
    ensures Best(src, pos, WindowStart(pos)) == Match(length, start)
  {
    SkipToLast(src, pos, seen, WindowStart(pos));
  }

  /** No position in the window holds the same two bytes. */
  lemma NoMatch(src: Input, pos: nat, hofs: nat)
    requires pos + 2 < |src| <= HASH_TABLE_SIZE && hofs == Stored(Previous(src, pos))
    requires hofs == INVALID_OFS || hofs + MAX_HISTORY <= pos
    ensures NextToken(src, pos) == Literal(src[pos])
  {
    SkipToLast(src, pos, pos, WindowStart(pos));
  }

  /** One candidate: keep the better of it and the best so far. */
  method ConsiderMatch(src: Input, pos: nat, ghost seen: nat, hofs: nat, length0: nat, start0: nat)
    returns (length: nat, start: nat)
    requires Walk(src, pos, seen, hofs, length0, start0) && hofs != INVALID_OFS && hofs + MAX_HISTORY > pos
    ensures hofs < seen && Best(src, pos, hofs) == Match(length, start) && 2 <= length && start < pos
    ensures src[hofs] == src[pos] && src[hofs + 1] == src[pos + 1]
  {
    WalkStep(src, pos, seen, hofs, length0, start0);
    length, start := length0, start0;
    var longer := LongerMatch(src, hofs, pos, length);
    if longer {
      start := hofs;
      length := ExtendMatch(src, hofs, pos, length);
    }
  }

  /** The search loop: the longest match in the window, nearest on ties. */
  method FindMatch(src: Input, chain: array<nat>, pos: nat, hofs0: nat) returns (length: nat, start: nat)
    requires pos + 2 < |src| <= HASH_TABLE_SIZE && ChainOk(src, chain[..], pos + 1)
    requires hofs0 == Stored(Previous(src, pos)) && hofs0 != INVALID_OFS && hofs0 + MAX_HISTORY > pos
    ensures Best(src, pos, WindowStart(pos)) == Match(length, start) && 2 <= length && start < pos
  {
    length, start := 2, hofs0;
    var hofs: nat := hofs0;
    ghost var seen: nat := pos;
    while hofs != INVALID_OFS && hofs + MAX_HISTORY > pos
      invariant Walk(src, pos, seen, hofs, length, start)
      decreases seen
    {
      length, start := ConsiderMatch(src, pos, seen, hofs, length, start);
      if length + pos == |src| {
        BestAtEnd(src, pos, WindowStart(pos), hofs);
        return;
      }
      WalkOn(src, pos, hofs, length, start);
      seen := hofs;
      assert chain[Slot(hofs)] == chain[..][Slot(hofs)];
      hofs := chain[Slot(hofs)];
    }
    WalkEnd(src, pos, seen, hofs, length, start);
  }
}
