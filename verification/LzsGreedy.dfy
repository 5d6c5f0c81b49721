/** The parse lzs_compress of src/lzs.c produces, by brute force: at every position the longest match
    in the window, nearest on ties; and that this parse stands for the input. */
module LzsGreedy {
  import opened Options
  import opened Words
  import opened LzsFormat

  type Input = seq<Letter>

  /** How many bytes from `q` on equal those from `pos` on. */
  function MatchLength(src: Input, q: nat, pos: nat): (n: nat)
    requires q < pos <= |src|
    ensures pos + n <= |src|
    decreases |src| - pos
  {
    if pos < |src| && src[q] == src[pos] then 1 + MatchLength(src, q + 1, pos + 1) else 0
  }

  /** The farthest position a match may start at. */
  function WindowStart(pos: nat): (q: nat)
    ensures q <= pos
  {
    if pos < MAX_HISTORY then 0 else pos - MAX_HISTORY + 1
  }

  /** A match found: its length (1 stands for none) and where it starts. */
  datatype Match = Match(length: nat, start: nat)

  /** The best match among the starts from `q` up to `pos`. */
  function Best(src: Input, pos: nat, q: nat): (m: Match)
    requires q <= pos <= |src|
    ensures m.length == 1 || (q <= m.start < pos && m.length == MatchLength(src, m.start, pos) >= 2)
    decreases pos - q
  {
    if q == pos then Match(1, pos) else
    var near := Best(src, pos, q + 1);
    if MatchLength(src, q, pos) > near.length then Match(MatchLength(src, q, pos), q) else near
  }

  /** What best means: no match in the window is longer, and no nearer one is as long. */
  lemma {:induction false} BestIsLongestNearest(src: Input, pos: nat, q: nat, r: nat)
    requires q <= r < pos <= |src|
    ensures MatchLength(src, r, pos) <= Best(src, pos, q).length || MatchLength(src, r, pos) < 2
    ensures Best(src, pos, q).length >= 2 && Best(src, pos, q).start < r
            ==> MatchLength(src, r, pos) < Best(src, pos, q).length
    decreases pos - q
  {
    if q < r {
      BestIsLongestNearest(src, pos, q + 1, r);
    }
  }

  /** The last position before `h` where the two bytes `a`, `c` stand, if any. */
  function LastPair(src: Input, a: Letter, c: Letter, h: nat): (q: Option<nat>)
    requires h == 0 || h < |src|
    ensures q.Some? ==> q.value < h && src[q.value] == a && src[q.value + 1] == c
  {
    if h == 0 then None
    else if src[h - 1] == a && src[h] == c then Some(h - 1)
    else LastPair(src, a, c, h - 1)
  }

  lemma {:induction false} LastPairIsLast(src: Input, a: Letter, c: Letter, h: nat, r: nat)
    requires r < h < |src| && src[r] == a && src[r + 1] == c
    ensures LastPair(src, a, c, h).Some? && r <= LastPair(src, a, c, h).value
    decreases h
  {
    if r < h - 1 {
      LastPairIsLast(src, a, c, h - 1, r);
    }
  }

  /** The special cases at the end.  Only positions below `hashed` have been entered in the tables. */
  function Tail(src: Input, pos: nat, hashed: nat): seq<Token>
    requires hashed <= pos <= |src|
  {
    if pos + 2 == |src| then
      var q := LastPair(src, src[pos], src[pos + 1], hashed);
      if q.Some? && q.value + MAX_HISTORY > pos then [Copy(pos - q.value, 2)]
      else [Literal(src[pos]), Literal(src[pos + 1])]
    else if pos + 1 == |src| then [Literal(src[pos])]
    else []
  }

  /** The token for the byte at `pos` and those after it. */
  function NextToken(src: Input, pos: nat): Token
    requires pos < |src|
  {
    var m := Best(src, pos, WindowStart(pos));
    if m.length == 1 then Literal(src[pos]) else Copy(pos - m.start, m.length)
  }

  lemma NextTokenFits(src: Input, pos: nat)
    requires pos < |src|
    ensures 1 <= Size(NextToken(src, pos)) <= |src| - pos
  {
  }

  /** The tokens for the input from `pos` on. */
  function Greedy(src: Input, pos: nat): seq<Token>
    requires pos <= |src|
    decreases |src| - pos
  {
    if |src| <= pos + 2 then Tail(src, pos, pos) else
    NextTokenFits(src, pos);
    var t := NextToken(src, pos);
    var next := pos + Size(t);
    [t] + if |src| <= next + 2 then Tail(src, next, pos + 1) else Greedy(src, next)
  }

  /** Repeating a match reproduces the input. */
  lemma {:induction false} RepeatMatch(src: Input, q: nat, pos: nat, n: nat)
    requires q < pos && pos + n <= |src| && n <= MatchLength(src, q, pos)
    ensures Repeat(src[..pos], pos - q, n) == src[..pos + n]
    decreases n
  {
    if n > 0 {
      assert src[..pos] + [src[q]] == src[..pos + 1];
      RepeatMatch(src, q + 1, pos + 1, n - 1);
    }
  }

  lemma ApplyCopy(src: Input, q: nat, pos: nat, n: nat)
    requires q < pos < q + MAX_HISTORY && pos + n <= |src| <= 0x1_0000 && 2 <= n <= MatchLength(src, q, pos)
    ensures Applicable(Copy(pos - q, n), pos)
    ensures Apply(src[..pos], Copy(pos - q, n)) == src[..pos + n]
  {
    RepeatMatch(src, q, pos, n);
  }

  lemma ApplyLiteral(src: Input, pos: nat)
    requires pos < |src|
    ensures Apply(src[..pos], Literal(src[pos])) == src[..pos + 1]
  {
    assert src[..pos] + [src[pos]] == src[..pos + 1];
  }

  /** `ts` reproduces the rest of the input from `pos` on. */
  ghost predicate Reproduces(src: Input, pos: nat, ts: seq<Token>)
    requires pos <= |src|
  {
    AllApplicable(ts, pos) && Expand(src[..pos], ts) == src
  }

  lemma ReproducesStep(src: Input, pos: nat, t: Token, rest: seq<Token>)
    requires pos <= |src| && Applicable(t, pos) && pos + Size(t) <= |src|
    requires Apply(src[..pos], t) == src[..pos + Size(t)]
    requires Reproduces(src, pos + Size(t), rest)
    ensures Reproduces(src, pos, [t] + rest)
  {
    assert ([t] + rest)[0] == t && ([t] + rest)[1..] == rest;
  }

  lemma LiteralReproduces(src: Input, pos: nat, rest: seq<Token>)
    requires pos < |src| && Reproduces(src, pos + 1, rest)
    ensures Reproduces(src, pos, [Literal(src[pos])] + rest)
  {
    hide Reproduces, Apply;
    ApplyLiteral(src, pos);
    ReproducesStep(src, pos, Literal(src[pos]), rest);
  }

  lemma NothingReproduces(src: Input)
    ensures Reproduces(src, |src|, [])
  {
    assert src[..|src|] == src;
  }

  lemma PairMatches(src: Input, q: nat, pos: nat)
    requires q < pos && pos + 1 < |src|
    ensures src[q] == src[pos] && src[q + 1] == src[pos + 1] <==> 2 <= MatchLength(src, q, pos)
  {
    assert MatchLength(src, q, pos) == if src[q] == src[pos] then 1 + MatchLength(src, q + 1, pos + 1) else 0;
  }

  lemma TailReproduces(src: Input, pos: nat, hashed: nat)
    requires hashed <= pos <= |src| <= pos + 2 && |src| <= 0x1_0000
    ensures Reproduces(src, pos, Tail(src, pos, hashed))
  {
    hide Reproduces, Apply, Applicable, MatchLength;
    var n := |src|;
    NothingReproduces(src);
    if pos + 1 == n {
      LiteralReproduces(src, pos, []);
      assert Tail(src, pos, hashed) == [Literal(src[pos])] + [];
    } else if pos + 2 == n {
      var q := LastPair(src, src[pos], src[pos + 1], hashed);
      if q.Some? && q.value + MAX_HISTORY > pos {
        PairMatches(src, q.value, pos);
        ApplyCopy(src, q.value, pos, 2);
        ReproducesStep(src, pos, Copy(pos - q.value, 2), []);
        assert Tail(src, pos, hashed) == [Copy(pos - q.value, 2)] + [];
      } else {
        LiteralReproduces(src, pos + 1, []);
        LiteralReproduces(src, pos, [Literal(src[pos + 1])] + []);
        assert Tail(src, pos, hashed) == [Literal(src[pos])] + ([Literal(src[pos + 1])] + []);
      }
    }
  }

  lemma NextTokenApplies(src: Input, pos: nat)
    requires pos < |src| <= 0x1_0000
    ensures var t := NextToken(src, pos);
            pos + Size(t) <= |src| && Applicable(t, pos) && Apply(src[..pos], t) == src[..pos + Size(t)]
  {
    var m := Best(src, pos, WindowStart(pos));
    if m.length == 1 {
      ApplyLiteral(src, pos);
    } else {
      ApplyCopy(src, m.start, pos, m.length);
    }
  }

  /** The parse stands for the input. */
  lemma {:induction false} GreedyReproduces(src: Input, pos: nat)
    requires pos <= |src| <= 0x1_0000
    ensures Reproduces(src, pos, Greedy(src, pos))
    decreases |src| - pos
  {
    hide Reproduces, Apply, Applicable, Tail, NextToken;
    if |src| <= pos + 2 {
      TailReproduces(src, pos, pos);
    } else {
      NextTokenFits(src, pos);
      NextTokenApplies(src, pos);
      var t := NextToken(src, pos);
      var next := pos + Size(t);
      if |src| <= next + 2 {
        TailReproduces(src, next, pos + 1);
        ReproducesStep(src, pos, t, Tail(src, next, pos + 1));
      } else {
        GreedyReproduces(src, next);
        ReproducesStep(src, pos, t, Greedy(src, next));
      }
    }
  }
}
