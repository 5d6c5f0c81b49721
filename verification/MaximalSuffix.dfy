/** The maximal-suffix scan of critical_factorization in gl/str-two-way.h. */
module MaximalSuffix {
  import opened Words
  import opened CriticalFactorization

  /** State of the scan: `s` starts the candidate suffix, `x[s..q]` has been read and is a power
      of its prefix of length `p` (possibly with a partial last copy). */
  ghost predicate Scan(x: Word, s: int, q: int, p: int, rev: bool) {
    && 0 <= s && 1 <= p && s + p <= q <= |x|
    && (forall t | 0 <= t < s :: Beats(x, s, t, rev))
    && Unbordered(x, s, s + p, rev)
    && Agree(x, s, s + p, q - s - p)
  }

  /** The suffix at `t` loses against the one at `s`, at a position before `end`. */
  ghost predicate LosesBefore(x: Word, s: int, t: int, end: int, rev: bool) {
    exists m :: BeatsAt(x, s, t, m, rev) && t + m < end
  }

  /** Inside `x[s..end]` every later suffix loses against the whole. */
  ghost predicate Unbordered(x: Word, s: int, end: int, rev: bool) {
    forall t | s < t < end :: LosesBefore(x, s, t, end, rev)
  }

  /** Either the suffix at `t` has already lost, or it still agrees with the candidate and the
      letter that would continue the period does not exceed the one the candidate has there. */
  lemma {:induction false} Compare(x: Word, s: int, q: int, p: int, t: int, rev: bool)
    requires Scan(x, s, q, p, rev) && s < t <= q
    ensures || LosesBefore(x, s, t, q, rev)
            || (Agree(x, s, t, q - t) && !Less(x[s + q - t], x[q - p], rev))
    decreases t
  {
    if t < s + p {
      assert LosesBefore(x, s, t, s + p, rev);
    } else if t > s + p {
      var t', e := t - p, q - t;
      Compare(x, s, q, p, t', rev);
      AgreeShorter(x, s, s + p, q - s - p, t' - s);
      if m :| BeatsAt(x, s, t', m, rev) && t' + m < q {
        if m < e {
          AgreeTransitive(x, s, t', t, m, e, m);
          AgreeAt(x, t', t, e, m);
          assert BeatsAt(x, s, t, m, rev);
        } else {
          AgreeTransitive(x, s, t', t, m, e, e);
          if e < m {
            AgreeAt(x, s, t', m, e);
          }
        }
      } else {
        AgreeTransitive(x, s, t', t, e + p, e, e);
        AgreeAt(x, s, t', e + p, e);
      }
    }
  }

  /** The letter read is smaller: the whole stretch read so far becomes the period. */
  lemma StepSmaller(x: Word, s: int, q: int, p: int, rev: bool)
    requires Scan(x, s, q, p, rev) && q < |x| && Less(x[q], x[q - p], rev)
    ensures Scan(x, s, q + 1, q + 1 - s, rev)
  {
    var end := q + 1;
    forall t | s < t < end ensures LosesBefore(x, s, t, end, rev) {
      Compare(x, s, q, p, t, rev);
      if !LosesBefore(x, s, t, q, rev) {
        assert BeatsAt(x, s, t, q - t, rev);
      }
    }
  }

  lemma BeatsTransitive(x: Word, a: int, b: int, c: int, m: int, k: int, rev: bool)
    requires BeatsAt(x, a, b, m, rev) && BeatsAt(x, b, c, k, rev)
    ensures Beats(x, a, c, rev)
  {
    var n := if m < k then m else k;
    AgreeTransitive(x, a, b, c, m, k, n);
    if m < k {
      AgreeAt(x, b, c, k, m);
    } else if k < m {
      AgreeAt(x, a, b, m, k);
    }
    assert BeatsAt(x, a, c, n, rev);
  }

  /** The letter read is larger: the copy being compared becomes the candidate. */
  lemma StepLarger(x: Word, s: int, q: int, p: int, s': int, k: int, rev: bool)
    requires Scan(x, s, q, p, rev) && q < |x|
    requires s < s' && 1 <= k && s' + k - 1 == q && Agree(x, s, s', k - 1)
    requires Less(x[s + k - 1], x[q], rev)
    ensures Scan(x, s', s' + 1, 1, rev)
  {
    AgreeSymmetric(x, s, s', k - 1);
    assert BeatsAt(x, s', s, k - 1, rev);
    forall t | 0 <= t < s' ensures Beats(x, s', t, rev) {
      if t < s {
        assert Beats(x, s, t, rev);
        var m :| BeatsAt(x, s, t, m, rev);
        BeatsTransitive(x, s', s, t, k - 1, m, rev);
      } else if t > s {
        Compare(x, s, q, p, t, rev);
        if m :| BeatsAt(x, s, t, m, rev) {
          BeatsTransitive(x, s', s, t, k - 1, m, rev);
        } else {
          AgreeTransitive(x, s', s, t, k - 1, q - t, k - 1);
          AgreeAt(x, s, t, q - t, k - 1);
          assert BeatsAt(x, s', t, k - 1, rev);
        }
      }
    }
  }

  /** When everything has been read the candidate is the greatest suffix and `p` its period. */
  lemma ScanComplete(x: Word, s: int, p: int, rev: bool)
    requires Scan(x, s, |x|, p, rev)
    ensures Dominates(x, s, rev) && SuffixPeriod(x, s, p)
  {
    forall t | s < t < |x| ensures Beats(x, s, t, rev) || Agree(x, s, t, |x| - t) {
      Compare(x, s, |x|, p, t, rev);
    }
    forall t | s < t < s + p ensures !Recurs(x, s, t) {
      assert LosesBefore(x, s, t, s + p, rev);
      var m :| BeatsAt(x, s, t, m, rev) && t + m < s + p;
      FirstDifference(x, s, t, m, |x| - t, rev);
    }
  }

  /** The loop invariant, in the variables of the source. */
  ghost predicate LoopState(x: Word, maxSuffix: int, j: int, k: int, p: int, rev: bool) {
    && -1 <= maxSuffix && maxSuffix + p <= j && 1 <= k <= p && j + k <= |x|
    && Scan(x, maxSuffix + 1, j + k, p, rev)
    && Agree(x, maxSuffix + 1, j + 1, k - 1)
    && Agree(x, maxSuffix + 1, j + 1 - p, k - 1 + p)
  }

  lemma LoopStart(x: Word, rev: bool)
    requires |x| >= 1
    ensures LoopState(x, -1, 0, 1, 1, rev)
  {
    AgreeSelf(x, 0, 1);
  }

  lemma LoopSmaller(x: Word, ms: int, j: int, k: int, p: int, rev: bool)
    requires LoopState(x, ms, j, k, p, rev) && j + k < |x| && Less(x[j + k], x[ms + k], rev)
    ensures LoopState(x, ms, j + k, 1, j + k - ms, rev)
  {
    AgreeAt(x, ms + 1, j + 1 - p, k - 1 + p, k - 1);
    StepSmaller(x, ms + 1, j + k, p, rev);
    AgreeSelf(x, ms + 1, j + k - ms);
  }

  lemma LoopEqual(x: Word, ms: int, j: int, k: int, p: int, rev: bool)
    requires LoopState(x, ms, j, k, p, rev) && j + k < |x| && x[j + k] == x[ms + k]
    ensures k < p ==> LoopState(x, ms, j, k + 1, p, rev)
    ensures k == p ==> LoopState(x, ms, j + p, 1, p, rev)
  {
    AgreeAt(x, ms + 1, j + 1 - p, k - 1 + p, k - 1);
    if ms + p < j {
      AgreeAt(x, ms + 1, ms + 1 + p, j + k - ms - 1 - p, k - 1);
    }
  }

  lemma LoopLarger(x: Word, ms: int, j: int, k: int, p: int, rev: bool)
    requires LoopState(x, ms, j, k, p, rev) && j + k < |x| && Less(x[ms + k], x[j + k], rev)
    ensures LoopState(x, j, j + 1, 1, 1, rev)
  {
    StepLarger(x, ms + 1, j + k, p, j + 1, k, rev);
    AgreeSelf(x, j + 1, 1);
  }

  /** The word the search sees: every byte canonicalised. */
  function Fold(canon: Byte -> Letter, b: seq<Byte>): (x: Word)
    ensures |x| == |b| && forall i | 0 <= i < |b| :: x[i] == canon(b[i])
  {
    seq(|b|, i requires 0 <= i < |b| => canon(b[i]))
  }

  /** One iteration of the scan: compare a letter of the suffix after `j` with the candidate. */
  method CompareLetters(needle: seq<Byte>, canon: Byte -> Letter, rev: bool, maxSuffix: int, j: nat, k: nat, p: nat)
    returns (maxSuffix': int, j': nat, k': nat, p': nat)
    requires LoopState(Fold(canon, needle), maxSuffix, j, k, p, rev) && j + k < |needle|
    ensures LoopState(Fold(canon, needle), maxSuffix', j', k', p', rev)
    ensures maxSuffix + j + k < maxSuffix' + j' + k'
  {
    hide Scan, Agree;
    ghost var x := Fold(canon, needle);
    var a := canon(needle[j + k]);
    var b := canon(needle[maxSuffix + k]);
    if Less(a, b, rev) {
      LoopSmaller(x, maxSuffix, j, k, p, rev);
      return maxSuffix, j + k, 1, j + k - maxSuffix;
    } else if a == b {
      LoopEqual(x, maxSuffix, j, k, p, rev);
      if k != p {
        return maxSuffix, j, k + 1, p;
      } else {
        return maxSuffix, j + p, 1, p;
      }
    } else {
      LoopLarger(x, maxSuffix, j, k, p, rev);
      return j, j + 1, 1, 1;
    }
  }

  /** One of the two scans; `maxSuffix` is the index before the greatest suffix, -1 for SIZE_MAX. */
  method ScanNeedle(needle: seq<Byte>, canon: Byte -> Letter, rev: bool)
    returns (maxSuffix: int, p: nat, ghost steps: nat)
    requires |needle| >= 1
    ensures -1 <= maxSuffix < |needle| - 1
    ensures Dominates(Fold(canon, needle), maxSuffix + 1, rev)
    ensures SuffixPeriod(Fold(canon, needle), maxSuffix + 1, p)
    ensures steps <= 2 * |needle|
  {
    ghost var x := Fold(canon, needle);
    maxSuffix, p, steps := -1, 1, 0;
    var j, k := 0, 1;
    LoopStart(x, rev);
    while j + k < |needle|
      invariant LoopState(x, maxSuffix, j, k, p, rev)
      invariant steps <= maxSuffix + j + k
      decreases 2 * |needle| - (maxSuffix + j + k)
    {
      maxSuffix, j, k, p := CompareLetters(needle, canon, rev, maxSuffix, j, k, p);
      steps := steps + 1;
    }
    ScanComplete(x, maxSuffix + 1, p, rev);
  }
}
