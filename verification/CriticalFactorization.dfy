/** The critical factorization of gl/str-two-way.h: the later of the two greatest suffixes cuts the
    needle so that every local repetition at the cut is a period of the whole needle. */
module CriticalFactorization {
  import opened Words

  /** The greatest suffix, stated on positions: every other suffix is beaten, or is a prefix. */
  ghost predicate Dominates(x: Word, s: int, rev: bool) {
    && 0 <= s < |x|
    && (forall t | 0 <= t < s :: Beats(x, s, t, rev))
    && (forall t | s < t < |x| :: Beats(x, s, t, rev) || Agree(x, s, t, |x| - t))
  }

  lemma DominatesIsGreatest(x: Word, s: int, rev: bool)
    requires 0 <= s < |x|
    ensures Dominates(x, s, rev) <==> GreatestSuffix(x, s, rev)
  {
    forall t | 0 <= t <= |x| && t != s
      ensures LexAtMost(x[t..], x[s..], rev) <==>
              Beats(x, s, t, rev) || (s < t && Agree(x, s, t, |x| - t))
    {
      SuffixOrder(x, s, t, rev);
    }
    assert LexAtMost(x[s..], x[s..], rev);
    assert Agree(x, s, |x|, 0);
    if GreatestSuffix(x, s, rev) {
      forall t | 0 <= t < |x| && t != s
        ensures Beats(x, s, t, rev) || (s < t && Agree(x, s, t, |x| - t))
      {
        assert LexAtMost(x[t..], x[s..], rev);
      }
    }
    if Dominates(x, s, rev) {
      forall t | 0 <= t <= |x| ensures LexAtMost(x[t..], x[s..], rev) {
        if t == s || t == |x| {
        } else if t < s {
          assert Beats(x, s, t, rev);
        } else {
          assert Beats(x, s, t, rev) || Agree(x, s, t, |x| - t);
        }
      }
    }
  }

  /** Over a repetition of `d` letters a difference shows up `d` letters later. */
  lemma RepetitionDelays(x: Word, s: int, d: int, m: int, rev: bool)
    requires LocalRepetition(x, s, d) && d <= s && BeatsAt(x, s, s - d, m, rev)
    ensures d <= m && BeatsAt(x, s + d, s, m - d, rev)
  {
    hide Agree;
    AgreeBounds(x, s, s - d, m);
    AgreeShorter(x, s, s - d, m, d);
  }

  /** A repetition at the start of the greatest suffix is longer than everything before it:
      otherwise the suffix `d` letters further on would be greater still. */
  lemma RepetitionIsLong(x: Word, s: int, d: int, rev: bool)
    requires Dominates(x, s, rev) && LocalRepetition(x, s, d)
    ensures s < d
  {
    hide Agree, LocalRepetition, Less;
    if d <= s {
      RepetitionNotEmpty(x, s, d);
      assert Beats(x, s, s - d, rev);
      var m :| BeatsAt(x, s, s - d, m, rev);
      RepetitionDelays(x, s, d, m, rev);
      AgreeBounds(x, s, s - d, m);
      if Beats(x, s, s + d, rev) {
        var k :| BeatsAt(x, s, s + d, k, rev);
        FirstDifference(x, s, s + d, k, m - d, rev);
      } else {
        FirstDifference(x, s + d, s, m - d, |x| - (s + d), rev);
      }
    }
  }

  lemma RepetitionNotEmpty(x: Word, s: int, d: int)
    requires LocalRepetition(x, s, d)
    ensures 1 <= d
  {
  }

  /** The letters just before the cut, read `d` further on. */
  lemma {:induction false} AgreeAcrossCut(x: Word, s: int, s': int, d: int, m: int)
    requires 0 <= s' <= s < d && LocalRepetition(x, s, d) && 0 <= m && Agree(x, s, s + d, m)
    ensures Agree(x, s', s' + d, s - s' + m)
    decreases m
  {
    if m > 0 {
      AgreeAcrossCut(x, s, s', d, m - 1);
    } else {
      AgreeBeforeCut(x, s, s', d, s - s');
    }
  }

  lemma {:induction false} AgreeBeforeCut(x: Word, s: int, s': int, d: int, m: int)
    requires 0 <= s' <= s < d && LocalRepetition(x, s, d) && 0 <= m <= s - s' && s + d <= |x|
    ensures Agree(x, s', s' + d, m)
    decreases m
  {
    if m > 0 {
      AgreeBeforeCut(x, s, s', d, m - 1);
    }
  }

  /** At the later of the two greatest suffixes every repetition extends to the right half. */
  lemma RepetitionExtends(x: Word, s: int, s': int, d: int, rev: bool)
    requires Dominates(x, s, rev) && Dominates(x, s', !rev) && s' <= s
    requires LocalRepetition(x, s, d) && s < d < |x| - s
    ensures Agree(x, s, s + d, |x| - (s + d))
  {
    hide Agree;
    if Beats(x, s, s + d, rev) {
      var m :| BeatsAt(x, s, s + d, m, rev);
      AgreeBounds(x, s, s + d, m);
      var k := s - s' + m;
      AgreeAcrossCut(x, s, s', d, m);
      AgreeSymmetric(x, s', s' + d, k);
      assert BeatsAt(x, s' + d, s', k, !rev);
      if Beats(x, s', s' + d, !rev) {
        var k' :| BeatsAt(x, s', s' + d, k', !rev);
        FirstDifference(x, s', s' + d, k', k, !rev);
      } else {
        FirstDifference(x, s' + d, s', k, |x| - (s' + d), !rev);
      }
    }
  }

  /** Every repetition at the cut is a period of the whole word, longer than the left half. */
  ghost predicate Critical(x: Word, cut: int) {
    && 0 <= cut < |x|
    && forall d | LocalRepetition(x, cut, d) :: cut < d && Period(x, d)
  }

  lemma CriticalFactorizationTheorem(x: Word, s: int, s': int, rev: bool)
    requires Dominates(x, s, rev) && Dominates(x, s', !rev) && s' <= s
    ensures Critical(x, s)
  {
    forall d | LocalRepetition(x, s, d)
      ensures s < d && Period(x, d)
    {
      RepetitionIsLong(x, s, d, rev);
      if d < |x| - s {
        RepetitionExtends(x, s, s', d, rev);
        forall i | s <= i < |x| - d ensures x[i] == x[i + d] {
          AgreeAt(x, s, s + d, |x| - (s + d), i - s);
        }
      }
    }
  }

  /** A critical cut: the local period there is the period of the whole word, and the left half is
      shorter than it. */
  lemma LocalPeriodIsGlobal(x: Word, cut: int, d: int)
    requires Critical(x, cut)
    ensures SmallestPeriod(x, d) <==> SmallestRepetition(x, cut, d)
    ensures SmallestPeriod(x, d) ==> cut < d
  {
    assert forall e | Period(x, e) :: LocalRepetition(x, cut, e);
    assert forall e | LocalRepetition(x, cut, e) :: Period(x, e);
    assert Period(x, |x|);
  }
}
