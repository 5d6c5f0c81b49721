/** The Two-Way substring search of gl/str-two-way.h: correctness of every shift it makes. */
module TwoWay {
  import opened Words

  /** `x[a..b]` is what the text holds at those offsets of the window at `j`. */
  ghost predicate Matches(h: Word, x: Word, j: int, a: int, b: int)
    decreases b - a
  {
    && 0 <= a <= b <= |x| && 0 <= j && j + b <= |h|
    && (a == b || (h[j + b - 1] == x[b - 1] && Matches(h, x, j, a, b - 1)))
  }

  /** The whole of `x` stands in `h` at `j`, letter by letter. */
  ghost predicate Stands(h: Word, x: Word, j: int) {
    Matches(h, x, j, 0, |x|)
  }

  /** The specification: the part of `h` at `j` is `x`. */
  ghost predicate OccursAt(h: Word, x: Word, j: int) {
    0 <= j && j + |x| <= |h| && h[j..j + |x|] == x
  }

  lemma {:induction false} MatchAt(h: Word, x: Word, j: int, a: int, b: int, k: int)
    requires Matches(h, x, j, a, b) && a <= k < b
    ensures h[j + k] == x[k]
    decreases b - a
  {
    if k < b - 1 {
      MatchAt(h, x, j, a, b - 1, k);
    }
  }

  lemma {:induction false} MatchPart(h: Word, x: Word, j: int, a: int, b: int, a': int, b': int)
    requires Matches(h, x, j, a, b) && a <= a' <= b' <= b
    ensures Matches(h, x, j, a', b')
    decreases b - a
  {
    if a' < b' {
      if b' < b {
        MatchPart(h, x, j, a, b - 1, a', b');
      } else {
        MatchPart(h, x, j, a, b - 1, a', b' - 1);
      }
    }
  }

  lemma {:induction false} MatchJoin(h: Word, x: Word, j: int, a: int, b: int, b': int, c: int)
    requires Matches(h, x, j, a, b) && Matches(h, x, j, b', c) && b' <= b && b' <= c
    ensures Matches(h, x, j, a, if b < c then c else b)
    decreases c - b'
  {
    if b < c {
      MatchJoin(h, x, j, a, b, b', c - 1);
    }
  }

  lemma {:induction false} MatchIsSlice(h: Word, x: Word, j: int, b: int)
    requires 0 <= b <= |x| && 0 <= j && j + b <= |h|
    ensures Matches(h, x, j, 0, b) <==> h[j..j + b] == x[..b]
    decreases b
  {
    if b > 0 {
      MatchIsSlice(h, x, j, b - 1);
      var u, v := h[j..j + b], x[..b];
      assert u[..b - 1] == h[j..j + b - 1] && v[..b - 1] == x[..b - 1];
      assert u == u[..b - 1] + [h[j + b - 1]] && v == v[..b - 1] + [x[b - 1]];
    }
  }

  lemma StandsIsOccurrence(h: Word, x: Word, j: int)
    ensures Stands(h, x, j) <==> OccursAt(h, x, j)
  {
    if 0 <= j && j + |x| <= |h| {
      MatchIsSlice(h, x, j, |x|);
      assert x[..|x|] == x;
    }
  }

  /** No occurrence at the `n` positions from `j` on. */
  ghost predicate NoneIn(h: Word, x: Word, j: int, n: int) {
    forall t | j <= t < j + n :: !Stands(h, x, t)
  }

  /** What critical_factorization hands to the searches. */
  ghost predicate Factored(x: Word, cut: int, p: int) {
    && 0 <= cut < |x|
    && SuffixPeriod(x, cut, p)
    && (forall d | LocalRepetition(x, cut, d) :: Period(x, d))
    && (forall d | LocalRepetition(x, cut, d) :: cut < d || (|x| == 2 && cut <= d))
  }

  /** An occurrence `d` further on, over letters already matched across the cut, is a repetition. */
  lemma OverlapRepeats(h: Word, x: Word, cut: int, j: int, d: int, m: int)
    requires 0 <= cut <= m <= |x| && Matches(h, x, j, cut, m) && 1 <= d
    requires cut + d <= m || m == |x|
    requires Stands(h, x, j + d)
    ensures LocalRepetition(x, cut, d)
  {
    forall i, k | 0 <= i < cut <= k < |x| && k == i + d ensures x[i] == x[k] {
      MatchAt(h, x, j + d, 0, |x|, i);
      MatchAt(h, x, j, cut, m, k);
    }
  }

  /** A mismatch in the right half rules out the shifts up to and over it. */
  lemma RightMismatch(h: Word, x: Word, cut: int, p: int, j: int, i: int)
    requires Factored(x, cut, p) && cut <= i < |x| && Matches(h, x, j, cut, i)
    requires j + i < |h| && h[j + i] != x[i]
    ensures NoneIn(h, x, j, i - cut + 1)
  {
    forall t | j <= t < j + (i - cut + 1) ensures !Stands(h, x, t) {
      if Stands(h, x, t) {
        var d := t - j;
        MatchAt(h, x, t, 0, |x|, i - d);
        if 0 < d {
          OverlapRepeats(h, x, cut, j, d, i);
        }
      }
    }
  }

  /** After the right half has matched, no occurrence is nearer than the smallest repetition. */
  lemma LeftMismatch(h: Word, x: Word, cut: int, j: int, n: int)
    requires 0 <= cut < |x| && Matches(h, x, j, cut, |x|) && !Stands(h, x, j)
    requires forall d | 1 <= d < n :: !LocalRepetition(x, cut, d)
    ensures NoneIn(h, x, j, n)
  {
    forall t | j <= t < j + n ensures !Stands(h, x, t) {
      if Stands(h, x, t) && j < t {
        OverlapRepeats(h, x, cut, j, t - j, |x|);
      }
    }
  }

  /** A period of the word is a period of its right half. */
  lemma PeriodOfSuffix(x: Word, cut: int, d: int)
    requires 0 <= cut <= |x| && Period(x, d)
    ensures Period(x[cut..], d)
  {
    var v := x[cut..];
    forall i, k | 0 <= i < k < |v| && k == i + d ensures v[i] == v[k] {
      assert x[cut + i] == x[cut + k];
    }
  }

  /** The test that selects the branch: the left half repeats one period later. */
  ghost predicate LeftRepeats(x: Word, cut: int, p: int)
    requires 0 <= cut && 0 <= p && p + cut <= |x|
  {
    x[..cut] == x[p..p + cut]
  }

  lemma PeriodicNeedle(x: Word, cut: int, p: int)
    requires Factored(x, cut, p)
    ensures p + cut <= |x|
    ensures LeftRepeats(x, cut, p) <==> Period(x, p)
    ensures LeftRepeats(x, cut, p) ==> cut <= p && forall d | 1 <= d < p :: !LocalRepetition(x, cut, d)
  {
    var v := x[cut..];
    SuffixPeriodIsSmallest(x, cut, p);
    if LeftRepeats(x, cut, p) {
      forall i, k | 0 <= i < k < |x| && k == i + p ensures x[i] == x[k] {
        if i < cut {
          assert x[..cut][i] == x[p..p + cut][i];
        } else {
          assert v[i - cut] == v[k - cut];
        }
      }
      assert LocalRepetition(x, cut, p);
      forall d | 1 <= d < p ensures !LocalRepetition(x, cut, d) {
        if LocalRepetition(x, cut, d) {
          PeriodOfSuffix(x, cut, d);
        }
      }
    }
    if Period(x, p) {
      forall i | 0 <= i < cut ensures x[..cut][i] == x[p..p + cut][i] {
        assert x[i] == x[i + p];
      }
    }
  }

  /** The remainder of `d` by `p`. */
  function Remainder(d: nat, p: nat): (r: nat)
    requires 1 <= p
    ensures r < p && r <= d
  {
    if d < p then d else Remainder(d - p, p)
  }

  lemma {:induction false} PeriodSteps(x: Word, p: int, i: int, k: int)
    requires Period(x, p) && 0 <= i <= k < |x| && Remainder(k - i, p) == 0
    ensures x[i] == x[k]
    decreases k - i
  {
    if i < k {
      PeriodSteps(x, p, i + p, k);
    }
  }

  lemma {:induction false} RemainderRemoved(d: nat, p: nat)
    requires 1 <= p
    ensures Remainder(d - Remainder(d, p), p) == 0
  {
    if p <= d {
      RemainderRemoved(d - p, p);
    }
  }

  /** When the left half does not repeat, repetitions are longer than both halves. */
  lemma AperiodicNeedle(x: Word, cut: int, p: int, d: int)
    requires Factored(x, cut, p) && !LeftRepeats(x, cut, p)
    requires 1 <= d && (d <= cut || d <= |x| - cut)
    ensures !LocalRepetition(x, cut, d)
  {
    if LocalRepetition(x, cut, d) {
      var v := x[cut..];
      PeriodicNeedle(x, cut, p);
      SuffixPeriodIsSmallest(x, cut, p);
      PeriodOfSuffix(x, cut, d);
      if d == p || d < p {
      } else if Remainder(d, p) == 0 {
        AperiodicMultiple(x, cut, p, d);
      } else {
        AperiodicRemainder(x, cut, p, d);
        PeriodOfSuffix(x, cut, Remainder(d, p));
      }
    }
  }

  lemma AperiodicMultiple(x: Word, cut: int, p: int, d: int)
    requires 0 <= cut < |x| && Period(x[cut..], p) && Period(x, d)
    requires cut <= d <= |x| - cut && p < d && Remainder(d, p) == 0
    ensures Period(x, p)
  {
    var v := x[cut..];
    forall i, k | 0 <= i < k < |x| && k == i + p ensures x[i] == x[k] {
      if cut <= i {
        assert v[i - cut] == v[k - cut];
      } else {
        assert x[i] == x[i + d];
        if k < cut {
          assert x[k] == x[k + d];
          assert v[i + d - cut] == v[k + d - cut];
        } else {
          PeriodSteps(v, p, k - cut, i + d - cut);
        }
      }
    }
  }

  lemma AperiodicRemainder(x: Word, cut: int, p: int, d: int)
    requires 0 <= cut < |x| && Period(x[cut..], p) && Period(x, d)
    requires cut <= d <= |x| - cut && p < d && Remainder(d, p) != 0
    ensures LocalRepetition(x, cut, Remainder(d, p))
  {
    var r := Remainder(d, p);
    forall i, k | 0 <= i < cut <= k < |x| && k == i + r ensures x[i] == x[k] {
      RemainderPair(x, cut, p, d, i, k);
    }
  }

  /** One full `d` on, then back by periods of the right half. */
  lemma RemainderPair(x: Word, cut: int, p: int, d: int, i: int, k: int)
    requires 0 <= cut < |x| && Period(x[cut..], p) && Period(x, d)
    requires cut <= d <= |x| - cut && p < d && 0 <= i < cut <= k < |x| && k == i + Remainder(d, p)
    ensures x[i] == x[k]
  {
    hide Remainder;
    var v := x[cut..];
    assert x[i] == x[i + d];
    RemainderRemoved(d, p);
    PeriodSteps(v, p, k - cut, i + d - cut);
    assert v[k - cut] == x[k] && v[i + d - cut] == x[i + d];
  }

  /** What is known about the window one period on: all but its last period. */
  lemma {:induction false} MemoryAfterShift(h: Word, x: Word, cut: int, p: int, j: int, b: int)
    requires 0 <= cut <= p <= b <= |x| && Recurs(x, 0, p) && Matches(h, x, j, cut, |x|)
    ensures Matches(h, x, j + p, 0, b - p)
    decreases b
  {
    if p < b {
      MemoryAfterShift(h, x, cut, p, j, b - 1);
      MatchAt(h, x, j, cut, |x|, b - 1);
      AgreeAt(x, 0, p, |x| - p, b - 1 - p);
    }
  }

  /** `shift` is the distance from the last occurrence of `c` in `x` to its end, |x| if none. */
  ghost predicate LastDistance(x: Word, c: int, shift: int) {
    && 0 <= shift <= |x|
    && (forall k | |x| - shift <= k < |x| :: x[k] != c)
    && (shift < |x| ==> x[|x| - 1 - shift] == c)
  }

  /** Shifting the last occurrence of the text's byte under it skips no occurrence. */
  lemma BadByteShift(h: Word, x: Word, j: int, shift: int)
    requires 0 <= j && 1 <= |x| && j + |x| <= |h| && LastDistance(x, h[j + |x| - 1], shift)
    ensures NoneIn(h, x, j, shift)
  {
    forall t | j <= t < j + shift ensures !Stands(h, x, t) {
      if Stands(h, x, t) {
        MatchAt(h, x, t, 0, |x|, |x| - 1 - (t - j));
      }
    }
  }

  /** With all but the last period known and its last byte wrong, nothing starts in the known part:
      the end of the known part would put the right byte where the wrong one is. */
  lemma RememberedShift(h: Word, x: Word, p: int, j: int)
    requires 1 <= p < |x| && Recurs(x, 0, p) && Matches(h, x, j, 0, |x| - p)
    requires j + |x| <= |h| && h[j + |x| - 1] != x[|x| - 1]
    ensures NoneIn(h, x, j, |x| - p)
  {
    var last := |x| - 1;
    forall t | j <= t < j + (|x| - p) ensures !Stands(h, x, t) {
      if Stands(h, x, t) {
        var d := t - j;
        MatchAt(h, x, t, 0, |x|, last - d);
        MatchAt(h, x, t, 0, |x|, last - p - d);
        MatchAt(h, x, j, 0, |x| - p, last - p);
        AgreeAt(x, 0, p, |x| - p, last - p);
        AgreeAt(x, 0, p, |x| - p, last - p - d);
      }
    }
  }
}
