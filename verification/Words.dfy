/** Words over an ordered alphabet: periods, local repetitions and the order of suffixes.
    These notions are what the Two-Way search of gl/str-two-way.h rests on. */
module Words {

  /** A byte in memory. */
  type Byte = bv8

  /** The value a byte is compared by. */
  type Letter = a: int | 0 <= a < 256

  type Word = seq<Letter>

  /** The alphabet order, or its reverse. */
  predicate Less(a: int, b: int, rev: bool) {
    if rev then b < a else a < b
  }

  /** `d` is a period of `x`; every `d >= |x|` is one. */
  ghost predicate Period(x: Word, d: int) {
    && 1 <= d
    && forall i, j | 0 <= i < j < |x| && j == i + d :: x[i] == x[j]
  }

  /** `d` is the smallest period of the nonempty word `x`. */
  ghost predicate SmallestPeriod(x: Word, d: int) {
    && Period(x, d) && d <= |x|
    && forall e | 1 <= e < d :: !Period(x, e)
  }

  /** `d` is the length of a repetition centred on the cut `x[..cut]`, `x[cut..]`: wherever both
      positions exist, the `d` letters before the cut equal the `d` letters after it. */
  ghost predicate LocalRepetition(x: Word, cut: int, d: int) {
    && 1 <= d
    && forall i, j | 0 <= i < cut <= j < |x| && j == i + d :: x[i] == x[j]
  }

  ghost predicate SmallestRepetition(x: Word, cut: int, d: int) {
    && LocalRepetition(x, cut, d)
    && forall e | 1 <= e < d :: !LocalRepetition(x, cut, e)
  }

  /** The suffixes of `x` that start at `s` and `t` have the same first `m` letters. */
  ghost predicate Agree(x: Word, s: int, t: int, m: int)
    decreases m
  {
    && 0 <= s && 0 <= t && 0 <= m && s + m <= |x| && t + m <= |x|
    && (m == 0 || (x[s + m - 1] == x[t + m - 1] && Agree(x, s, t, m - 1)))
  }

  lemma AgreeBounds(x: Word, s: int, t: int, m: int)
    requires Agree(x, s, t, m)
    ensures 0 <= s && 0 <= t && 0 <= m && s + m <= |x| && t + m <= |x|
  {
  }

  /** The suffix at `t` is a prefix of the one at `s`, so `t - s` is a period of the latter. */
  ghost predicate Recurs(x: Word, s: int, t: int) {
    Agree(x, s, t, |x| - t)
  }

  /** `p` is the smallest period of the suffix at `s`. */
  ghost predicate SuffixPeriod(x: Word, s: int, p: int) {
    && 1 <= p && 0 <= s && Recurs(x, s, s + p)
    && forall t | s < t < s + p :: !Recurs(x, s, t)
  }

  /** The suffix at `s` exceeds the suffix at `t`, and `m` is where they first differ. */
  ghost predicate BeatsAt(x: Word, s: int, t: int, m: int, rev: bool) {
    && Agree(x, s, t, m) && s + m < |x| && t + m < |x|
    && Less(x[t + m], x[s + m], rev)
  }

  ghost predicate Beats(x: Word, s: int, t: int, rev: bool) {
    exists m :: BeatsAt(x, s, t, m, rev)
  }

  /** The lexicographic order of words; a prefix comes first under both alphabet orders. */
  ghost predicate LexAtMost(a: Word, b: Word, rev: bool) {
    || a <= b
    || exists m | 0 <= m < |a| && m < |b| :: a[..m] == b[..m] && Less(a[m], b[m], rev)
  }

  /** The suffix at `s` is the lexicographically greatest suffix of `x`. */
  ghost predicate GreatestSuffix(x: Word, s: int, rev: bool) {
    && 0 <= s <= |x|
    && forall t | 0 <= t <= |x| :: LexAtMost(x[t..], x[s..], rev)
  }

  /** What agreement says letter by letter. */
  lemma {:induction false} AgreeAt(x: Word, s: int, t: int, m: int, i: int)
    requires Agree(x, s, t, m) && 0 <= i < m
    ensures x[s + i] == x[t + i]
    decreases m
  {
    if i < m - 1 {
      AgreeAt(x, s, t, m - 1, i);
    }
  }

  lemma {:induction false} AgreeShorter(x: Word, s: int, t: int, m: int, k: int)
    requires Agree(x, s, t, m) && 0 <= k <= m
    ensures Agree(x, s, t, k)
    ensures Agree(x, s + k, t + k, m - k)
    decreases m
  {
    if k < m {
      AgreeShorter(x, s, t, m - 1, k);
    }
  }

  lemma {:induction false} AgreeTransitive(x: Word, a: int, b: int, c: int, m: int, k: int, n: int)
    requires Agree(x, a, b, m) && Agree(x, b, c, k) && 0 <= n <= m && n <= k
    ensures Agree(x, a, c, n)
    decreases n
  {
    if n > 0 {
      AgreeAt(x, a, b, m, n - 1);
      AgreeAt(x, b, c, k, n - 1);
      AgreeTransitive(x, a, b, c, m, k, n - 1);
    }
  }

  lemma {:induction false} AgreeSelf(x: Word, s: int, m: int)
    requires 0 <= s && 0 <= m && s + m <= |x|
    ensures Agree(x, s, s, m)
    decreases m
  {
    if m > 0 {
      AgreeSelf(x, s, m - 1);
    }
  }

  lemma {:induction false} AgreeSymmetric(x: Word, s: int, t: int, m: int)
    requires Agree(x, s, t, m)
    ensures Agree(x, t, s, m)
    decreases m
  {
    if m > 0 {
      AgreeSymmetric(x, s, t, m - 1);
    }
  }

  lemma {:induction false} AgreeIsSlice(x: Word, s: int, t: int, m: int)
    requires 0 <= s && 0 <= t && 0 <= m && s + m <= |x| && t + m <= |x|
    ensures Agree(x, s, t, m) <==> x[s..s + m] == x[t..t + m]
    decreases m
  {
    if m > 0 {
      AgreeIsSlice(x, s, t, m - 1);
      SliceGrows(x, s, m - 1);
      SliceGrows(x, t, m - 1);
      LastLetter(x[s..s + m - 1], x[t..t + m - 1], x[s + m - 1], x[t + m - 1]);
    }
  }

  lemma SliceGrows(x: Word, s: int, m: int)
    requires 0 <= s && 0 <= m && s + m < |x|
    ensures x[s..s + m + 1] == x[s..s + m] + [x[s + m]]
  {
  }

  lemma LastLetter(a: Word, b: Word, c: Letter, d: Letter)
    requires |a| == |b|
    ensures a + [c] == b + [d] <==> a == b && c == d
  {
    if a + [c] == b + [d] {
      assert a == (a + [c])[..|a|] && b == (b + [d])[..|b|];
      assert c == (a + [c])[|a|] && d == (b + [d])[|b|];
    }
  }

  lemma RecursIsPeriod(x: Word, s: int, t: int)
    requires 0 <= s < t <= |x|
    ensures Recurs(x, s, t) <==> Period(x[s..], t - s)
  {
    var v, m := x[s..], |x| - t;
    AgreeIsSlice(x, s, t, m);
    if Recurs(x, s, t) {
      forall i, j | 0 <= i < j < |v| && j == i + (t - s) ensures v[i] == v[j] {
        AgreeAt(x, s, t, m, i);
      }
    } else {
      var k :| 0 <= k < m && x[s..s + m][k] != x[t..t + m][k];
      assert v[k] != v[k + (t - s)];
    }
  }

  lemma SuffixPeriodIsSmallest(x: Word, s: int, p: int)
    requires 0 <= s < |x|
    ensures SuffixPeriod(x, s, p) <==> SmallestPeriod(x[s..], p)
  {
    if 1 <= p && s + p <= |x| {
      RecursIsPeriod(x, s, s + p);
      forall t | s < t < s + p ensures Recurs(x, s, t) <==> Period(x[s..], t - s) {
        RecursIsPeriod(x, s, t);
      }
      if SmallestPeriod(x[s..], p) {
        forall t | s < t < s + p ensures !Recurs(x, s, t) {
          assert !Period(x[s..], t - s);
        }
      }
      if SuffixPeriod(x, s, p) {
        forall e | 1 <= e < p ensures !Period(x[s..], e) {
          assert !Recurs(x, s, s + e);
        }
      }
    }
  }

  /** Where two suffixes first differ settles their order. */
  lemma FirstDifference(x: Word, s: int, t: int, m: int, k: int, rev: bool)
    requires BeatsAt(x, s, t, m, rev)
    ensures Agree(x, s, t, k) || Agree(x, t, s, k) ==> k <= m
    ensures !BeatsAt(x, t, s, k, rev)
  {
    if m < k && (Agree(x, s, t, k) || Agree(x, t, s, k)) {
      if Agree(x, s, t, k) {
        AgreeAt(x, s, t, k, m);
      } else {
        AgreeAt(x, t, s, k, m);
      }
    }
    if k < m && BeatsAt(x, t, s, k, rev) {
      AgreeAt(x, s, t, m, k);
    }
  }

  /** Lexicographic comparison of two suffixes, in terms of positions of the whole word. */
  lemma SuffixOrder(x: Word, s: int, t: int, rev: bool)
    requires 0 <= s <= |x| && 0 <= t <= |x| && s != t
    ensures LexAtMost(x[t..], x[s..], rev) <==>
            Beats(x, s, t, rev) || (s < t && Agree(x, s, t, |x| - t))
  {
    var a, b := x[t..], x[s..];
    assert a <= b <==> s < t && Agree(x, s, t, |x| - t) by {
      if s < t {
        AgreeIsSlice(x, s, t, |x| - t);
        assert b[..|a|] == x[s..s + |a|];
      }
    }
    forall m | 0 <= m < |a| && m < |b|
      ensures a[..m] == b[..m] && Less(a[m], b[m], rev) <==> BeatsAt(x, s, t, m, rev)
    {
      AgreeIsSlice(x, s, t, m);
      assert a[..m] == x[t..t + m] && b[..m] == x[s..s + m];
    }
  }
}
