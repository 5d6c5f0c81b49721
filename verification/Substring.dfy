/** memmem of gl/memmem.c and strcasestr of gl/strcasestr.c. */
module Substring {
  import opened Options
  import opened Words
  import opened MaximalSuffix
  import opened TwoWay
  import opened Memchr
  import opened TwoWaySearch

  /** From this length on a needle is searched for with the shift table. */
  const LONG_NEEDLE_THRESHOLD := 32

  /** The bytes of `needle` stand in `haystack` at `j`. */
  predicate BytesAt(haystack: seq<Byte>, needle: seq<Byte>, j: nat) {
    j + |needle| <= |haystack| && haystack[j..j + |needle|] == needle
  }

  /** The specification of memmem: the smallest index where the needle occurs, if there is one. */
  ghost predicate FirstBytes(haystack: seq<Byte>, needle: seq<Byte>, r: Option<nat>) {
    match r
    case Some(j) => BytesAt(haystack, needle, j) && forall t | 0 <= t < j :: !BytesAt(haystack, needle, t)
    case None => forall t: nat :: !BytesAt(haystack, needle, t)
  }

  function ByteValue(b: Byte): Letter {
    b as int
  }

  lemma ByteValueInjective(a: Byte, b: Byte)
    ensures ByteValue(a) == ByteValue(b) <==> a == b
  {
  }

  /** Without canonicalisation, letters match exactly when bytes do. */
  lemma FoldedOccurrence(haystack: seq<Byte>, needle: seq<Byte>, j: nat)
    ensures OccursAt(Fold(ByteValue, haystack), Fold(ByteValue, needle), j) <==> BytesAt(haystack, needle, j)
  {
    var h, x := Fold(ByteValue, haystack), Fold(ByteValue, needle);
    if j + |needle| <= |haystack| {
      var u, v := h[j..j + |x|], haystack[j..j + |needle|];
      forall i | 0 <= i < |needle| ensures u[i] == x[i] <==> v[i] == needle[i] {
        ByteValueInjective(v[i], needle[i]);
      }
    }
  }

  lemma FoldedFirst(haystack: seq<Byte>, needle: seq<Byte>, r: Option<nat>)
    requires FirstOccurrence(Fold(ByteValue, haystack), Fold(ByteValue, needle), r)
    ensures FirstBytes(haystack, needle, r)
  {
    forall t: nat
      ensures OccursAt(Fold(ByteValue, haystack), Fold(ByteValue, needle), t) <==> BytesAt(haystack, needle, t)
    {
      FoldedOccurrence(haystack, needle, t);
    }
  }

  /** An occurrence cannot start before the first byte that equals the needle's first. */
  lemma SkipToFirstByte(haystack: seq<Byte>, needle: seq<Byte>, k: nat, r: Option<nat>)
    requires |needle| >= 1 && k <= |haystack| && needle[0] !in haystack[..k]
    requires FirstBytes(haystack[k..], needle, r)
    ensures FirstBytes(haystack, needle, if r.None? then None else Some(k + r.value))
  {
    forall t: nat | BytesAt(haystack, needle, t)
      ensures k <= t && BytesAt(haystack[k..], needle, t - k)
    {
      assert haystack[t..t + |needle|][0] == haystack[t];
      assert forall i | 0 <= i < k :: haystack[..k][i] == haystack[i];
      assert haystack[k..][t - k..t - k + |needle|] == haystack[t..t + |needle|];
    }
    if r.Some? {
      assert haystack[k..][r.value..r.value + |needle|] == haystack[k + r.value..k + r.value + |needle|];
    }
  }

  /** memmem, for a haystack at any address; `steps` counts the comparisons of the search. */
  method Memmem(haystack: seq<Byte>, needle: seq<Byte>, address: nat, machine: Machine)
    returns (r: Option<nat>, ghost steps: nat)
    ensures FirstBytes(haystack, needle, r)
    ensures steps == 0 || steps <= 2 * |haystack| - |needle|
  {
    ghost var looked;
    steps := 0;
    if |needle| == 0 {
      return Some(0), steps;
    }
    if |haystack| < |needle| {
      return None, steps;
    }
    if |needle| < LONG_NEEDLE_THRESHOLD {
      var first := FindByte(haystack, address, machine, needle[0], |haystack|);
      NoFirstByte(haystack, needle, first);
      if first.None? || |needle| == 1 {
        return first, steps;
      }
      var rest := haystack[first.value..];
      if |rest| < |needle| {
        SkipToFirstByte(haystack, needle, first.value, None);
        return None, steps;
      }
      r, steps, looked := ShortNeedle(Counted(rest), |rest|, needle, ByteValue);
      FoldedFirst(rest, needle, r);
      SkipToFirstByte(haystack, needle, first.value, r);
      r := if r.None? then None else Some(first.value + r.value);
    } else {
      r, steps, looked := LongNeedle(Counted(haystack), |haystack|, needle, ByteValue);
      FoldedFirst(haystack, needle, r);
    }
  }

  /** What finding the needle's first byte settles at once. */
  lemma NoFirstByte(haystack: seq<Byte>, needle: seq<Byte>, first: Option<nat>)
    requires |needle| >= 1 && FirstByte(haystack, needle[0], |haystack|, first)
    ensures first.None? || |needle| == 1 ==> FirstBytes(haystack, needle, first)
  {
    if first.None? {
      SkipToFirstByte(haystack, needle, |haystack|, None);
    } else if |needle| == 1 {
      var k := first.value;
      assert haystack[k..][0..1] == needle;
      SkipToFirstByte(haystack, needle, k, Some(0));
    }
  }

  /** The first loop of strcasestr: how far the shorter of the strings goes, and whether they agree up
      to there. */
  method ComparePrefix(haystack: seq<Byte>, needle: seq<Byte>, canon: Byte -> Letter) returns (i: nat, ok: bool)
    requires 0 in haystack && 0 in needle
    ensures i <= |UpToNul(haystack)| && i <= |UpToNul(needle)| < |needle|
    ensures i == |UpToNul(haystack)| || i == |UpToNul(needle)|
    ensures ok <==> Fold(canon, UpToNul(haystack))[..i] == Fold(canon, UpToNul(needle))[..i]
  {
    ghost var h, x := Fold(canon, UpToNul(haystack)), Fold(canon, UpToNul(needle));
    EndsBeforeNul(haystack);
    EndsBeforeNul(needle);
    i, ok := 0, true;
    while haystack[i] != 0 && needle[i] != 0
      invariant 0 <= i <= |h| && i <= |x|
      invariant ok <==> h[..i] == x[..i]
      decreases |h| - i
    {
      PrefixStep(h, x, i);
      ok := ok && canon(haystack[i]) == canon(needle[i]);
      i := i + 1;
    }
  }

  lemma AtStart(h: Word, x: Word)
    ensures |h| < |x| ==> FirstOccurrence(h, x, None)
    ensures |x| <= |h| && h[..|x|] == x ==> FirstOccurrence(h, x, Some(0))
  {
    assert |x| <= |h| ==> h[0..|x|] == h[..|x|];
  }

  /** strcasestr; `canon` is TOLOWER in the current locale, whatever that is.  `steps` counts the
      comparisons of the search and the bytes looked at for the end of the string. */
  method Strcasestr(haystack: seq<Byte>, needle: seq<Byte>, canon: Byte -> Letter, address: nat, machine: Machine)
    returns (r: Option<nat>, ghost steps: nat)
    requires 0 in haystack && 0 in needle
    ensures FirstOccurrence(Fold(canon, UpToNul(haystack)), Fold(canon, UpToNul(needle)), r)
    ensures steps == 0 || steps <= 3 * |UpToNul(haystack)| - |UpToNul(needle)|
  {
    hide FirstOccurrence, UpToNul, Matches;
    ghost var h, x := Fold(canon, UpToNul(haystack)), Fold(canon, UpToNul(needle));
    var i, ok := ComparePrefix(haystack, needle, canon);
    AtStart(h, x);
    if needle[i] != 0 {
      EndsBeforeNul(needle);
      return None, 0;
    }
    assert i == |x| && x[..i] == x by {
      EndsBeforeNul(needle);
    }
    if ok {
      return Some(0), 0;
    }
    var n, tail := i, haystack[1..];
    var text := needle[..n];
    TailOfString(haystack);
    ghost var looked;
    if n < LONG_NEEDLE_THRESHOLD {
      r, steps, looked := ShortNeedle(Terminated(tail, address + 1, machine), n - 1, text, canon);
    } else {
      r, steps, looked := LongNeedle(Terminated(tail, address + 1, machine), n - 1, text, canon);
    }
    assert Fold(canon, text) == x;
    assert Fold(canon, UpToNul(tail)) == h[1..];
    NotAtStart(h, x, r);
    return if r.None? then None else Some(1 + r.value), steps + looked;
  }

  lemma PrefixStep(h: Word, x: Word, i: nat)
    requires i < |h| && i < |x|
    ensures h[..i + 1] == x[..i + 1] <==> h[..i] == x[..i] && h[i] == x[i]
  {
    assert h[..i + 1] == h[..i] + [h[i]] && x[..i + 1] == x[..i] + [x[i]];
  }

  lemma EndsBeforeNul(b: seq<Byte>)
    requires 0 in b
    ensures |UpToNul(b)| < |b| && b[|UpToNul(b)|] == 0
    ensures forall i | 0 <= i < |UpToNul(b)| :: b[i] != 0
  {
    var t := UpToNul(b);
    assert |t| == |b| ==> t == b;
    assert forall i | 0 <= i < |t| :: t[i] == b[i] && t[i] in t;
  }

  lemma TailOfString(b: seq<Byte>)
    requires |b| >= 1 && b[0] != 0 && 0 in b
    ensures 0 in b[1..] && UpToNul(b) == [b[0]] + UpToNul(b[1..])
  {
    assert b == [b[0]] + b[1..];
  }

  lemma NotAtStart(h: Word, x: Word, r: Option<nat>)
    requires |h| >= 1 && !OccursAt(h, x, 0) && FirstOccurrence(h[1..], x, r)
    ensures FirstOccurrence(h, x, if r.None? then None else Some(1 + r.value))
  {
    forall t | 1 <= t ensures OccursAt(h, x, t) <==> OccursAt(h[1..], x, t - 1) {
      if t + |x| <= |h| {
        assert h[1..][t - 1..t - 1 + |x|] == h[t..t + |x|];
      }
    }
    if r.None? {
      forall t ensures !OccursAt(h, x, t) {
        if 1 <= t {
          assert !OccursAt(h[1..], x, t - 1);
        }
      }
    } else {
      forall t | 0 <= t < 1 + r.value ensures !OccursAt(h, x, t) {
        if 1 <= t {
          assert !OccursAt(h[1..], x, t - 1);
        }
      }
    }
  }
}
