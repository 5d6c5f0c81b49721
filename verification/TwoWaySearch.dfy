/** critical_factorization and the two searches of gl/str-two-way.h, as loops over the needle and
    the haystack, proved to return the first occurrence. */
module TwoWaySearch {
  import opened Options
  import opened Words
  import opened CriticalFactorization
  import opened MaximalSuffix
  import opened TwoWay
  import opened Memchr

  /** The haystack of memmem has a length; that of strcasestr ends at its first NUL. */
  datatype Haystack = Counted(bytes: seq<Byte>) | Terminated(bytes: seq<Byte>, address: nat, machine: Machine)

  /** The bytes that may be part of a match. */
  function Text(h: Haystack): (t: seq<Byte>)
    ensures |t| <= |h.bytes| && t == h.bytes[..|t|]
    ensures h.Terminated? ==> 0 !in t && (|t| < |h.bytes| ==> h.bytes[|t|] == 0)
  {
    match h
    case Counted(b) => b
    case Terminated(b, _, _) => UpToNul(b)
  }

  function UpToNul(b: seq<Byte>): (t: seq<Byte>)
    ensures |t| <= |b| && t == b[..|t|] && 0 !in t && (|t| < |b| ==> b[|t|] == 0)
  {
    if |b| == 0 || b[0] == 0 then [] else [b[0]] + UpToNul(b[1..])
  }

  /** The specification of the search: the first place where `x` stands in `h`, if any. */
  ghost predicate FirstOccurrence(h: Word, x: Word, r: Option<nat>) {
    match r
    case Some(j) => OccursAt(h, x, j) && forall t | 0 <= t < j :: !OccursAt(h, x, t)
    case None => forall t :: !OccursAt(h, x, t)
  }

  /** haystack_len: the length itself, or as much of it as has been established. */
  ghost predicate KnownLength(h: Haystack, known: nat, j: nat, n: nat) {
    match h
    case Counted(b) => known == |b| && n <= known
    case Terminated(b, _, _) => 0 in b && known <= |Text(h)| && known <= j + n
  }

  /** AVAILABLE: are there `n` bytes from `j` on?  For a string this looks for a NUL among the bytes
      not yet known and, when there is none, records the new known length.  `looked` counts the bytes
      up to the one that decides. */
  method Available(h: Haystack, known: nat, j: nat, n: nat) returns (ok: bool, known': nat, ghost looked: nat)
    requires KnownLength(h, known, j, n)
    ensures ok <==> j + n <= |Text(h)|
    ensures forall j' | j <= j' :: KnownLength(h, known', j', n)
    ensures h.Counted? ==> looked == 0
    ensures h.Terminated? ==> if ok then known + looked == known' else known + looked <= |Text(h)| + 1
  {
    match h
    case Counted(b) =>
      return j <= known - n, known, 0;
    case Terminated(b, address, machine) =>
      var end := if j + n <= |b| then j + n else |b|;
      var nul := FindByte(b[known..], address + known, machine, 0, end - known);
      NulBounds(b, known, end, nul);
      if nul.Some? {
        return false, known, nul.value + 1;
      }
      return true, j + n, end - known;
  }

  /** What the search for the terminator says about the length of the string. */
  lemma NulBounds(b: seq<Byte>, known: nat, end: nat, nul: Option<nat>)
    requires 0 in b && known <= |UpToNul(b)| && known <= end <= |b|
    requires FirstByte(b[known..], 0, end - known, nul)
    ensures |UpToNul(b)| < |b|
    ensures nul.None? <==> end <= |UpToNul(b)|
    ensures nul.Some? ==> known + nul.value == |UpToNul(b)|
  {
    var text, tail := UpToNul(b), b[known..];
    assert forall i | 0 <= i < |text| :: text[i] == b[i] && text[i] in text;
    assert forall i | known <= i < end :: tail[..end - known][i - known] == b[i];
    assert |text| == |b| ==> text == b;
  }

  /** critical_factorization: the later of the two maximal suffixes, and the period of that suffix. */
  method Factorize(needle: seq<Byte>, canon: Byte -> Letter) returns (suffix: nat, period: nat)
    requires |needle| >= 1
    ensures Factored(Fold(canon, needle), suffix, period)
    ensures |needle| >= 3 ==> Critical(Fold(canon, needle), suffix)
  {
    ghost var x := Fold(canon, needle);
    if |needle| < 3 {
      ShortWord(x);
      return |needle| - 1, 1;
    }
    var maxSuffix, p, steps := ScanNeedle(needle, canon, false);
    var maxSuffixRev, pRev, stepsRev := ScanNeedle(needle, canon, true);
    if maxSuffixRev + 1 < maxSuffix + 1 {
      CriticalFactorizationTheorem(x, maxSuffix + 1, maxSuffixRev + 1, false);
      return maxSuffix + 1, p;
    }
    CriticalFactorizationTheorem(x, maxSuffixRev + 1, maxSuffix + 1, true);
    return maxSuffixRev + 1, pRev;
  }

  lemma ShortWord(x: Word)
    requires 1 <= |x| < 3
    ensures Factored(x, |x| - 1, 1)
  {
    var v := x[|x| - 1..];
    assert |v| == 1;
    forall d | LocalRepetition(x, |x| - 1, d)
      ensures Period(x, d) && (|x| - 1 < d || (|x| == 2 && |x| - 1 <= d))
    {
    }
  }

  /** CMP_FUNC (needle, needle + period, suffix) == 0 */
  method RepeatsAfter(needle: seq<Byte>, canon: Byte -> Letter, period: nat, suffix: nat) returns (eq: bool)
    requires period + suffix <= |needle|
    ensures eq <==> LeftRepeats(Fold(canon, needle), suffix, period)
  {
    ghost var x := Fold(canon, needle);
    var i := 0;
    while i < suffix
      invariant 0 <= i <= suffix
      invariant x[..i] == x[period..period + i]
    {
      if canon(needle[i]) != canon(needle[period + i]) {
        assert x[..suffix][i] != x[period..period + suffix][i];
        return false;
      }
      assert x[..i + 1] == x[..i] + [x[i]];
      assert x[period..period + i + 1] == x[period..period + i] + [x[period + i]];
      i := i + 1;
    }
    return true;
  }

  /** Scan for a match of the needle in the right half: from `from` up to `to`.  `steps` counts the
      comparisons, as in the methods below. */
  method ScanRight(hay: seq<Byte>, needle: seq<Byte>, canon: Byte -> Letter, j: nat, ghost suffix: nat, from: nat, to: nat)
    returns (i: nat, ghost steps: nat)
    requires suffix <= from <= to <= |needle| && j + to <= |hay|
    requires Matches(Fold(canon, hay), Fold(canon, needle), j, suffix, from)
    ensures from <= i <= to && Matches(Fold(canon, hay), Fold(canon, needle), j, suffix, i)
    ensures i < to ==> Fold(canon, needle)[i] != Fold(canon, hay)[i + j]
    ensures steps == i - from + if i < to then 1 else 0
  {
    i, steps := from, 0;
    while i < to
      invariant from <= i <= to && steps == i - from
      invariant Matches(Fold(canon, hay), Fold(canon, needle), j, suffix, i)
    {
      steps := steps + 1;
      if canon(needle[i]) != canon(hay[i + j]) {
        return;
      }
      i := i + 1;
    }
  }

  /** Scan for a match in the left half, from its end down to what memory already vouches for.
      The result is the index of the mismatch, or less than `memory`. */
  method ScanLeft(hay: seq<Byte>, needle: seq<Byte>, canon: Byte -> Letter, j: nat, suffix: nat, memory: nat)
    returns (i: int, ghost steps: nat)
    requires suffix <= |needle| && j + |needle| <= |hay|
    requires Matches(Fold(canon, hay), Fold(canon, needle), j, suffix, |needle|)
    requires memory <= |needle| && Matches(Fold(canon, hay), Fold(canon, needle), j, 0, memory)
    ensures -1 <= i < suffix
    ensures i < memory <==> Stands(Fold(canon, hay), Fold(canon, needle), j)
    ensures steps <= suffix
  {
    ghost var h, x := Fold(canon, hay), Fold(canon, needle);
    i, steps := suffix - 1, 0;
    while memory < i + 1
      invariant -1 <= i < suffix && steps == suffix - 1 - i
      invariant memory <= i + 1 || i == suffix - 1
      invariant Matches(h, x, j, i + 1, |needle|)
    {
      steps := steps + 1;
      if canon(needle[i]) != canon(hay[i + j]) {
        break;
      }
      MatchGrowsDown(h, x, j, i, |needle|);
      i := i - 1;
    }
    LeftDecided(h, x, j, i, memory);
  }

  lemma LeftDecided(h: Word, x: Word, j: int, i: int, memory: int)
    requires Matches(h, x, j, 0, memory) && Matches(h, x, j, i + 1, |x|) && j + |x| <= |h|
    requires i < memory || h[j + i] != x[i]
    ensures i < memory <==> Stands(h, x, j)
  {
    if i < memory {
      MatchJoin(h, x, j, 0, memory, i + 1, |x|);
    } else if Stands(h, x, j) {
      MatchAt(h, x, j, 0, |x|, i);
    }
  }

  lemma {:induction false} MatchGrowsDown(h: Word, x: Word, j: int, a: int, b: int)
    requires Matches(h, x, j, a + 1, b) && 0 <= a && h[j + a] == x[a]
    ensures Matches(h, x, j, a, b)
    decreases b - a
  {
    if a + 1 < b {
      MatchGrowsDown(h, x, j, a, b - 1);
    }
  }

  lemma NoneExtends(h: Word, x: Word, j: nat, n: nat)
    requires NoneIn(h, x, 0, j) && NoneIn(h, x, j, n)
    ensures NoneIn(h, x, 0, j + n)
  {
  }

  lemma FoundFirst(h: Word, x: Word, j: nat)
    requires NoneIn(h, x, 0, j)
    ensures Stands(h, x, j) ==> FirstOccurrence(h, x, Some(j))
    ensures j + |x| > |h| ==> FirstOccurrence(h, x, None)
  {
    StandsIsOccurrence(h, x, j);
    forall t | 0 <= t < j ensures !OccursAt(h, x, t) {
      StandsIsOccurrence(h, x, t);
    }
  }

  lemma MemoryCoversRight(h: Word, x: Word, j: int, suffix: int, memory: int)
    requires 0 <= suffix <= |x| && Matches(h, x, j, 0, memory) && j + suffix <= |h|
    ensures Matches(h, x, j, suffix, if suffix < memory then memory else suffix)
  {
    if suffix < memory {
      MatchPart(h, x, j, 0, memory, suffix, memory);
    }
  }

  /** The needle is cut at `suffix`, and its left half repeats after `period`. */
  ghost predicate PeriodicCut(x: Word, suffix: int, period: int) {
    && Factored(x, suffix, period) && Recurs(x, 0, period) && suffix <= period
    && forall d | 1 <= d < period :: !LocalRepetition(x, suffix, d)
  }

  /** The needle is cut at `suffix`, and no repetition there is shorter than `period`. */
  ghost predicate AperiodicCut(x: Word, suffix: int, period: int) {
    && (exists p :: Factored(x, suffix, p))
    && suffix < period && |x| - suffix < period
    && forall d | 1 <= d < period :: !LocalRepetition(x, suffix, d)
  }

  /** Prepare a search: the cut, whether the whole needle is periodic, and the shift to make when
      only the left half fails. */
  method PrepareNeedle(needle: seq<Byte>, canon: Byte -> Letter)
    returns (suffix: nat, period: nat, periodic: bool)
    requires |needle| >= 1
    ensures suffix < |needle|
    ensures periodic ==> PeriodicCut(Fold(canon, needle), suffix, period)
    ensures !periodic ==> AperiodicCut(Fold(canon, needle), suffix, period)
  {
    ghost var x := Fold(canon, needle);
    suffix, period := Factorize(needle, canon);
    PeriodicNeedle(x, suffix, period);
    periodic := RepeatsAfter(needle, canon, period, suffix);
    if periodic {
      RecursIsPeriod(x, 0, period);
      assert x[0..] == x;
    } else {
      var long := (if suffix < |needle| - suffix then |needle| - suffix else suffix) + 1;
      forall d | 1 <= d < long ensures !LocalRepetition(x, suffix, d) {
        AperiodicNeedle(x, suffix, period, d);
      }
      period := long;
    }
  }

  /** The outcome of examining the window at `j`: a match, or a shift that skips none. */
  ghost predicate Examined(h: Word, x: Word, j: nat, found: bool, shift: nat) {
    if found then Stands(h, x, j) else 1 <= shift && NoneIn(h, x, j, shift)
  }

  /** What `memory` vouches for in a window that lies inside the text. */
  ghost predicate Remembered(h: Word, x: Word, j: nat, memory: nat) {
    memory < |x| && (j + |x| <= |h| ==> Matches(h, x, j, 0, memory))
  }

  /** The comparisons a search may have made when it comes to the window at `j`: two for every letter
      the window has moved by, and one for every remembered letter of the right half. */
  ghost function Budget(j: nat, suffix: nat, memory: nat): nat {
    2 * j + if suffix < memory then memory - suffix else 0
  }

  /** What examining a window may cost: it stays within the budget of the next one, and a last window
      within two comparisons for every letter up to its end, less one for every letter of the needle.
      `steps` are all the comparisons made for the window. */
  ghost predicate Affordable(n: nat, j: nat, suffix: nat, memory: nat, steps: nat, found: bool, shift: nat, memory': nat) {
    && Budget(j, suffix, memory) + steps <= 2 * j + n
    && (!found ==> Budget(j, suffix, memory) + steps <= Budget(j + shift, suffix, memory'))
  }

  lemma RememberNothing(h: Word, x: Word, j: nat)
    requires |x| >= 1
    ensures Remembered(h, x, j, 0)
  {
  }

  lemma PeriodicShift(h: Word, x: Word, suffix: nat, period: nat, j: nat)
    requires PeriodicCut(x, suffix, period) && Matches(h, x, j, suffix, |x|) && !Stands(h, x, j)
    ensures period <= |x| && Examined(h, x, j, false, period) && Remembered(h, x, j + period, |x| - period)
  {
    LeftMismatch(h, x, suffix, j, period);
    MemoryAfterShift(h, x, suffix, period, j, |x|);
  }

  /** The body of the periodic search loop, from the scan of the right half on.  The bytes from `to`
      on, one at most, are known to match, at a comparison each. */
  method PeriodicWindow(hay: seq<Byte>, needle: seq<Byte>, canon: Byte -> Letter, j: nat, suffix: nat, period: nat, memory: nat, to: nat)
    returns (found: bool, shift: nat, memory': nat, ghost steps: nat)
    requires j + |needle| <= |hay| && suffix <= to <= |needle| <= to + 1 && memory <= to
    requires PeriodicCut(Fold(canon, needle), suffix, period)
    requires Remembered(Fold(canon, hay), Fold(canon, needle), j, memory)
    requires Matches(Fold(canon, hay), Fold(canon, needle), j, to, |needle|)
    ensures Examined(Fold(canon, hay), Fold(canon, needle), j, found, shift)
    ensures !found ==> Remembered(Fold(canon, hay), Fold(canon, needle), j + shift, memory')
    ensures !found ==> memory' == 0 || memory' == |needle| - period
    ensures Affordable(|needle|, j, suffix, memory, steps + (|needle| - to), found, shift, memory')
  {
    hide Matches, Stands, NoneIn, Factored, Recurs, LocalRepetition;
    ghost var h, x := Fold(canon, hay), Fold(canon, needle);
    MemoryCoversRight(h, x, j, suffix, memory);
    var i, l;
    ghost var left;
    i, steps := ScanRight(hay, needle, canon, j, suffix, if suffix < memory then memory else suffix, to);
    if to <= i {
      MatchJoin(h, x, j, suffix, i, to, |needle|);
      l, left := ScanLeft(hay, needle, canon, j, suffix, memory);
      if l + 1 < memory + 1 {
        return true, 0, 0, steps + left;
      }
      PeriodicShift(h, x, suffix, period, j);
      return false, period, |needle| - period, steps + left;
    } else {
      RightMismatch(h, x, suffix, period, j, i);
      RememberNothing(h, x, j + (i - suffix + 1));
      return false, i - suffix + 1, 0, steps;
    }
  }

  /** The body of the aperiodic search loop, likewise. */
  method AperiodicWindow(hay: seq<Byte>, needle: seq<Byte>, canon: Byte -> Letter, j: nat, suffix: nat, period: nat, to: nat)
    returns (found: bool, shift: nat, ghost steps: nat)
    requires j + |needle| <= |hay| && suffix <= to <= |needle| <= to + 1
    requires AperiodicCut(Fold(canon, needle), suffix, period)
    requires Matches(Fold(canon, hay), Fold(canon, needle), j, to, |needle|)
    ensures Examined(Fold(canon, hay), Fold(canon, needle), j, found, shift)
    ensures Affordable(|needle|, j, suffix, 0, steps + (|needle| - to), found, shift, 0)
  {
    ghost var h, x := Fold(canon, hay), Fold(canon, needle);
    var i, l;
    ghost var left;
    i, steps := ScanRight(hay, needle, canon, j, suffix, suffix, to);
    if to <= i {
      MatchJoin(h, x, j, suffix, i, to, |needle|);
      l, left := ScanLeft(hay, needle, canon, j, suffix, 0);
      if l == -1 {
        return true, 0, steps + left;
      }
      LeftMismatch(h, x, suffix, j, period);
      return false, period, steps + left;
    } else {
      ghost var p :| Factored(x, suffix, p);
      RightMismatch(h, x, suffix, p, j, i);
      return false, i - suffix + 1, steps;
    }
  }

  /** The bytes looked at so far for the end of a string: each once, and the NUL. */
  ghost predicate Looked(h: Haystack, start: nat, known: nat, ok: bool, looked: nat) {
    && (h.Counted? ==> looked == 0 && start == known)
    && (h.Terminated? && ok ==> start + looked == known)
    && start + looked <= |Text(h)| + 1
  }

  lemma NothingLeft(h: Word, x: Word, j: nat)
    requires j + |x| <= |h|
    ensures Matches(h, x, j, |x|, |x|)
  {
  }

  /** two_way_short_needle */
  method ShortNeedle(haystack: Haystack, haystackLen: nat, needle: seq<Byte>, canon: Byte -> Letter)
    returns (r: Option<nat>, ghost steps: nat, ghost looked: nat)
    requires |needle| >= 1 && KnownLength(haystack, haystackLen, 0, |needle|)
    ensures FirstOccurrence(Fold(canon, Text(haystack)), Fold(canon, needle), r)
    ensures steps == 0 || steps <= 2 * |Text(haystack)| - |needle|
    ensures haystackLen + looked <= |Text(haystack)| + 1 && (haystack.Counted? ==> looked == 0)
  {
    hide PeriodicCut, AperiodicCut, Matches, Stands, FirstOccurrence;
    var n, hay := |needle|, Text(haystack);
    ghost var h, x := Fold(canon, hay), Fold(canon, needle);
    var suffix, period, periodic := PrepareNeedle(needle, canon);
    var j, memory, found, shift := 0, 0, false, 0;
    var ok, known;
    ghost var cost;
    steps := 0;
    ok, known, looked := Available(haystack, haystackLen, j, n);
    RememberNothing(h, x, 0);
    while ok
      invariant KnownLength(haystack, known, j, n) && (ok <==> j + n <= |hay|)
      invariant NoneIn(h, x, 0, j)
      invariant if periodic then Remembered(h, x, j, memory) else memory == 0
      invariant Looked(haystack, haystackLen, known, ok, looked)
      invariant steps <= Budget(j, suffix, memory) && (steps == 0 || steps <= 2 * |hay| - n)
      decreases |hay| + 1 - j, ok
    {
      NothingLeft(h, x, j);
      if periodic {
        found, shift, memory, cost := PeriodicWindow(hay, needle, canon, j, suffix, period, memory, n);
      } else {
        found, shift, cost := AperiodicWindow(hay, needle, canon, j, suffix, period, n);
      }
      steps := steps + cost;
      if found {
        FoundFirst(h, x, j);
        return Some(j), steps, looked;
      }
      NoneExtends(h, x, j, shift);
      j := j + shift;
      ok, known, cost := Available(haystack, known, j, n);
      looked := looked + cost;
    }
    FoundFirst(h, x, j);
    return None, steps, looked;
  }

  /** What the table holds once `x[..i]` has been entered. */
  ghost predicate TableFor(x: Word, table: seq<nat>, i: nat) {
    && |table| == 256 && i <= |x|
    && (forall c: Letter :: |x| - i <= table[c] <= |x|)
    && (forall c: Letter, k | |x| - table[c] <= k < i :: x[k] != c)
    && (forall c: Letter :: table[c] < |x| ==> x[|x| - 1 - table[c]] == c)
  }

  lemma TableStep(x: Word, table: seq<nat>, i: nat)
    requires TableFor(x, table, i) && i < |x|
    ensures TableFor(x, table[x[i] := |x| - i - 1], i + 1)
  {
  }

  lemma TableComplete(x: Word, table: seq<nat>, c: Letter)
    requires TableFor(x, table, |x|)
    ensures LastDistance(x, c, table[c])
  {
  }

  /** shift_table: for every byte, how far its last occurrence in the needle is from the end. */
  method FillShiftTable(needle: seq<Byte>, canon: Byte -> Letter) returns (table: array<nat>)
    requires |needle| >= 1
    ensures table.Length == 256
    ensures TableFor(Fold(canon, needle), table[..], |needle|)
  {
    ghost var x := Fold(canon, needle);
    var n := |needle|;
    table := new nat[256](_ => n);
    var i := 0;
    while i < n
      invariant 0 <= i <= n && TableFor(x, table[..], i)
    {
      TableStep(x, table[..], i);
      table[canon(needle[i])] := n - i - 1;
      i := i + 1;
    }
  }

  /** The first test of the long search: where the last byte of the window allows a shift at once. */
  method TableShift(hay: seq<Byte>, needle: seq<Byte>, canon: Byte -> Letter, table: array<nat>, j: nat)
    returns (shift: nat)
    requires |needle| >= 1 && j + |needle| <= |hay|
    requires table.Length == 256 && TableFor(Fold(canon, needle), table[..], |needle|)
    ensures NoneIn(Fold(canon, hay), Fold(canon, needle), j, shift)
    ensures shift == 0 <==> Matches(Fold(canon, hay), Fold(canon, needle), j, |needle| - 1, |needle|)
    ensures LastDistance(Fold(canon, needle), Fold(canon, hay)[j + |needle| - 1], shift)
  {
    ghost var h, x := Fold(canon, hay), Fold(canon, needle);
    var c := canon(hay[j + |needle| - 1]);
    shift := table[c];
    TableComplete(x, table[..], c);
    BadByteShift(h, x, j, shift);
  }

  /** In a periodic needle a letter stands within the last period, or not at all. */
  lemma LetterWithinPeriod(x: Word, period: nat, c: Letter, shift: nat)
    requires 1 <= period && Recurs(x, 0, period) && LastDistance(x, c, shift)
    ensures shift < period || shift == |x|
  {
    if period <= shift < |x| {
      AgreeAt(x, 0, period, |x| - period, |x| - 1 - shift);
    }
  }

  lemma TablePeriodicShift(h: Word, x: Word, suffix: nat, period: nat, j: nat, memory: nat, shift: nat)
    requires PeriodicCut(x, suffix, period) && Remembered(h, x, j, memory) && j + |x| <= |h|
    requires memory == 0 || memory == |x| - period
    requires 0 < shift && NoneIn(h, x, j, shift) && !Matches(h, x, j, |x| - 1, |x|)
    requires LastDistance(x, h[j + |x| - 1], shift)
    ensures var shift' := if memory > 0 && shift < period then |x| - period else shift;
            Examined(h, x, j, false, shift') && Remembered(h, x, j + shift', 0)
            && Budget(j, suffix, memory) + 1 <= Budget(j + shift', suffix, 0)
  {
    LetterWithinPeriod(x, period, h[j + |x| - 1], shift);
    if memory > 0 && shift < period {
      RememberedShift(h, x, period, j);
    }
  }

  /** What a search knows at the window at `j`, besides that there was no match before. */
  ghost predicate Carried(h: Word, x: Word, j: nat, period: nat, periodic: bool, memory: nat) {
    if periodic then Remembered(h, x, j, memory) && (memory == 0 || memory == |x| - period) else memory == 0
  }

  /** The body of either loop of the long search: the shift the table gives, or the window.  Looking up
      the last byte of the window is a comparison. */
  method LongWindow(hay: seq<Byte>, needle: seq<Byte>, canon: Byte -> Letter, table: array<nat>, j: nat,
                    suffix: nat, period: nat, periodic: bool, memory: nat)
    returns (found: bool, shift: nat, memory': nat, ghost steps: nat)
    requires j + |needle| <= |hay| && suffix < |needle|
    requires if periodic then PeriodicCut(Fold(canon, needle), suffix, period) else AperiodicCut(Fold(canon, needle), suffix, period)
    requires table.Length == 256 && TableFor(Fold(canon, needle), table[..], |needle|)
    requires Carried(Fold(canon, hay), Fold(canon, needle), j, period, periodic, memory)
    ensures Examined(Fold(canon, hay), Fold(canon, needle), j, found, shift)
    ensures !found ==> Carried(Fold(canon, hay), Fold(canon, needle), j + shift, period, periodic, memory')
    ensures Affordable(|needle|, j, suffix, memory, steps, found, shift, memory')
  {
    hide PeriodicCut, AperiodicCut, Matches, Stands, TableFor, LastDistance, NoneIn;
    ghost var h, x := Fold(canon, hay), Fold(canon, needle);
    found, memory', steps := false, 0, 0;
    shift := TableShift(hay, needle, canon, table, j);
    if 0 < shift {
      if periodic {
        TablePeriodicShift(h, x, suffix, period, j, memory, shift);
        if memory > 0 && shift < period {
          shift := |needle| - period;
        }
      }
    } else if periodic {
      found, shift, memory', steps := PeriodicWindow(hay, needle, canon, j, suffix, period, memory, |needle| - 1);
    } else {
      found, shift, steps := AperiodicWindow(hay, needle, canon, j, suffix, period, |needle| - 1);
    }
    steps := steps + 1;
  }

  /** two_way_long_needle */
  method LongNeedle(haystack: Haystack, haystackLen: nat, needle: seq<Byte>, canon: Byte -> Letter)
    returns (r: Option<nat>, ghost steps: nat, ghost looked: nat)
    requires |needle| >= 1 && KnownLength(haystack, haystackLen, 0, |needle|)
    ensures FirstOccurrence(Fold(canon, Text(haystack)), Fold(canon, needle), r)
    ensures steps == 0 || steps <= 2 * |Text(haystack)| - |needle|
    ensures haystackLen + looked <= |Text(haystack)| + 1 && (haystack.Counted? ==> looked == 0)
  {
    hide PeriodicCut, AperiodicCut, Matches, Stands, FirstOccurrence, TableFor;
    var n, hay := |needle|, Text(haystack);
    ghost var h, x := Fold(canon, hay), Fold(canon, needle);
    var suffix, period, periodic := PrepareNeedle(needle, canon);
    var table := FillShiftTable(needle, canon);
    var j, memory, found, shift := 0, 0, false, 0;
    var ok, known;
    ghost var cost;
    steps := 0;
    ok, known, looked := Available(haystack, haystackLen, j, n);
    RememberNothing(h, x, 0);
    while ok
      invariant KnownLength(haystack, known, j, n) && (ok <==> j + n <= |hay|)
      invariant NoneIn(h, x, 0, j)
      invariant table.Length == 256 && TableFor(x, table[..], n)
      invariant Carried(h, x, j, period, periodic, memory)
      invariant Looked(haystack, haystackLen, known, ok, looked)
      invariant steps <= Budget(j, suffix, memory) && (steps == 0 || steps <= 2 * |hay| - n)
      decreases |hay| + 1 - j, ok
    {
      found, shift, memory, cost := LongWindow(hay, needle, canon, table, j, suffix, period, periodic, memory);
      steps := steps + cost;
      if found {
        FoundFirst(h, x, j);
        return Some(j), steps, looked;
      }
      NoneExtends(h, x, j, shift);
      j := j + shift;
      ok, known, cost := Available(haystack, known, j, n);
      looked := looked + cost;
    }
    FoundFirst(h, x, j);
    return None, steps, looked;
  }
}
