/** escape_url and unescape_url of src/html.c. */
module UrlEscape {
  import opened Options
  import opened Words

  type Text = seq<Letter>

  const SPACE: Letter := 32
  const PERCENT: Letter := 37
  const PLUS: Letter := 43

  predicate Alphanumeric(c: Letter) {
    48 <= c <= 57 || 65 <= c <= 90 || 97 <= c <= 122
  }

  /** Section 2.3 of RFC 3986: letters, digits, and the marks - _ . ~ */
  predicate Unreserved(c: Letter) {
    Alphanumeric(c) || c == 45 || c == 95 || c == 46 || c == 126
  }

  function HexDigit(n: nat): Letter
    requires n < 16
  {
    if n < 10 then 48 + n else 55 + n
  }

  predicate IsHex(c: Letter) {
    48 <= c <= 57 || 65 <= c <= 70 || 97 <= c <= 102
  }

  function HexValue(c: Letter): (n: nat)
    requires IsHex(c)
    ensures n < 16
  {
    if c <= 57 then c - 48 else if c <= 70 then c - 55 else c - 87
  }

  // ----- escaping

  /** The first two digits the byte is printed with: a byte from 0x80 on is widened before it is
      printed, and where char is signed that puts FFFFFF before its own digits. */
  function Printed(c: Letter, signed: bool): Letter {
    if signed && c >= 0x80 then 0xff else c
  }

  function EscapeByte(c: Letter, signed: bool): Text {
    if Unreserved(c) then [c]
    else if c == SPACE then [PLUS]
    else [PERCENT, HexDigit(Printed(c, signed) / 16), HexDigit(Printed(c, signed) % 16)]
  }

  function Escape(s: Text, signed: bool): Text {
    if s == [] then [] else EscapeByte(s[0], signed) + Escape(s[1..], signed)
  }

  /** Unreserved characters, plus signs and percent triplets (section 2.1 of RFC 3986) only. */
  predicate WellFormed(t: Text) {
    t != [] ==>
      if t[0] == PERCENT then |t| >= 3 && IsHex(t[1]) && IsHex(t[2]) && WellFormed(t[3..])
      else (Unreserved(t[0]) || t[0] == PLUS) && WellFormed(t[1..])
  }

  /** The unreserved characters, spelled out. */
  lemma UnreservedBytes(c: Letter)
    ensures var x := c as char;
            Unreserved(c) <==> || 'A' <= x <= 'Z' || 'a' <= x <= 'z' || '0' <= x <= '9'
                               || x == '-' || x == '_' || x == '.' || x == '~'
  {
  }

  /** A space becomes a plus sign, any other byte that is not unreserved a percent sign and its two
      upper-case digits. */
  lemma EscapedByte(c: Letter)
    requires c < 0x80 && !Unreserved(c)
    ensures c == 32 ==> EscapeByte(c, true) == EscapeByte(c, false) == [43]
    ensures c != 32 ==> EscapeByte(c, true) == EscapeByte(c, false)
                        == [37, "0123456789ABCDEF"[c / 16] as int, "0123456789ABCDEF"[c % 16] as int]
  {
    UpperDigit(c / 16);
    UpperDigit(c % 16);
  }

  lemma UpperDigit(n: nat)
    requires n < 16
    ensures HexDigit(n) == "0123456789ABCDEF"[n] as int
  {
    assert n in {0, 1, 2, 3, 4, 5, 6, 7, 8, 9, 10, 11, 12, 13, 14, 15};
  }

  /** Text of unreserved characters only is left as it is. */
  lemma {:induction false} EscapePlain(s: Text, signed: bool)
    requires forall c | c in s :: Unreserved(c)
    ensures Escape(s, signed) == s
  {
    if s != [] {
      assert s[0] in s && forall c | c in s[1..] :: c in s;
      EscapePlain(s[1..], signed);
      assert s == [s[0]] + s[1..];
    }
  }

  /** Prepending what a byte is escaped to. */
  lemma EscapeByteThen(c: Letter, signed: bool, t: Text)
    ensures var e := EscapeByte(c, signed) + t;
      && e[0] == EscapeByte(c, signed)[0]
      && (|EscapeByte(c, signed)| == 1 ==> e[1..] == t)
      && (|EscapeByte(c, signed)| == 3 ==> e[1..3] == EscapeByte(c, signed)[1..] && e[3..] == t)
  {
  }

  lemma {:induction false} EscapeWellFormed(s: Text, signed: bool)
    ensures WellFormed(Escape(s, signed)) && |s| <= |Escape(s, signed)| <= 3 * |s|
  {
    if s != [] {
      EscapeWellFormed(s[1..], signed);
      EscapeByteFormed(s[0], signed, Escape(s[1..], signed));
    }
  }

  lemma EscapeByteFormed(c: Letter, signed: bool, t: Text)
    requires WellFormed(t)
    ensures WellFormed(EscapeByte(c, signed) + t) && 1 <= |EscapeByte(c, signed)| <= 3
  {
    EscapeByteThen(c, signed, t);
    var e := EscapeByte(c, signed) + t;
    assert e[0] == PERCENT <==> |EscapeByte(c, signed)| == 3;
    if e[0] == PERCENT {
      assert e[1..3][0] == e[1] && e[1..3][1] == e[2];
    }
  }

  lemma {:induction false} EscapeAppend(s: Text, c: Letter, signed: bool)
    ensures Escape(s + [c], signed) == Escape(s, signed) + EscapeByte(c, signed)
  {
    if s == [] {
      assert [c][1..] == [];
    } else {
      assert (s + [c])[0] == s[0] && (s + [c])[1..] == s[1..] + [c];
      EscapeAppend(s[1..], c, signed);
    }
  }

  /** Write what one byte is escaped to. */
  method PutEscaped(msg: array<Letter>, pos: nat, c: Letter, signed: bool) returns (next: nat)
    requires pos + 3 <= msg.Length
    modifies msg
    ensures next <= pos + 3 && msg[..next] == old(msg[..pos]) + EscapeByte(c, signed)
  {
    hide Unreserved, HexDigit, Printed;
    if Unreserved(c) {
      msg[pos] := c;
      next := pos + 1;
    } else if c == SPACE {
      msg[pos] := PLUS;
      next := pos + 1;
    } else {
      var x := Printed(c, signed);
      msg[pos], msg[pos + 1], msg[pos + 2] := PERCENT, HexDigit(x / 16), HexDigit(x % 16);
      next := pos + 3;
    }
  }

  /** escape_url: the text, NUL-terminated, and its length. */
  method EscapeUrl(url: Text, signed: bool) returns (msg: array<Letter>, pos: nat)
    ensures pos < msg.Length == 3 * |url| + 1 && msg[..pos] == Escape(url, signed) && msg[pos] == 0
  {
    hide EscapeByte;
    msg := new Letter[3 * |url| + 1];
    pos := 0;
    var i := 0;
    while i < |url|
      invariant i <= |url| && pos <= 3 * i && msg[..pos] == Escape(url[..i], signed)
    {
      EscapeAppend(url[..i], url[i], signed);
      assert url[..i] + [url[i]] == url[..i + 1];
      pos := PutEscaped(msg, pos, url[i], signed);
      i := i + 1;
    }
    assert url[..|url|] == url;
    msg[pos] := 0;
  }

  // ----- unescaping

  /** What the scanner of the C library makes of the two bytes after a percent sign. */
  type Scanner = (Letter, Letter) -> Option<Letter>

  ghost predicate ReadsHex(scan: Scanner) {
    forall a, b | IsHex(a) && IsHex(b) :: scan(a, b) == Some(16 * HexValue(a) + HexValue(b))
  }

  /** The bytes of the text, and behind it whatever is in memory there. */
  function At(url: Text, beyond: nat -> Letter, i: nat): Letter {
    if i < |url| then url[i] else beyond(i)
  }

  /** What `url[i..]` stands for.  A percent sign takes the two bytes after it, also when they are past
      the end. */
  function Unescape(url: Text, beyond: nat -> Letter, i: nat, scan: Scanner): (r: Option<Text>)
    decreases |url| - i
  {
    if i >= |url| then Some([])
    else if url[i] == PERCENT then
      var c := scan(At(url, beyond, i + 1), At(url, beyond, i + 2));
      if c.None? then None else
      var rest := Unescape(url, beyond, i + 3, scan);
      if rest.None? then None else Some([c.value] + rest.value)
    else
      var rest := Unescape(url, beyond, i + 1, scan);
      if rest.None? then None else Some([if url[i] == PLUS then SPACE else url[i]] + rest.value)
  }

  /** Without a percent sign every byte stands for itself, but for the plus sign, which is a space. */
  lemma {:induction false} UnescapePlain(url: Text, beyond: nat -> Letter, i: nat, scan: Scanner)
    requires i <= |url| && forall k | i <= k < |url| :: url[k] != 37
    ensures var r := Unescape(url, beyond, i, scan);
      && r.Some? && |r.value| == |url| - i
      && forall k | i <= k < |url| :: r.value[k - i] == if url[k] == 43 then 32 else url[k]
    decreases |url| - i
  {
    if i < |url| {
      UnescapePlain(url, beyond, i + 1, scan);
      var r, rest := Unescape(url, beyond, i, scan), Unescape(url, beyond, i + 1, scan);
      assert r.value == [r.value[0]] + rest.value;
      forall k | i <= k < |url| ensures r.value[k - i] == if url[k] == 43 then 32 else url[k] {
        if i < k {
          assert r.value[k - i] == rest.value[k - (i + 1)];
        }
      }
    }
  }

  /** A percent sign takes the next two bytes: what they scan to comes first, and if they do not scan
      there is no result. */
  lemma UnescapePercent(url: Text, beyond: nat -> Letter, i: nat, scan: Scanner)
    requires i < |url| && url[i] == 37
    ensures var r := Unescape(url, beyond, i, scan);
      var c := scan(if i + 1 < |url| then url[i + 1] else beyond(i + 1), if i + 2 < |url| then url[i + 2] else beyond(i + 2));
      var rest := Unescape(url, beyond, i + 3, scan);
      if c.Some? && rest.Some? then r == Some([c.value] + rest.value) else r == None
  {
  }

  /** Every percent sign that is met has two bytes after it. */
  predicate Complete(url: Text, i: nat)
    decreases |url| - i
  {
    i < |url| ==> if url[i] == PERCENT then i + 2 < |url| && Complete(url, i + 3) else Complete(url, i + 1)
  }

  /** Then it does not matter what is behind the text. */
  lemma {:induction false} BeyondIrrelevant(url: Text, beyond: nat -> Letter, beyond': nat -> Letter, i: nat, scan: Scanner)
    requires Complete(url, i)
    ensures Unescape(url, beyond, i, scan) == Unescape(url, beyond', i, scan)
    decreases |url| - i
  {
    if i < |url| {
      BeyondIrrelevant(url, beyond, beyond', if url[i] == PERCENT then i + 3 else i + 1, scan);
    }
  }

  /** `done` and what is still to come make up the whole result. */
  ghost predicate Ahead(goal: Option<Text>, done: Text, rest: Option<Text>) {
    if rest.None? then goal.None? else goal == Some(done + rest.value)
  }

  lemma AheadStep(goal: Option<Text>, done: Text, c: Letter, rest: Option<Text>)
    requires Ahead(goal, done, if rest.None? then None else Some([c] + rest.value))
    ensures Ahead(goal, done + [c], rest)
  {
    if rest.Some? {
      assert done + ([c] + rest.value) == (done + [c]) + rest.value;
    }
  }

  /** unescape_url. */
  method UnescapeUrl(url: Text, beyond: nat -> Letter, scan: Scanner) returns (ok: bool, msg: array<Letter>, pos: nat)
    ensures ok <==> Unescape(url, beyond, 0, scan).Some?
    ensures ok ==> pos < msg.Length == |url| + 1 && Unescape(url, beyond, 0, scan) == Some(msg[..pos]) && msg[pos] == 0
  {
    msg := new Letter[|url| + 1];
    pos := 0;
    ghost var goal := Unescape(url, beyond, 0, scan);
    assert goal.Some? ==> msg[..0] + goal.value == goal.value;
    var i := 0;
    while i < |url|
      invariant pos <= i && pos <= |url| && Ahead(goal, msg[..pos], Unescape(url, beyond, i, scan))
      decreases |url| - i
    {
      ghost var before := msg[..pos];
      var c := if url[i] == PLUS then SPACE else url[i];
      if url[i] == PERCENT {
        var x := scan(At(url, beyond, i + 1), At(url, beyond, i + 2));
        if x.None? {
          return false, msg, pos;
        }
        c := x.value;
        i := i + 3;
      } else {
        i := i + 1;
      }
      AheadStep(goal, before, c, Unescape(url, beyond, i, scan));
      msg[pos] := c;
      pos := pos + 1;
      assert msg[..pos] == before + [c];
    }
    assert Unescape(url, beyond, i, scan) == Some([]);
    assert goal == Some(msg[..pos]) by {
      assert msg[..pos] + [] == msg[..pos];
    }
    msg[pos] := 0;
    return true, msg, pos;
  }

  // ----- the round trip

  /** The byte survives escaping and unescaping. */
  predicate Survives(c: Letter, signed: bool) {
    !signed || c < 0x80 || c == 0xff
  }

  function Survivor(c: Letter, signed: bool): Letter {
    if Survives(c, signed) then c else 0xff
  }

  function Survivors(s: Text, signed: bool): (r: Text)
    ensures |r| == |s| && forall i | 0 <= i < |s| :: r[i] == Survivor(s[i], signed)
  {
    if s == [] then [] else [Survivor(s[0], signed)] + Survivors(s[1..], signed)
  }

  lemma EscapeByteRead(c: Letter, signed: bool, scan: Scanner)
    requires ReadsHex(scan)
    ensures var e := EscapeByte(c, signed);
      if e[0] == PERCENT then |e| == 3 && scan(e[1], e[2]) == Some(Survivor(c, signed))
      else |e| == 1 && (if e[0] == PLUS then SPACE else e[0]) == Survivor(c, signed)
  {
    var x := Printed(c, signed);
    assert 16 * HexValue(HexDigit(x / 16)) + HexValue(HexDigit(x % 16)) == x;
  }

  /** Unescaping what was written for `s` from `i` on. */
  lemma {:induction false} UnescapeEscaped(url: Text, beyond: nat -> Letter, i: nat, s: Text, signed: bool, scan: Scanner)
    requires ReadsHex(scan) && i <= |url| && url[i..] == Escape(s, signed)
    ensures Unescape(url, beyond, i, scan) == Some(Survivors(s, signed))
    decreases |s|
  {
    if s != [] {
      var e := EscapeByte(s[0], signed);
      EscapeByteRead(s[0], signed, scan);
      EscapeByteThen(s[0], signed, Escape(s[1..], signed));
      assert url[i] == url[i..][0] == e[0];
      if e[0] == PERCENT {
        assert url[i + 1] == url[i..][1] && url[i + 2] == url[i..][2];
        assert url[i + 3..] == url[i..][3..];
        UnescapeEscaped(url, beyond, i + 3, s[1..], signed, scan);
      } else {
        assert url[i + 1..] == url[i..][1..];
        UnescapeEscaped(url, beyond, i + 1, s[1..], signed, scan);
      }
    }
  }

  /** unescape_url undoes escape_url exactly when no byte is lost: always where char is unsigned, and
      where it is signed for texts without bytes from 0x80 to 0xfe. */
  lemma RoundTrip(s: Text, beyond: nat -> Letter, signed: bool, scan: Scanner)
    requires ReadsHex(scan)
    ensures Unescape(Escape(s, signed), beyond, 0, scan) == Some(s) <==> forall c | c in s :: Survives(c, signed)
  {
    var url := Escape(s, signed);
    assert url[0..] == url;
    UnescapeEscaped(url, beyond, 0, s, signed, scan);
    var r := Survivors(s, signed);
    if forall c | c in s :: Survives(c, signed) {
      assert r == s;
    } else {
      var c :| c in s && !Survives(c, signed);
      var i :| 0 <= i < |s| && s[i] == c;
      assert r[i] != s[i];
    }
  }
}
