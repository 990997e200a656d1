/** Escaping of strings and the in-place algorithm that undoes it. Characters stand
    for bytes; a C string holds no zero byte. */
module Escaping {
  import opened Wrappers

  /** The table of characters with an escape sequence of their own and the letter
      that follows the backslash in it. */
  const ESCAPES: seq<(char, char)> := [
    (7 as char, 'a'), (8 as char, 'b'), (12 as char, 'f'), (10 as char, 'n'), (13 as char, 'r'),
    (9 as char, 't'), (11 as char, 'v'), ('\\', '\\'), ('\"', '\"')]

  /** Characters that occur in 7-bit C strings. */
  predicate CString(s: string) {
    forall i :: 0 <= i < |s| ==> 1 <= s[i] as int <= 127
  }

  /** Characters that occur in any C string. */
  predicate Bytes(s: string) {
    forall i :: 0 <= i < |s| ==> 1 <= s[i] as int <= 255
  }

  predicate IsPrint(c: char) {
    32 <= c as int <= 126
  }

  predicate IsOctal(c: char) {
    '0' <= c <= '7'
  }

  predicate IsHex(c: char) {
    '0' <= c <= '9' || 'a' <= c <= 'f' || 'A' <= c <= 'F'
  }

  function HexValue(c: char): nat
    requires IsHex(c)
  {
    if '0' <= c <= '9' then c as int - '0' as int
    else if 'a' <= c <= 'f' then c as int - 'a' as int + 10
    else c as int - 'A' as int + 10
  }

  function HexDigit(v: nat): char
    requires v < 16
  {
    if v < 10 then (v + 48) as char else (v + 55) as char
  }

  /** The byte a number is truncated to. */
  function Byte(v: nat): char {
    (v % 256) as char
  }

  /** The escape letter of a character, by the table. */
  function LetterOf(c: char, k: nat): Option<char>
    requires k <= |ESCAPES|
    decreases |ESCAPES| - k
  {
    if k == |ESCAPES| then None
    else if ESCAPES[k].0 == c then Some(ESCAPES[k].1)
    else LetterOf(c, k + 1)
  }

  /** The character that an escape letter stands for, by the table. */
  function CharOf(letter: char, k: nat): Option<char>
    requires k <= |ESCAPES|
    decreases |ESCAPES| - k
  {
    if k == |ESCAPES| then None
    else if ESCAPES[k].1 == letter then Some(ESCAPES[k].0)
    else CharOf(letter, k + 1)
  }

  /** The digits behind `\\x`. A character is signed: from 128 on it is converted to a
      negative number of eight hexadecimal digits, of which the first two fit. */
  function HexDigits(c: char): string
    requires c as int < 256
  {
    if c as int < 128 then [HexDigit(c as int / 16), HexDigit(c as int % 16)] else "FF"
  }

  function EscapeChar(c: char): string
    requires c as int < 256
  {
    match LetterOf(c, 0)
    case Some(letter) => ['\\', letter]
    case None => if IsPrint(c) then [c] else "\\x" + HexDigits(c)
  }

  function Escape(s: string): string
    requires Bytes(s)
  {
    if s == "" then "" else EscapeChar(s[0]) + Escape(s[1..])
  }

  /** What an escape sequence after a backslash stands for, and its length without
      the backslash. */
  function Sequence(t: string): Option<(char, nat)>
    requires t != ""
  {
    if t[0] == 'x' then
      if |t| < 2 || !IsHex(t[1]) then None
      else if |t| > 2 && IsHex(t[2]) then Some((Byte(16 * HexValue(t[1]) + HexValue(t[2])), 3))
      else Some((Byte(HexValue(t[1])), 2))
    else if IsOctal(t[0]) then
      if |t| > 2 && IsOctal(t[1]) && IsOctal(t[2]) then
        Some((Byte(64 * HexValue(t[0]) + 8 * HexValue(t[1]) + HexValue(t[2])), 3))
      else if |t| > 1 && IsOctal(t[1]) then Some((Byte(8 * HexValue(t[0]) + HexValue(t[1])), 2))
      else Some((Byte(HexValue(t[0])), 1))
    else
      match CharOf(t[0], 0)
      case Some(c) => Some((c, 1))
      case None => None
  }

  lemma SequenceLength(t: string)
    requires t != "" && Sequence(t).Some?
    ensures 1 <= Sequence(t).value.1 <= |t|
  {
  }

  /** The meaning of a text with escape sequences. A lone backslash at the end stays. */
  function Unescape(t: string): Option<string>
    decreases |t|
  {
    if t == "" then Some("")
    else if t[0] != '\\' then Prepend(t[..1], Unescape(t[1..]))
    else if |t| == 1 then Some(t)
    else match Sequence(t[1..])
      case None => None
      case Some(r) =>
        SequenceLength(t[1..]);
        Prepend([r.0], Unescape(t[1 + r.1..]))
  }

  function Prepend(s: string, r: Option<string>): Option<string> {
    match r
    case Some(t) => Some(s + t)
    case None => None
  }

  // ----- Unescaping undoes escaping -----

  lemma TableIsInvertible(c: char)
    ensures LetterOf(c, 0).Some? ==>
      var l := LetterOf(c, 0).value;
      CharOf(l, 0) == Some(c) && l != 'x' && !IsOctal(l)
    ensures LetterOf(c, 0) == None ==> c != '\\' && c != '\"'
  {
    LetterCases(c);
  }

  lemma LetterCases(c: char)
    ensures LetterOf(c, 0) ==
      if c == 7 as char then Some('a') else if c == 8 as char then Some('b') else if c == 12 as char then Some('f')
      else if c == 10 as char then Some('n') else if c == 13 as char then Some('r')
      else if c == 9 as char then Some('t') else if c == 11 as char then Some('v')
      else if c == '\\' then Some('\\') else if c == '\"' then Some('\"') else None
  {
    LetterStep(c, 8);
    LetterStep(c, 6);
    LetterStep(c, 4);
    LetterStep(c, 2);
  }

  lemma LetterStep(c: char, k: nat)
    requires k <= 8
    ensures LetterOf(c, k) == if ESCAPES[k].0 == c then Some(ESCAPES[k].1) else LetterOf(c, k + 1)
  {
  }

  lemma HexDigitIsHex(v: nat)
    requires v < 16
    ensures IsHex(HexDigit(v)) && HexValue(HexDigit(v)) == v && HexDigit(v) != '\\' && HexDigit(v) != '\"'
  {
  }

  /** What is left of a character: from 128 on all look the same once escaped. */
  function Narrow(c: char): char {
    if c as int < 128 then c else 255 as char
  }

  function NarrowAll(s: string): string {
    seq(|s|, i requires 0 <= i < |s| => Narrow(s[i]))
  }

  /** One escaped character is read back, whatever follows it; it is the same unless its
      number is 128 or above. */
  lemma UnescapeEscapedChar(c: char, rest: string)
    requires c as int < 256
    ensures Unescape(EscapeChar(c) + rest) == Prepend([Narrow(c)], Unescape(rest))
  {
    TableIsInvertible(c);
    var t := EscapeChar(c) + rest;
    if LetterOf(c, 0).Some? {
      LetterCases(c);
      assert t[1..][1..] == rest;
      assert t[2..] == rest;
      assert Sequence(t[1..]) == Some((c, 1));
    } else if IsPrint(c) {
      assert t[1..] == rest;
      assert t[..1] == [c];
    } else {
      var n := Narrow(c) as int;
      HexDigitIsHex(n / 16);
      HexDigitIsHex(n % 16);
      assert HexDigits(c) == [HexDigit(n / 16), HexDigit(n % 16)];
      assert t[1..] == ['x', HexDigit(n / 16), HexDigit(n % 16)] + rest;
      assert Sequence(t[1..]) == Some((Narrow(c), 3));
      assert t[4..] == rest;
    }
  }

  lemma {:induction false} UnescapeEscaped(s: string)
    requires Bytes(s)
    ensures Unescape(Escape(s)) == Some(NarrowAll(s))
  {
    if s != "" {
      UnescapeEscapedChar(s[0], Escape(s[1..]));
      UnescapeEscaped(s[1..]);
      assert NarrowAll(s) == [Narrow(s[0])] + NarrowAll(s[1..]);
    }
  }

  /** Characters that unescaping gives back as they were: none lies from 128 to 254. */
  predicate Narrows(s: string) {
    forall i :: 0 <= i < |s| ==> s[i] as int < 128 || s[i] as int == 255
  }

  lemma NarrowAllIff(s: string)
    ensures NarrowAll(s) == s <==> Narrows(s)
    ensures Bytes(s) ==> Bytes(NarrowAll(s))
    ensures Bytes(s) ==> Narrows(NarrowAll(s))
  {
    if NarrowAll(s) == s {
      forall i | 0 <= i < |s| ensures s[i] as int < 128 || s[i] as int == 255 {
        assert NarrowAll(s)[i] == s[i];
      }
    }
  }

  /** Unescaping an escaped string gives a string back, and it is the same one if and only
      if no character lies from 128 to 254. */
  lemma UnescapeEscapeIff(s: string)
    requires Bytes(s)
    ensures Unescape(Escape(s)).Some?
    ensures Unescape(Escape(s)) == Some(s) <==> Narrows(s)
  {
    UnescapeEscaped(s);
    NarrowAllIff(s);
  }

  /** What unescaping makes of an escaped string is escaped alike. */
  lemma {:induction false} EscapeNarrowed(s: string)
    requires Bytes(s)
    ensures Bytes(NarrowAll(s)) && Escape(NarrowAll(s)) == Escape(s)
  {
    if s != "" {
      EscapeNarrowed(s[1..]);
      LetterCases(s[0]);
      LetterCases(255 as char);
      assert NarrowAll(s)[1..] == NarrowAll(s[1..]);
    }
  }

  /** So it does for all 7-bit strings. */
  lemma UnescapeEscape(s: string)
    requires CString(s)
    ensures Unescape(Escape(s)) == Some(s)
  {
    UnescapeEscapeIff(s);
  }

  /** Escaped text is printable ASCII. */
  lemma {:induction false} EscapedIsPrintable(s: string)
    requires Bytes(s)
    ensures forall i :: 0 <= i < |Escape(s)| ==> IsPrint(Escape(s)[i])
  {
    if s != "" {
      EscapedIsPrintable(s[1..]);
      LetterCases(s[0]);
    }
  }

  // ----- The program's loops -----

  /** The loop over the table of replacements, and what happens if none matches. */
  method Replacement(c: char) returns (r: string)
    requires c as int < 256
    ensures r == EscapeChar(c)
  {
    var k := 0;
    while k < |ESCAPES|
      invariant 0 <= k <= |ESCAPES| && LetterOf(c, 0) == LetterOf(c, k)
    {
      if ESCAPES[k].0 == c {
        return ['\\', ESCAPES[k].1];
      }
      k := k + 1;
    }
    if IsPrint(c) {
      return [c];
    }
    return "\\x" + HexDigits(c);
  }

  /** am_escape_string. */
  method EscapeString(s: string) returns (out: string)
    requires Bytes(s)
    ensures out == Escape(s)
  {
    out := "";
    var i := 0;
    while i < |s|
      invariant 0 <= i <= |s|
      invariant out + Escape(s[i..]) == Escape(s)
    {
      var r := Replacement(s[i]);
      out := out + r;
      assert s[i..][1..] == s[i + 1..];
      i := i + 1;
    }
  }

  /** memmove within one array. */
  method MoveDown(a: array<char>, dst: nat, src: nat, n: nat)
    requires dst <= src && src + n <= a.Length
    modifies a
    ensures forall k :: dst <= k < dst + n ==> a[k] == old(a[k - dst + src])
    ensures forall k :: 0 <= k < dst || dst + n <= k < a.Length ==> a[k] == old(a[k])
  {
    var i := 0;
    while i < n
      invariant 0 <= i <= n
      invariant forall k :: dst <= k < dst + i ==> a[k] == old(a[k - dst + src])
      invariant forall k :: 0 <= k < dst || dst + i <= k < a.Length ==> a[k] == old(a[k])
    {
      a[dst + i] := a[src + i];
      i := i + 1;
    }
  }

  /** Replaces the escape sequence of `m` characters after the backslash at `i - 1` by
      the character `c`; the text of length `len` shrinks by `m`. */
  method Collapse(a: array<char>, i: nat, m: nat, c: char, len: nat)
    requires 1 <= i && i + m <= len <= a.Length
    modifies a
    ensures a[..len - m] == old(a[..i - 1]) + [c] + old(a[i + m..len])
  {
    ghost var want := a[..i - 1] + [c] + a[i + m..len];
    a[i - 1] := c;
    MoveDown(a, i, i + m, len - i - m);
    assert |want| == len - m;
    forall k | 0 <= k < len - m ensures a[k] == want[k] {
      assert k >= i ==> want[k] == old(a[k + m]);
    }
    assert a[..len - m] == want;
  }

  /** The state of the scan: the text before the current position is done, what is
      left from the last unread backslash or the current position on is not. */
  ghost predicate Scanned(orig: string, text: string, i: nat, inEscape: bool) {
    var d := if inEscape then i - 1 else i;
    0 <= d <= i <= |text| && (inEscape ==> text[d] == '\\') &&
    Unescape(orig) == Prepend(text[..d], Unescape(text[d..]))
  }

  lemma ScanStarts(text: string)
    ensures Scanned(text, text, 0, false)
  {
    assert text[0..] == text && text[..0] == "";
    var r := Unescape(text);
    if r.Some? { assert "" + r.value == r.value; }
  }

  lemma ScanPlain(orig: string, text: string, i: nat)
    requires Scanned(orig, text, i, false) && i < |text|
    ensures text[i] != '\\' ==> Scanned(orig, text, i + 1, false)
    ensures text[i] == '\\' ==> Scanned(orig, text, i + 1, true)
  {
    assert text[i..][1..] == text[i + 1..];
    assert text[i..][..1] == [text[i]];
    assert text[..i] + [text[i]] == text[..i + 1];
    var r := Unescape(text[i + 1..]);
    if r.Some? {
      assert text[..i] + ([text[i]] + r.value) == text[..i + 1] + r.value;
    }
  }

  lemma ScanSequence(orig: string, text: string, i: nat, text': string)
    requires Scanned(orig, text, i, true) && i < |text| && Sequence(text[i..]).Some?
    requires var r := Sequence(text[i..]).value; i + r.1 <= |text| && text' == text[..i - 1] + [r.0] + text[i + r.1..]
    ensures Scanned(orig, text', i, false)
  {
    var r := Sequence(text[i..]).value;
    var d := i - 1;
    assert text[d..][1..] == text[i..];
    assert text[d..][1 + r.1..] == text[i + r.1..];
    assert text'[..i] == text[..d] + [r.0];
    assert text'[i..] == text[i + r.1..];
    var u := Unescape(text[i + r.1..]);
    if u.Some? {
      assert text[..d] + ([r.0] + u.value) == text[..d] + [r.0] + u.value;
    }
  }

  lemma ScanFails(orig: string, text: string, i: nat)
    requires Scanned(orig, text, i, true) && i < |text| && Sequence(text[i..]) == None
    ensures Unescape(orig) == None
  {
    assert text[i - 1..][1..] == text[i..];
  }

  lemma ScanEnds(orig: string, text: string, inEscape: bool)
    requires Scanned(orig, text, |text|, inEscape)
    ensures Unescape(orig) == Some(text)
  {
    if inEscape {
      var d := |text| - 1;
      assert text[d..] == [text[d]];
      assert text[..d] + text[d..] == text;
    } else {
      assert text[|text|..] == "";
      assert text[..|text|] + "" == text;
    }
  }

  /** The escape sequence at position `i` of a text of length `len`. */
  method ReadSequence(a: array<char>, i: nat, len: nat) returns (r: Option<(char, nat)>)
    requires i < len <= a.Length
    ensures r == Sequence(a[i..len])
  {
    var t := a[i..len];
    if t[0] == 'x' {
      if len - i < 2 || !IsHex(t[1]) {
        return None;
      }
      if len - i > 2 && IsHex(t[2]) {
        return Some((Byte(16 * HexValue(t[1]) + HexValue(t[2])), 3));
      }
      return Some((Byte(HexValue(t[1])), 2));
    }
    if IsOctal(t[0]) {
      if len - i > 2 && IsOctal(t[1]) && IsOctal(t[2]) {
        return Some((Byte(64 * HexValue(t[0]) + 8 * HexValue(t[1]) + HexValue(t[2])), 3));
      }
      if len - i > 1 && IsOctal(t[1]) {
        return Some((Byte(8 * HexValue(t[0]) + HexValue(t[1])), 2));
      }
      return Some((Byte(HexValue(t[0])), 1));
    }
    var k := 0;
    while k < |ESCAPES|
      invariant 0 <= k <= |ESCAPES| && CharOf(t[0], 0) == CharOf(t[0], k)
    {
      if ESCAPES[k].1 == t[0] {
        return Some((ESCAPES[k].0, 1));
      }
      k := k + 1;
    }
    return None;
  }

  /** Handles the sequence after the backslash at `i - 1`. */
  method ReplaceSequence(a: array<char>, i: nat, len: nat, ghost orig: string) returns (failed: bool, newLen: nat)
    requires i < len <= a.Length && Scanned(orig, a[..len], i, true)
    modifies a
    ensures failed ==> Unescape(orig) == None && newLen == len
    ensures !failed ==> i <= newLen < len && Scanned(orig, a[..newLen], i, false)
  {
    ghost var text := a[..len];
    var r := ReadSequence(a, i, len);
    assert a[i..len] == text[i..];
    if r == None {
      ScanFails(orig, text, i);
      return true, len;
    }
    SequenceLength(text[i..]);
    Collapse(a, i, r.value.1, r.value.0, len);
    newLen := len - r.value.1;
    ScanSequence(orig, text, i, a[..newLen]);
    return false, newLen;
  }

  /** am_unescape_string_in_place: the text in the first `size` elements of the array
      is replaced by its meaning, unless an escape sequence is malformed. */
  method UnescapeInPlace(a: array<char>, size: nat) returns (failed: bool, len: nat)
    requires size <= a.Length
    modifies a
    ensures len <= size
    ensures failed <==> Unescape(old(a[..size])) == None
    ensures !failed ==> Unescape(old(a[..size])) == Some(a[..len])
  {
    ghost var orig := a[..size];
    len := size;
    var i := 0;
    var inEscape := false;
    ScanStarts(orig);
    while i < len
      invariant 0 <= i <= len <= size && Scanned(orig, a[..len], i, inEscape)
      decreases len - i
    {
      if inEscape {
        failed, len := ReplaceSequence(a, i, len, orig);
        if failed {
          return;
        }
        inEscape := false;
      } else {
        ScanPlain(orig, a[..len], i);
        if a[i] == '\\' {
          inEscape := true;
        }
        i := i + 1;
      }
    }
    ScanEnds(orig, a[..len], inEscape);
    return false, len;
  }
}
