/** The lexical rules of the object notation, as functions of a text and a position. */
module Lexing {
  import opened Wrappers
  import opened Escaping
  import opened Numbers

  predicate IsBlank(c: char) {
    c == ' ' || c == '\t' || c == '\n'
  }

  predicate IsAlpha(c: char) {
    'a' <= c <= 'z' || 'A' <= c <= 'Z'
  }

  predicate IsIdentStart(c: char) {
    IsAlpha(c) || c == '_'
  }

  predicate IsIdentNext(c: char) {
    IsAlpha(c) || IsDigit(c) || c == '_'
  }

  predicate IsGroupNext(c: char) {
    IsIdentNext(c) || c == ':' || c == '<' || c == '>' || c == '*' || c == ','
  }

  /** The end of the longest run of characters with property `p` from `i` on. */
  function Span(s: string, i: nat, p: char -> bool): (j: nat)
    requires i <= |s|
    ensures i <= j <= |s|
    decreases |s| - i
  {
    if i < |s| && p(s[i]) then Span(s, i + 1, p) else i
  }

  function SkipBlanks(s: string, i: nat): (j: nat)
    requires i <= |s|
    ensures i <= j <= |s|
  {
    Span(s, i, IsBlank)
  }

  /** A name: one character with property `first`, then characters with `next`. */
  function ReadName(s: string, i: nat, first: char -> bool, next: char -> bool): (r: Option<nat>)
    requires i <= |s|
    ensures r.Some? ==> i < r.value <= |s|
  {
    if i < |s| && first(s[i]) then Some(Span(s, i + 1, next)) else None
  }

  /** The position after the closing quote of a literal whose body is read from `i`
      on; `escaped` tells whether the character before was an unpaired backslash. */
  function StringEnd(s: string, i: nat, escaped: bool): (r: Option<nat>)
    requires i <= |s|
    ensures r.Some? ==> i < r.value <= |s|
    decreases |s| - i
  {
    if i == |s| then None
    else if s[i] == '\\' then StringEnd(s, i + 1, !escaped)
    else if !escaped && s[i] == '\"' then Some(i + 1)
    else StringEnd(s, i + 1, false)
  }

  /** am_parser_read_string. */
  function ReadString(s: string, i: nat): (r: Option<nat>)
    requires i <= |s|
    ensures r.Some? ==> i + 2 <= r.value <= |s|
  {
    if i < |s| && s[i] == '\"' then StringEnd(s, i + 1, false) else None
  }

  function ReadDigits(s: string, i: nat): (r: Option<nat>)
    requires i <= |s|
    ensures r.Some? ==> i < r.value <= |s|
  {
    ReadName(s, i, IsDigit, IsDigit)
  }

  /** The text `t` stands at position `i` of `s`. */
  predicate HasAt(s: string, i: nat, t: string) {
    i + |t| <= |s| && forall k :: 0 <= k < |t| ==> t[k] == s[i + k]
  }

  /** Digits followed by a suffix of three characters. */
  function ReadSuffixed(s: string, i: nat, suffix: string): (r: Option<nat>)
    requires i <= |s| && |suffix| == 3
    ensures r.Some? ==> i + 4 <= r.value <= |s|
  {
    match ReadDigits(s, i)
    case None => None
    case Some(j) => if HasAt(s, j, suffix) then Some(j + 3) else None
  }

  /** am_parser_read_int64. */
  function ReadInt64(s: string, i: nat): (r: Option<nat>)
    requires i <= |s|
    ensures r.Some? ==> i + 4 <= r.value <= |s|
  {
    if i < |s| && s[i] == '-' then ReadSuffixed(s, i + 1, "i64") else ReadSuffixed(s, i, "i64")
  }

  /** am_parser_read_uint64. */
  function ReadUint64(s: string, i: nat): (r: Option<nat>)
    requires i <= |s|
    ensures r.Some? ==> i + 4 <= r.value <= |s|
  {
    ReadSuffixed(s, i, "u64")
  }

  /** The end of digits with at most one dot, and whether a dot has been read. */
  function DoubleEnd(s: string, i: nat, dot: bool): (r: (nat, bool))
    requires i <= |s|
    ensures i <= r.0 <= |s|
    decreases |s| - i
  {
    if i < |s| && (IsDigit(s[i]) || (!dot && s[i] == '.')) then DoubleEnd(s, i + 1, dot || s[i] == '.') else (i, dot)
  }

  /** am_parser_read_double: digits with exactly one dot and at least one digit. */
  function ReadDouble(s: string, i: nat): (r: Option<nat>)
    requires i <= |s|
    ensures r.Some? ==> i < r.value <= |s|
  {
    if i < |s| && (IsDigit(s[i]) || s[i] == '.' || s[i] == '-') then
      var e := DoubleEnd(s, i + 1, s[i] == '.');
      if !e.1 || e.0 - i == 1 || (s[i] == '-' && e.0 - i == 2) then None else Some(e.0)
    else None
  }

  /** The form of what %f writes for a finite number: an optional sign, digits, a dot and
      six digits. */
  predicate FixedPoint(t: string) {
    |t| >= 8 && t[|t| - 7] == '.' && (IsDigit(t[0]) || (t[0] == '-' && |t| >= 9)) &&
    forall k :: 1 <= k < |t| && k != |t| - 7 ==> IsDigit(t[k])
  }

  // ----- Where tokens end -----

  lemma {:induction false} SpanStops(s: string, i: nat, j: nat, p: char -> bool)
    requires i <= j <= |s| && (forall k :: i <= k < j ==> p(s[k])) && (j == |s| || !p(s[j]))
    ensures Span(s, i, p) == j
    decreases j - i
  {
    if i < j {
      SpanStops(s, i + 1, j, p);
    }
  }

  lemma {:induction false} SpanEnds(s: string, i: nat, p: char -> bool)
    requires i <= |s|
    ensures forall k :: i <= k < Span(s, i, p) ==> p(s[k])
    ensures Span(s, i, p) < |s| ==> !p(s[Span(s, i, p)])
    decreases |s| - i
  {
    if i < |s| && p(s[i]) {
      SpanEnds(s, i + 1, p);
    }
  }

  lemma HasAtChars(s: string, i: nat, t: string)
    requires HasAt(s, i, t)
    ensures i + |t| <= |s| && forall k :: 0 <= k < |t| ==> s[i + k] == t[k]
    ensures forall k :: i <= k < i + |t| ==> s[k] == t[k - i]
    ensures s[i..i + |t|] == t
  {
    forall k | i <= k < i + |t| ensures s[k] == t[k - i] {
      assert t[k - i] == s[i + (k - i)];
    }
  }

  lemma HasAtConcat(s: string, i: nat, a: string, b: string)
    ensures HasAt(s, i, a + b) <==> HasAt(s, i, a) && HasAt(s, i + |a|, b)
  {
    if HasAt(s, i, a + b) {
      forall k | 0 <= k < |a| ensures a[k] == s[i + k] {
        assert (a + b)[k] == a[k];
      }
      forall k | 0 <= k < |b| ensures b[k] == s[i + |a| + k] {
        assert (a + b)[|a| + k] == b[k];
      }
    }
    if HasAt(s, i, a) && HasAt(s, i + |a|, b) {
      forall k | 0 <= k < |a + b| ensures (a + b)[k] == s[i + k] {
        if k >= |a| {
          assert (a + b)[k] == b[k - |a|];
        }
      }
    }
  }

  /** One escaped character inside a literal is passed over. */
  lemma StringEndChar(s: string, i: nat, c: char)
    requires c as int < 256 && HasAt(s, i, EscapeChar(c))
    ensures StringEnd(s, i, false) == StringEnd(s, i + |EscapeChar(c)|, false)
  {
    HasAtChars(s, i, EscapeChar(c));
    TableIsInvertible(c);
    LetterCases(c);
    if LetterOf(c, 0) == None && !IsPrint(c) {
      HexDigitIsHex(c as int / 16);
      HexDigitIsHex(c as int % 16);
      assert StringEnd(s, i + 2, false) == StringEnd(s, i + 3, false);
    }
  }

  lemma {:induction false} StringEndEscaped(s: string, i: nat, v: string)
    requires Bytes(v) && HasAt(s, i, Escape(v))
    ensures StringEnd(s, i, false) == StringEnd(s, i + |Escape(v)|, false)
    decreases |v|
  {
    if v != "" {
      HasAtConcat(s, i, EscapeChar(v[0]), Escape(v[1..]));
      StringEndChar(s, i, v[0]);
      StringEndEscaped(s, i + |EscapeChar(v[0])|, v[1..]);
    }
  }

  function Quoted(v: string): string
    requires Bytes(v)
  {
    "\"" + Escape(v) + "\""
  }

  /** A quoted escaped string is read as exactly that literal, whatever follows. */
  lemma ReadQuoted(s: string, i: nat, v: string)
    requires Bytes(v) && HasAt(s, i, Quoted(v))
    ensures ReadString(s, i) == Some(i + |Quoted(v)|)
    ensures s[i + 1..i + |Quoted(v)| - 1] == Escape(v)
  {
    hide Escape;
    var e := i + 1 + |Escape(v)|;
    HasAtConcat(s, i, "\"" + Escape(v), "\"");
    HasAtConcat(s, i, "\"", Escape(v));
    assert e < |s| && s[i] == '\"' && s[e] == '\"' && s[i + 1..e] == Escape(v) by {
      HasAtChars(s, i, "\"");
      HasAtChars(s, e, "\"");
    }
    hide HasAt;
    StringEndEscaped(s, i + 1, v);
    assert StringEnd(s, e, false) == Some(e + 1);
  }

  lemma {:induction false} DoubleEndDigits(s: string, i: nat, j: nat)
    requires i <= j < |s| && (forall k :: i <= k < j ==> IsDigit(s[k])) && !IsDigit(s[j]) && s[j] != '.'
    ensures DoubleEnd(s, i, false) == (j, false)
    decreases j - i
  {
    if i < j {
      DoubleEndDigits(s, i + 1, j);
    }
  }

  lemma {:induction false} DoubleEndDecimals(s: string, i: nat, j: nat)
    requires i <= j <= |s| && forall k :: i <= k < j ==> IsDigit(s[k])
    ensures DoubleEnd(s, i, true) == DoubleEnd(s, j, true)
    ensures j == |s| || !IsDigit(s[j]) ==> DoubleEnd(s, i, true) == (j, true)
    decreases j - i
  {
    if i < j {
      DoubleEndDecimals(s, i + 1, j);
    }
  }

  lemma {:induction false} DotStays(s: string, i: nat)
    requires i <= |s|
    ensures DoubleEnd(s, i, true).1
    decreases |s| - i
  {
    if i < |s| && IsDigit(s[i]) {
      DotStays(s, i + 1);
    }
  }

  lemma {:induction false} DoubleEndDot(s: string, i: nat, d: nat)
    requires i <= d < |s| && (forall k :: i <= k < d ==> IsDigit(s[k])) && s[d] == '.'
    ensures DoubleEnd(s, i, false) == DoubleEnd(s, d + 1, true)
    decreases d - i
  {
    if i < d {
      DoubleEndDot(s, i + 1, d);
    }
  }

  /** What %f writes is read as a double, up to its end if and only if no digit follows. */
  lemma ReadFixedPoint(s: string, i: nat, t: string)
    requires FixedPoint(t) && HasAt(s, i, t)
    ensures i < |s| && (IsDigit(s[i]) || s[i] == '-') && ReadDouble(s, i).Some?
    ensures ReadDouble(s, i) == Some(i + |t|) <==> i + |t| == |s| || !IsDigit(s[i + |t|])
  {
    HasAtChars(s, i, t);
    var d := i + |t| - 7;
    var j := i + |t|;
    forall k | i + 1 <= k < j && k != d ensures IsDigit(s[k]) {
      assert IsDigit(t[k - i]);
    }
    DoubleEndDot(s, i + 1, d);
    DoubleEndDecimals(s, d + 1, j);
    DotStays(s, j);
    assert j < |s| && IsDigit(s[j]) ==> DoubleEnd(s, j, true).0 > j;
  }

  /** A printed integer is no double, and is read to the end of its suffix. */
  lemma ReadPrintedNumber(s: string, i: nat, n: nat, suffix: string)
    requires |suffix| == 3 && !IsDigit(suffix[0]) && suffix[0] != '.' && HasAt(s, i, Digits(n) + suffix)
    ensures ReadSuffixed(s, i, suffix) == Some(i + |Digits(n)| + 3)
    ensures ReadDouble(s, i) == None && (i > 0 && s[i - 1] == '-' ==> ReadDouble(s, i - 1) == None)
    ensures IsDigit(s[i])
    ensures forall other :: |other| == 3 && other != suffix ==> ReadSuffixed(s, i, other) == None
  {
    DigitsValue(n);
    var d := Digits(n);
    var j := i + |d|;
    HasAtConcat(s, i, d, suffix);
    HasAtChars(s, i, d);
    HasAtChars(s, j, suffix);
    SpanStops(s, i + 1, j, IsDigit);
    DoubleEndDigits(s, i + 1, j);
    DoubleEndDigits(s, i, j);
  }
}
