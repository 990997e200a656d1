/** The language of the object notation, stated without the parser: which stretches of a text
    are which tree. The parser reads exactly this language. */
module NotationGrammar {
  import opened Wrappers
  import opened Escaping
  import opened Numbers
  import opened Lexing
  import opened ObjectNotation
  import opened NotationRoundTrip

  // ----- The alphabets -----

  predicate Blank(c: char) {
    c in " \t\n"
  }

  predicate Digit(c: char) {
    c in "0123456789"
  }

  predicate NameStart(c: char) {
    c in "abcdefghijklmnopqrstuvwxyz" || c in "ABCDEFGHIJKLMNOPQRSTUVWXYZ" || c == '_'
  }

  predicate NameChar(c: char) {
    NameStart(c) || c in "0123456789"
  }

  predicate GroupChar(c: char) {
    NameStart(c) || c in "0123456789:<>*,"
  }

  lemma LowerCase(c: char)
    ensures c in "abcdefghijklmnopqrstuvwxyz" <==> 'a' <= c <= 'z'
  {
  }

  lemma UpperCase(c: char)
    ensures c in "ABCDEFGHIJKLMNOPQRSTUVWXYZ" <==> 'A' <= c <= 'Z'
  {
  }

  /** The classes of characters that the parser uses are these alphabets. */
  lemma ClassesAreAlphabets(c: char)
    ensures IsBlank(c) <==> Blank(c)
    ensures IsDigit(c) <==> Digit(c)
    ensures IsIdentStart(c) <==> NameStart(c)
    ensures IsIdentNext(c) <==> NameChar(c)
    ensures IsGroupNext(c) <==> GroupChar(c)
  {
    LowerCase(c);
    UpperCase(c);
  }

  lemma AllClasses()
    ensures forall c: char :: IsBlank(c) <==> Blank(c)
    ensures forall c: char :: IsDigit(c) <==> Digit(c)
    ensures forall c: char :: IsIdentStart(c) <==> NameStart(c)
    ensures forall c: char :: IsIdentNext(c) <==> NameChar(c)
    ensures forall c: char :: IsGroupNext(c) <==> GroupChar(c)
  {
    hide *;
    forall c: char
      ensures IsBlank(c) <==> Blank(c)
      ensures IsDigit(c) <==> Digit(c)
      ensures IsIdentStart(c) <==> NameStart(c)
      ensures IsIdentNext(c) <==> NameChar(c)
      ensures IsGroupNext(c) <==> GroupChar(c)
    {
      ClassesAreAlphabets(c);
    }
  }

  // ----- The language -----

  predicate Blanks(s: string, i: nat, j: nat) {
    i <= j <= |s| && forall k :: i <= k < j ==> Blank(s[k])
  }

  predicate DigitsAt(s: string, i: nat, j: nat) {
    i < j <= |s| && forall k :: i <= k < j ==> Digit(s[k])
  }

  predicate NameAt(s: string, i: nat, j: nat) {
    i < j <= |s| && NameStart(s[i]) && forall k :: i < k < j ==> NameChar(s[k])
  }

  predicate GroupNameAt(s: string, i: nat, j: nat) {
    i < j <= |s| && NameStart(s[i]) && forall k :: i < k < j ==> GroupChar(s[k])
  }

  /** The number that the digits from `i` to `j` denote. */
  function Amount(s: string, i: nat, j: nat): nat
    requires DigitsAt(s, i, j) || i == j <= |s|
  {
    if i == j then 0 else
    assert Digit(s[j - 1]) ==> 48 <= s[j - 1] as int <= 57;
    10 * Amount(s, i, j - 1) + (s[j - 1] as int - 48)
  }

  predicate SuffixAt(s: string, j: nat, suffix: string) {
    |suffix| <= j <= |s| && s[j - |suffix|..j] == suffix
  }

  predicate UnsignedAt(s: string, i: nat, j: nat, v: nat) {
    i + 3 <= j && SuffixAt(s, j, "u64") && DigitsAt(s, i, j - 3) && v == Amount(s, i, j - 3) <= 0xFFFF_FFFF_FFFF_FFFF
  }

  predicate SignedAt(s: string, i: nat, j: nat, v: int) {
    i + 4 <= j && SuffixAt(s, j, "i64") &&
    if s[i] == '-' then DigitsAt(s, i + 1, j - 3) && v == -(Amount(s, i + 1, j - 3) as int) >= -0x8000_0000_0000_0000
    else DigitsAt(s, i, j - 3) && v == Amount(s, i, j - 3) <= 0x7FFF_FFFF_FFFF_FFFF
  }

  /** An optional sign and digits with a dot before, between or behind them. */
  predicate DoubleAt(s: string, i: nat, j: nat) {
    i < j <= |s| &&
    var b := if s[i] == '-' then i + 1 else i;
    b + 2 <= j && exists d :: b <= d < j && s[d] == '.' && forall k :: b <= k < j && k != d ==> Digit(s[k])
  }

  /** The inside of a string literal: characters, and pairs of a backslash and a character. */
  predicate LiteralAt(s: string, i: nat, j: nat)
    decreases j - i
  {
    i <= j <= |s| && (i < j ==>
      if s[i] == '\\' then i + 2 <= j && LiteralAt(s, i + 2, j) else s[i] != '\"' && LiteralAt(s, i + 1, j))
  }

  predicate StringAt(s: string, i: nat, j: nat, v: string) {
    i + 2 <= j <= |s| && s[i] == '\"' && LiteralAt(s, i + 1, j - 1) && s[j - 1] == '\"' &&
    StringValue(s[i + 1..j - 1]) == Some(v)
  }

  predicate LeafAt(s: string, i: nat, j: nat, n: Node) {
    match n
    case Str(v) => StringAt(s, i, j, v)
    case Int64(v) => SignedAt(s, i, j, v)
    case UInt64(v) => UnsignedAt(s, i, j, v)
    case Double(t) => DoubleAt(s, i, j) && t == s[i..j] && !ConvertsToInfinity(t)
    case _ => false
  }

  // ----- Numbers -----

  lemma {:induction false} AmountIsValue(s: string, i: nat, j: nat)
    requires DigitsAt(s, i, j)
    ensures AllDigits(s[i..j]) && s[i..j] != "" && Trim(s[i..j]) == s[i..j] && Value(s[i..j]) == Amount(s, i, j)
  {
    AllClasses();
    hide Digit;
    var t := s[i..j];
    TrimDigits(t);
    assert t[..|t| - 1] == s[i..j - 1];
    if i + 1 < j {
      AmountIsValue(s, i, j - 1);
    } else {
      assert t[..|t| - 1] == "";
    }
  }

  lemma SuffixIs(s: string, j: nat, suffix: string)
    requires |suffix| == 3 && j + 3 <= |s|
    ensures HasAt(s, j, suffix) <==> SuffixAt(s, j + 3, suffix)
  {
    if HasAt(s, j, suffix) {
      HasAtChars(s, j, suffix);
    }
  }

  /** Digits and a suffix are read exactly where they stand. */
  lemma SuffixedExact(s: string, i: nat, suffix: string, j: nat)
    requires i <= |s| && (suffix == "i64" || suffix == "u64")
    ensures ReadSuffixed(s, i, suffix) == Some(j) <==> i + 3 <= j && SuffixAt(s, j, suffix) && DigitsAt(s, i, j - 3)
  {
    hide ReadDigits; hide DigitsAt; hide HasAt; hide SuffixAt; hide Digit;
    if ReadSuffixed(s, i, suffix) == Some(j) {
      RunOfDigits(s, i, j - 3);
      SuffixIs(s, j - 3, suffix);
    }
    if i + 3 <= j && SuffixAt(s, j, suffix) && DigitsAt(s, i, j - 3) {
      SuffixStart(s, j, suffix);
      RunOfDigits(s, i, j - 3);
      SuffixIs(s, j - 3, suffix);
    }
  }

  lemma RunOfDigits(s: string, i: nat, k: nat)
    requires i <= |s|
    ensures ReadDigits(s, i) == Some(k) <==> DigitsAt(s, i, k) && (k < |s| ==> !Digit(s[k]))
  {
    AllClasses();
    hide Digit;
    if ReadDigits(s, i) == Some(k) {
      SpanEnds(s, i + 1, IsDigit);
    }
    if DigitsAt(s, i, k) && (k < |s| ==> !Digit(s[k])) {
      SpanStops(s, i + 1, k, IsDigit);
    }
  }

  lemma SuffixStart(s: string, j: nat, suffix: string)
    requires SuffixAt(s, j, suffix) && (suffix == "i64" || suffix == "u64")
    ensures j <= |s| && !Digit(s[j - 3]) && s[j - 3] == suffix[0]
  {
    assert s[j - 3] == s[j - 3..j][0] == suffix[0];
  }

  lemma SignedExact(s: string, i: nat, j: nat, v: int)
    requires i < |s| && !IsBlank(s[i])
    ensures ParseInt64(s, i) == Some((Int64(v), j)) <==> SignedAt(s, i, j, v)
  {
    hide Digit; hide DigitsAt; hide ReadSuffixed; hide SignedOf; hide SuffixAt; hide SkipBlanks;
    SkipNothing(s, i);
    SuffixedExact(s, i, "i64", j);
    if s[i] == '-' {
      SuffixedExact(s, i + 1, "i64", j);
      if ReadInt64(s, i) == Some(j) {
        NegativeAmount(s, i, j - 3);
      }
    } else if ReadInt64(s, i) == Some(j) {
      PositiveAmount(s, i, j - 3);
    }
  }

  lemma NegativeAmount(s: string, i: nat, j: nat)
    requires i < |s| && s[i] == '-' && DigitsAt(s, i + 1, j)
    ensures var v := -(Amount(s, i + 1, j) as int);
      SignedOf(s[i..j]) == if v >= -0x8000_0000_0000_0000 then Some(v) else None
  {
    AmountIsValue(s, i + 1, j);
    hide Value; hide Trim; hide Amount; hide Digit;
    var d := s[i + 1..j];
    assert s[i..j] == ['-'] + d;
    NegativeKept(d);
  }

  lemma PositiveAmount(s: string, i: nat, j: nat)
    requires DigitsAt(s, i, j) && s[i] != '-'
    ensures var v := Amount(s, i, j);
      && SignedOf(s[i..j]) == (if v <= 0x7FFF_FFFF_FFFF_FFFF then Some(v) else None)
      && UnsignedOf(s[i..j]) == if v <= 0xFFFF_FFFF_FFFF_FFFF then Some(v) else None
  {
    AmountIsValue(s, i, j);
    hide Value; hide Trim; hide Amount; hide Digit;
    assert s[i..j][0] == s[i];
  }

  lemma UnsignedExact(s: string, i: nat, j: nat, v: nat)
    requires i < |s| && !IsBlank(s[i])
    ensures ParseUint64(s, i) == Some((UInt64(v), j)) <==> UnsignedAt(s, i, j, v)
  {
    hide Digit; hide DigitsAt; hide ReadSuffixed; hide UnsignedOf; hide SuffixAt; hide SkipBlanks;
    SkipNothing(s, i);
    SuffixedExact(s, i, "u64", j);
    if ReadUint64(s, i) == Some(j) {
      DigitIsNoSign(s, i, j - 3);
      PositiveAmount(s, i, j - 3);
    }
  }

  lemma DigitIsNoSign(s: string, i: nat, j: nat)
    requires DigitsAt(s, i, j)
    ensures s[i] != '-'
  {
  }

  // ----- Strings -----

  lemma {:induction false} LiteralExact(s: string, i: nat, j: nat)
    requires i <= |s|
    ensures StringEnd(s, i, false) == Some(j) <==> i < j <= |s| && LiteralAt(s, i, j - 1) && s[j - 1] == '\"'
    decreases |s| - i
  {
    if i < |s| {
      if s[i] == '\\' {
        if i + 1 < |s| {
          LiteralExact(s, i + 2, j);
        }
      } else if s[i] != '\"' {
        LiteralExact(s, i + 1, j);
      }
    }
  }

  lemma StringExact(s: string, i: nat, j: nat, v: string)
    requires i < |s| && !IsBlank(s[i])
    ensures ParseString(s, i) == Some((Str(v), j)) <==> StringAt(s, i, j, v)
  {
    SkipNothing(s, i);
    LiteralExact(s, i + 1, j);
  }

  lemma {:induction false} CStrStops(a: string, rest: string)
    requires forall i :: 0 <= i < |a| ==> a[i] as int != 0
    ensures CStr(a) == a && CStr(a + [0 as char] + rest) == a
  {
    CStrIdentity(a);
    if a == "" {
      assert ("" + [0 as char] + rest)[0] == 0 as char;
    } else {
      CStrStops(a[1..], rest);
      assert (a + [0 as char] + rest)[1..] == a[1..] + [0 as char] + rest;
      assert a == [a[0]] + a[1..];
    }
  }

  /** A literal ends before its first zero byte, and so does the string that it stands for. */
  lemma StringsStopAtZero(body: string, rest: string, v: string, tail: string)
    requires forall i :: 0 <= i < |body| ==> body[i] as int != 0
    requires forall i :: 0 <= i < |v| ==> v[i] as int != 0
    ensures StringValue(body + [0 as char] + rest) == StringValue(body)
    ensures Unescape(body) == None ==> StringValue(body) == None
    ensures Unescape(body) == Some(v) || Unescape(body) == Some(v + [0 as char] + tail) ==> StringValue(body) == Some(v)
  {
    hide Unescape; hide CStr;
    CStrStops(body, rest);
    CStrStops(v, tail);
  }

  // ----- Doubles -----

  lemma {:induction false} DecimalsExact(s: string, i: nat, j: nat)
    requires i <= |s|
    ensures DoubleEnd(s, i, true) == (j, true) <==>
      i <= j <= |s| && (forall k :: i <= k < j ==> Digit(s[k])) && (j < |s| ==> !Digit(s[j]))
    decreases |s| - i
  {
    AllClasses();
    hide Digit;
    if i < |s| && IsDigit(s[i]) {
      DecimalsExact(s, i + 1, j);
    }
  }

  /** Digits with one dot from `i` to `j`. */
  predicate DottedAt(s: string, i: nat, j: nat) {
    i <= j <= |s| && exists d :: i <= d < j && s[d] == '.' && forall k :: i <= k < j && k != d ==> Digit(s[k])
  }

  lemma {:induction false} DottedExact(s: string, i: nat, j: nat)
    requires i <= |s|
    ensures DoubleEnd(s, i, false) == (j, true) <==> DottedAt(s, i, j) && (j < |s| ==> !Digit(s[j]))
    decreases |s| - i
  {
    AllClasses();
    hide Digit;
    if i < |s| {
      if s[i] == '.' {
        DecimalsExact(s, i + 1, j);
      } else if IsDigit(s[i]) {
        DottedExact(s, i + 1, j);
      }
    }
  }

  lemma DoubleExact(s: string, i: nat, j: nat)
    requires i <= |s|
    ensures ReadDouble(s, i) == Some(j) <==> DoubleAt(s, i, j) && (j < |s| ==> !Digit(s[j]))
  {
    AllClasses();
    hide Digit; hide DoubleEnd;
    if i < |s| {
      if s[i] == '.' {
        DecimalsExact(s, i + 1, j);
      } else {
        DottedExact(s, i + 1, j);
      }
    }
  }

  // ----- Leaves -----

  /** A double ends where no digit follows. */
  predicate Ends(s: string, j: nat, n: Node) {
    n.Double? && j < |s| ==> !Digit(s[j])
  }

  lemma IntegerIsNoDouble(s: string, i: nat, j: nat, k: nat, suffix: string)
    requires i < j && 3 <= j && SuffixAt(s, j, suffix) && (suffix == "i64" || suffix == "u64") && DoubleAt(s, i, k)
    ensures !DigitsAt(s, if s[i] == '-' then i + 1 else i, j - 3)
  {
    SuffixStart(s, j, suffix);
  }

  lemma SignedIsNotUnsigned(s: string, i: nat, j: nat, k: nat)
    requires 3 <= j && 3 <= k && SuffixAt(s, j, "i64") && SuffixAt(s, k, "u64") && DigitsAt(s, i, j - 3)
    ensures !DigitsAt(s, i, k - 3)
  {
    SuffixStart(s, j, "i64");
    SuffixStart(s, k, "u64");
  }

  /** The branches that the parser takes for a leaf. */
  lemma LeafBranches(s: string, i: nat, j: nat, n: Node)
    requires i < |s| && !IsBlank(s[i])
    ensures ReadLeaf(s, i) == Some((n, j)) ==> IsLeaf(n)
    ensures n.Str? ==> (ReadLeaf(s, i) == Some((n, j)) <==> ParseString(s, i) == Some((n, j)))
    ensures n.Double? ==> (ReadLeaf(s, i) == Some((n, j)) <==> ParseDouble(s, i) == Some((n, j)))
    ensures n.Int64? ==>
      (ReadLeaf(s, i) == Some((n, j)) <==> ReadDouble(s, i) == None && ParseInt64(s, i) == Some((n, j)))
    ensures n.UInt64? ==>
      (ReadLeaf(s, i) == Some((n, j)) <==>
       ReadDouble(s, i) == None && ReadInt64(s, i) == None && ParseUint64(s, i) == Some((n, j)))
  {
    hide DoubleEnd; hide StringEnd; hide HasAt; hide StringValue; hide SignedOf; hide UnsignedOf;
    hide ConvertsToInfinity;
    SkipNothing(s, i);
  }

  /** A leaf is read exactly where one stands. */
  lemma LeafExact(s: string, i: nat, j: nat, n: Node)
    requires i < |s| && !IsBlank(s[i])
    ensures ReadLeaf(s, i) == Some((n, j)) <==> LeafAt(s, i, j, n) && Ends(s, j, n)
  {
    hide ReadLeaf; hide ParseString; hide ParseInt64; hide ParseUint64; hide SignedAt; hide UnsignedAt; hide StringAt;
    LeafBranches(s, i, j, n);
    match n
    case Str(v) => StringExact(s, i, j, v);
    case Int64(v) => SignedLeaf(s, i, j, v);
    case UInt64(v) => UnsignedLeaf(s, i, j, v);
    case Double(t) =>
      SkipNothing(s, i);
      DoubleExact(s, i, j);
    case _ =>
  }

  lemma SignedLeaf(s: string, i: nat, j: nat, v: int)
    requires i < |s| && !IsBlank(s[i])
    ensures ReadDouble(s, i) == None && ParseInt64(s, i) == Some((Int64(v), j)) <==> SignedAt(s, i, j, v)
  {
    hide ReadDouble; hide ParseInt64; hide DoubleAt; hide Amount;
    SignedExact(s, i, j, v);
    if SignedAt(s, i, j, v) && ReadDouble(s, i).Some? {
      var k := ReadDouble(s, i).value;
      DoubleExact(s, i, k);
      IntegerIsNoDouble(s, i, j, k, "i64");
      assert false;
    }
  }

  lemma UnsignedLeaf(s: string, i: nat, j: nat, v: nat)
    requires i < |s| && !IsBlank(s[i])
    ensures ReadDouble(s, i) == None && ReadInt64(s, i) == None && ParseUint64(s, i) == Some((UInt64(v), j)) <==>
      UnsignedAt(s, i, j, v)
  {
    hide ReadDouble; hide ParseUint64; hide DoubleAt; hide Amount; hide ReadSuffixed; hide SuffixAt;
    UnsignedExact(s, i, j, v);
    if UnsignedAt(s, i, j, v) {
      assert !Digit('-');
      assert Digit(s[i]);
      if ReadDouble(s, i).Some? {
        var k := ReadDouble(s, i).value;
        DoubleExact(s, i, k);
        IntegerIsNoDouble(s, i, j, k, "u64");
        assert false;
      }
      if ReadInt64(s, i).Some? {
        var k := ReadInt64(s, i).value;
        SuffixedExact(s, i, "i64", k);
        SignedIsNotUnsigned(s, i, k, j);
        assert false;
      }
    }
  }

  // ----- Trees -----

  /** The text from `i` to `j` is the tree `n`: no blanks before or behind it, but any number
      of them between its parts, and a comma behind the last item or member if one likes. */
  ghost predicate NodeAt(s: string, i: nat, j: nat, n: Node)
    decreases n, 0
  {
    match n
    case Group(name, members) =>
      exists k: nat, o: nat :: NamedAt(s, i, k, o, name, '{') && MembersAt(s, o + 1, j, members)
    case List(items) => i < |s| && s[i] == '[' && ItemsAt(s, i + 1, j, items)
    case _ => LeafAt(s, i, j, n)
  }

  /** The name of a group from `i` to `k`, blanks, and the character `c` at `o`. */
  predicate NamedAt(s: string, i: nat, k: nat, o: nat, name: string, c: char) {
    GroupNameAt(s, i, k) && s[i..k] == name && Blanks(s, k, o) && o < |s| && s[o] == c
  }

  /** The name of a member, blanks, and a colon. */
  predicate LabelledAt(s: string, i: nat, k: nat, o: nat, name: string) {
    NameAt(s, i, k) && s[i..k] == name && Blanks(s, k, o) && o < |s| && s[o] == ':'
  }

  predicate ClosedAt(s: string, i: nat, j: nat, c: char) {
    i < j <= |s| && Blanks(s, i, j - 1) && s[j - 1] == c
  }

  /** What follows the opening bracket of a list. */
  ghost predicate ItemsAt(s: string, i: nat, j: nat, items: seq<Node>)
    decreases items, 1
  {
    if items == [] then ClosedAt(s, i, j, ']')
    else exists b: nat, e: nat, f: nat ::
      Blanks(s, i, b) && NodeAt(s, b, e, items[0]) && Blanks(s, e, f) && f < |s| &&
      if s[f] == ',' then ItemsAt(s, f + 1, j, items[1..]) else s[f] == ']' && j == f + 1 && |items| == 1
  }

  /** What follows the opening brace of a group. */
  ghost predicate MembersAt(s: string, i: nat, j: nat, members: seq<Member>)
    decreases members, 1
  {
    if members == [] then ClosedAt(s, i, j, '}')
    else exists b: nat, e: nat, f: nat ::
      Blanks(s, i, b) && MemberAt(s, b, e, members[0]) && Blanks(s, e, f) && f < |s| &&
      if s[f] == ',' then MembersAt(s, f + 1, j, members[1..]) else s[f] == '}' && j == f + 1 && |members| == 1
  }

  ghost predicate MemberAt(s: string, i: nat, j: nat, m: Member)
    decreases m, 1
  {
    exists k: nat, o: nat, v: nat :: LabelledAt(s, i, k, o, m.name) && Blanks(s, o + 1, v) && NodeAt(s, v, j, m.def)
  }

  // ----- The parser reads this language and nothing else -----

  lemma BlanksSkipped(s: string, i: nat, b: nat)
    requires i <= |s|
    ensures SkipBlanks(s, i) == b <==> Blanks(s, i, b) && (b < |s| ==> !Blank(s[b]))
  {
    AllClasses();
    SpanEnds(s, i, IsBlank);
    if Blanks(s, i, b) && (b < |s| ==> !Blank(s[b])) {
      SpanStops(s, i, b, IsBlank);
    }
  }

  lemma NameExact(s: string, i: nat, k: nat)
    requires i <= |s|
    ensures ReadName(s, i, IsIdentStart, IsIdentNext) == Some(k) <==> NameAt(s, i, k) && (k < |s| ==> !NameChar(s[k]))
  {
    AllClasses();
    hide NameStart; hide NameChar; hide IsIdentStart; hide IsIdentNext;
    if ReadName(s, i, IsIdentStart, IsIdentNext) == Some(k) {
      SpanEnds(s, i + 1, IsIdentNext);
    }
    if NameAt(s, i, k) && (k < |s| ==> !NameChar(s[k])) {
      SpanStops(s, i + 1, k, IsIdentNext);
    }
  }

  lemma GroupNameExact(s: string, i: nat, k: nat)
    requires i <= |s|
    ensures ReadName(s, i, IsIdentStart, IsGroupNext) == Some(k) <==>
      GroupNameAt(s, i, k) && (k < |s| ==> !GroupChar(s[k]))
  {
    AllClasses();
    hide NameStart; hide GroupChar; hide IsIdentStart; hide IsGroupNext;
    if ReadName(s, i, IsIdentStart, IsGroupNext) == Some(k) {
      SpanEnds(s, i + 1, IsGroupNext);
    }
    if GroupNameAt(s, i, k) && (k < |s| ==> !GroupChar(s[k])) {
      SpanStops(s, i + 1, k, IsGroupNext);
    }
  }

  /** The header of a group is read exactly where it stands. */
  lemma HeaderExact(s: string, i: nat, k: nat, o: nat)
    requires i < |s|
    ensures ReadName(s, i, IsIdentStart, IsGroupNext) == Some(k) && SkipBlanks(s, k) == o && o < |s| && s[o] == '{' <==>
      GroupNameAt(s, i, k) && Blanks(s, k, o) && o < |s| && s[o] == '{'
  {
    GroupNameExact(s, i, k);
    if k <= |s| {
      BlanksSkipped(s, k, o);
    }
    if Blanks(s, k, o) && o < |s| && s[o] == '{' {
      assert s[k] == '{' || Blank(s[k]);
      EndsNames(s[k]);
    }
  }

  lemma EndsNames(c: char)
    ensures Blank(c) || c == '{' ==> !GroupChar(c)
    ensures Blank(c) || c == ':' ==> !NameChar(c)
  {
    hide Blank; hide NameStart; hide NameChar; hide GroupChar; hide Digit;
    ClassesAreAlphabets(c);
  }

  /** So is the label of a member. */
  lemma LabelExact(s: string, i: nat, k: nat, o: nat)
    requires i < |s|
    ensures ReadName(s, i, IsIdentStart, IsIdentNext) == Some(k) && SkipBlanks(s, k) == o && o < |s| && s[o] == ':' <==>
      NameAt(s, i, k) && Blanks(s, k, o) && o < |s| && s[o] == ':'
  {
    NameExact(s, i, k);
    if k <= |s| {
      BlanksSkipped(s, k, o);
    }
    if Blanks(s, k, o) && o < |s| && s[o] == ':' {
      assert s[k] == ':' || Blank(s[k]);
      EndsNames(s[k]);
    }
  }

  lemma LeafBegins(s: string, i: nat, j: nat, n: Node)
    requires LeafAt(s, i, j, n)
    ensures IsLeaf(n) && i < |s| && (s[i] in "\"-." || Digit(s[i]))
  {
    hide StringValue; hide ConvertsToInfinity; hide Amount; hide LiteralAt; hide Digit;
  }

  /** The first character of a tree tells what kind it is. */
  lemma NodeBegins(s: string, i: nat, j: nat, n: Node)
    requires NodeAt(s, i, j, n)
    ensures i < |s| && !Blank(s[i]) && s[i] != ']' && s[i] != '}'
    ensures (n.List? <==> s[i] == '[') && (n.Group? <==> NameStart(s[i]))
  {
    hide LeafAt; hide ItemsAt; hide MembersAt;
    match n
    case Group(name, members) => LetterStarts(s[i]);
    case List(items) => StartClasses(s[i]);
    case _ =>
      LeafBegins(s, i, j, n);
      StartClasses(s[i]);
  }

  lemma LetterStarts(c: char)
    requires NameStart(c)
    ensures !Blank(c) && c != ']' && c != '}' && c != '['
  {
  }

  lemma StartClasses(c: char)
    requires c in "\"-.[" || Digit(c)
    ensures !Blank(c) && c != ']' && c != '}' && !NameStart(c) && (c == '[' ==> c !in "\"-." && !Digit(c))
  {
    LowerCase(c);
    UpperCase(c);
  }

  /** What the parser has read of a list or group only grows. */
  lemma {:induction false} ItemsGrow(s: string, i: nat, items: seq<Node>)
    requires i <= |s| && Advances(ReadLeaf)
    ensures var r := ParseItems(ReadLeaf, s, i, items);
      r.Some? ==> r.value.0.List? && items <= r.value.0.items
    decreases |s| - i
  {
    hide ReadLeaf; hide ParseNode;
    var b := SkipBlanks(s, i);
    if b < |s| && s[b] != ']' && ParseNode(ReadLeaf, s, b).Some? {
      var item := ParseNode(ReadLeaf, s, b).value;
      var e := SkipBlanks(s, item.1);
      if e < |s| && (s[e] == ',' || s[e] == ']') {
        ItemsGrow(s, if s[e] == ',' then e + 1 else e, items + [item.0]);
      }
    }
  }

  lemma {:induction false} MembersGrow(s: string, i: nat, name: string, members: seq<Member>)
    requires i <= |s| && Advances(ReadLeaf)
    ensures var r := ParseMembers(ReadLeaf, s, i, name, members);
      r.Some? ==> r.value.0.Group? && r.value.0.name == name && members <= r.value.0.members
    decreases |s| - i
  {
    hide ReadLeaf; hide ParseMember;
    var b := SkipBlanks(s, i);
    if b < |s| && s[b] != '}' && ParseMember(ReadLeaf, s, b).Some? {
      var m := ParseMember(ReadLeaf, s, b).value;
      var e := SkipBlanks(s, m.1);
      if e < |s| && (s[e] == ',' || s[e] == '}') {
        MembersGrow(s, if s[e] == ',' then e + 1 else e, name, members + [m.0]);
      }
    }
  }

  /** The parser reads a tree exactly where one stands. */
  lemma {:induction false} NodeExact(s: string, i: nat, j: nat, n: Node)
    requires i < |s| && !Blank(s[i]) && Advances(ReadLeaf)
    ensures ParseNode(ReadLeaf, s, i) == Some((n, j)) <==> NodeAt(s, i, j, n) && Ends(s, j, n)
    decreases |s| - i, 3
  {
    hide ReadLeaf; hide Blank; hide NameStart; hide LeafAt; hide ItemsAt; hide MembersAt; hide ParseItems;
    hide ParseGroup;
    AllClasses();
    BlanksSkipped(s, i, i);
    if NodeAt(s, i, j, n) {
      NodeBegins(s, i, j, n);
    }
    if s[i] == '[' {
      ItemsGrow(s, i + 1, []);
      if n.List? {
        ItemsExact(s, i + 1, j, [], n.items);
        assert [] + n.items == n.items;
      }
    } else if NameStart(s[i]) {
      GroupExact(s, i, j, n);
    } else {
      LeafExact(s, i, j, n);
      if LeafAt(s, i, j, n) {
        LeafBegins(s, i, j, n);
      }
    }
  }

  lemma {:induction false} GroupExact(s: string, i: nat, j: nat, n: Node)
    requires i < |s| && !Blank(s[i]) && s[i] != '[' && NameStart(s[i]) && Advances(ReadLeaf)
    ensures ParseGroup(ReadLeaf, s, i) == Some((n, j)) <==> NodeAt(s, i, j, n)
    decreases |s| - i, 2
  {
    hide ReadLeaf; hide Blank; hide NameStart; hide GroupNameAt; hide MembersAt; hide ParseMembers; hide LeafAt;
    hide SkipBlanks; hide ReadName;
    BlanksSkipped(s, i, i);
    if ParseGroup(ReadLeaf, s, i) == Some((n, j)) {
      var k := ReadName(s, i, IsIdentStart, IsGroupNext).value;
      var o := SkipBlanks(s, k);
      HeaderExact(s, i, k, o);
      MembersGrow(s, o + 1, s[i..k], []);
      MembersExact(s, o + 1, j, s[i..k], [], n.members);
      assert [] + n.members == n.members;
      assert NamedAt(s, i, k, o, n.name, '{');
    }
    if NodeAt(s, i, j, n) {
      NodeBegins(s, i, j, n);
      var k: nat, o: nat :| NamedAt(s, i, k, o, n.name, '{') && MembersAt(s, o + 1, j, n.members);
      HeaderExact(s, i, k, o);
      MembersExact(s, o + 1, j, s[i..k], [], n.members);
      assert [] + n.members == n.members;
    }
  }

  /** Behind an item or member there is a blank, a comma or a closing character. */
  lemma EndsBeforeComma(s: string, e: nat, f: nat, c: char, n: Node)
    requires Blanks(s, e, f) && f < |s| && (s[f] == ',' || s[f] == c) && (c == ']' || c == '}')
    ensures Ends(s, e, n) && SkipBlanks(s, e) == f
  {
    BlanksSkipped(s, e, f);
    assert s[e] == s[f] || Blank(s[e]);
  }

  lemma {:induction false} ReadItemsStand(s: string, i: nat, j: nat, items: seq<Node>, rest: seq<Node>)
    requires i <= |s| && Advances(ReadLeaf) && ParseItems(ReadLeaf, s, i, items) == Some((List(items + rest), j))
    ensures ItemsAt(s, i, j, rest)
    decreases |s| - i, 4
  {
    hide ReadLeaf; hide Blank; hide Blanks; hide NodeAt; hide ParseNode; hide SkipBlanks; hide Ends;
    var b := SkipBlanks(s, i);
    BlanksSkipped(s, i, b);
    if s[b] == ']' {
      assert rest == [];
      ClosesList(s, i, b);
    } else {
      var item := ParseNode(ReadLeaf, s, b).value;
      var f := SkipBlanks(s, item.1);
      NodeExact(s, b, item.1, item.0);
      BlanksSkipped(s, item.1, f);
      ItemsGrow(s, if s[f] == ',' then f + 1 else f, items + [item.0]);
      assert rest[0] == (items + rest)[|items|] == item.0;
      assert items + rest == items + [item.0] + rest[1..];
      if s[f] == ',' {
        ItemsExact(s, f + 1, j, items + [item.0], rest[1..]);
      } else {
        ListEnds(s, f, items + [item.0]);
      }
    }
  }

  lemma {:induction false} ItemsAreRead(s: string, i: nat, j: nat, items: seq<Node>, rest: seq<Node>)
    requires i <= |s| && Advances(ReadLeaf) && ItemsAt(s, i, j, rest)
    ensures ParseItems(ReadLeaf, s, i, items) == Some((List(items + rest), j))
    decreases |s| - i, 4
  {
    hide ReadLeaf; hide Blank; hide Blanks; hide NodeAt; hide ParseNode; hide SkipBlanks; hide Ends;
    var b := SkipBlanks(s, i);
    if rest == [] {
      ClosesList(s, i, j - 1);
      assert items + rest == items;
    } else {
      var b': nat, e: nat, f: nat :|
        Blanks(s, i, b') && NodeAt(s, b', e, rest[0]) && Blanks(s, e, f) && f < |s| &&
        if s[f] == ',' then ItemsAt(s, f + 1, j, rest[1..]) else s[f] == ']' && j == f + 1 && |rest| == 1;
      NodeBegins(s, b', e, rest[0]);
      BlanksSkipped(s, i, b');
      EndsBeforeComma(s, e, f, ']', rest[0]);
      NodeExact(s, b, e, rest[0]);
      assert items + rest == items + [rest[0]] + rest[1..];
      if s[f] == ',' {
        ItemsExact(s, f + 1, j, items + [rest[0]], rest[1..]);
      } else {
        assert items + rest == items + [rest[0]];
        ListEnds(s, f, items + [rest[0]]);
      }
    }
  }

  /** The items from `i` on are read exactly where they stand. */
  lemma {:induction false} ItemsExact(s: string, i: nat, j: nat, items: seq<Node>, rest: seq<Node>)
    requires i <= |s| && Advances(ReadLeaf)
    ensures ParseItems(ReadLeaf, s, i, items) == Some((List(items + rest), j)) <==> ItemsAt(s, i, j, rest)
    decreases |s| - i, 5
  {
    hide *;
    if ParseItems(ReadLeaf, s, i, items) == Some((List(items + rest), j)) {
      ReadItemsStand(s, i, j, items, rest);
    }
    if ItemsAt(s, i, j, rest) {
      ItemsAreRead(s, i, j, items, rest);
    }
  }

  lemma ClosesList(s: string, i: nat, b: nat)
    requires i <= b < |s| && s[b] == ']'
    ensures SkipBlanks(s, i) == b <==> ClosedAt(s, i, b + 1, ']')
  {
    BlanksSkipped(s, i, b);
  }

  lemma ListEnds(s: string, f: nat, items: seq<Node>)
    requires f < |s| && s[f] == ']' && Advances(ReadLeaf)
    ensures ParseItems(ReadLeaf, s, f, items) == Some((List(items), f + 1))
  {
    SkipNothing(s, f);
  }

  lemma {:induction false} MemberExact(s: string, i: nat, j: nat, m: Member)
    requires i < |s| && !Blank(s[i]) && Advances(ReadLeaf)
    ensures ParseMember(ReadLeaf, s, i) == Some((m, j)) <==> MemberAt(s, i, j, m) && Ends(s, j, m.def)
    decreases |s| - i, 3
  {
    hide ReadLeaf; hide Blank; hide NameAt; hide NodeAt; hide ParseNode; hide Ends; hide SkipBlanks; hide ReadName;
    BlanksSkipped(s, i, i);
    if ParseMember(ReadLeaf, s, i) == Some((m, j)) {
      var k := ReadName(s, i, IsIdentStart, IsIdentNext).value;
      var o := SkipBlanks(s, k);
      LabelExact(s, i, k, o);
      ValueExact(s, o + 1, j, m.def);
      var v: nat :| Blanks(s, o + 1, v) && NodeAt(s, v, j, m.def);
      assert LabelledAt(s, i, k, o, m.name);
    }
    if MemberAt(s, i, j, m) && Ends(s, j, m.def) {
      var k, o, v := MemberParts(s, i, j, m);
      LabelExact(s, i, k, o);
      ValueExact(s, o + 1, j, m.def);
    }
  }

  lemma MemberParts(s: string, i: nat, j: nat, m: Member) returns (k: nat, o: nat, v: nat)
    requires MemberAt(s, i, j, m)
    ensures LabelledAt(s, i, k, o, m.name) && Blanks(s, o + 1, v) && NodeAt(s, v, j, m.def)
  {
    k, o, v :| LabelledAt(s, i, k, o, m.name) && Blanks(s, o + 1, v) && NodeAt(s, v, j, m.def);
  }

  lemma {:induction false} ValueExact(s: string, i: nat, j: nat, n: Node)
    requires i <= |s| && Advances(ReadLeaf)
    ensures ParseNode(ReadLeaf, s, i) == Some((n, j)) <==>
      Ends(s, j, n) && exists v: nat :: Blanks(s, i, v) && NodeAt(s, v, j, n)
    decreases |s| - i, 4
  {
    hide ReadLeaf; hide Blank; hide NodeAt; hide Ends; hide SkipBlanks; hide Blanks;
    var b := SkipBlanks(s, i);
    BlanksSkipped(s, i, b);
    if b < |s| {
      SkipIsIdempotent(s, i);
      ParseNodeAfterBlanks(ReadLeaf, s, i, b);
      NodeExact(s, b, j, n);
    }
    forall v: nat | Blanks(s, i, v) && NodeAt(s, v, j, n) ensures v == b < |s| {
      NodeBegins(s, v, j, n);
      BlanksSkipped(s, i, v);
    }
  }

  lemma {:induction false} ReadMembersStand(s: string, i: nat, j: nat, name: string, members: seq<Member>,
                                            rest: seq<Member>)
    requires i <= |s| && Advances(ReadLeaf)
    requires ParseMembers(ReadLeaf, s, i, name, members) == Some((Group(name, members + rest), j))
    ensures MembersAt(s, i, j, rest)
    decreases |s| - i, 4
  {
    hide ReadLeaf; hide Blank; hide Blanks; hide MemberAt; hide ParseMember; hide SkipBlanks; hide Ends;
    var b := SkipBlanks(s, i);
    BlanksSkipped(s, i, b);
    if s[b] == '}' {
      assert rest == [];
      ClosesGroup(s, i, b);
    } else {
      var m := ParseMember(ReadLeaf, s, b).value;
      var f := SkipBlanks(s, m.1);
      MemberExact(s, b, m.1, m.0);
      BlanksSkipped(s, m.1, f);
      MembersGrow(s, if s[f] == ',' then f + 1 else f, name, members + [m.0]);
      assert rest[0] == (members + rest)[|members|] == m.0;
      assert members + rest == members + [m.0] + rest[1..];
      if s[f] == ',' {
        MembersExact(s, f + 1, j, name, members + [m.0], rest[1..]);
      } else {
        GroupEnds(s, f, name, members + [m.0]);
      }
    }
  }

  lemma {:induction false} MembersAreRead(s: string, i: nat, j: nat, name: string, members: seq<Member>,
                                          rest: seq<Member>)
    requires i <= |s| && Advances(ReadLeaf) && MembersAt(s, i, j, rest)
    ensures ParseMembers(ReadLeaf, s, i, name, members) == Some((Group(name, members + rest), j))
    decreases |s| - i, 4
  {
    hide ReadLeaf; hide Blank; hide Blanks; hide MemberAt; hide ParseMember; hide SkipBlanks; hide Ends;
    var b := SkipBlanks(s, i);
    if rest == [] {
      ClosesGroup(s, i, j - 1);
      assert members + rest == members;
    } else {
      var b': nat, e: nat, f: nat :|
        Blanks(s, i, b') && MemberAt(s, b', e, rest[0]) && Blanks(s, e, f) && f < |s| &&
        if s[f] == ',' then MembersAt(s, f + 1, j, rest[1..]) else s[f] == '}' && j == f + 1 && |rest| == 1;
      MemberBegins(s, b', e, rest[0]);
      BlanksSkipped(s, i, b');
      EndsBeforeComma(s, e, f, '}', rest[0].def);
      MemberExact(s, b, e, rest[0]);
      assert members + rest == members + [rest[0]] + rest[1..];
      if s[f] == ',' {
        MembersExact(s, f + 1, j, name, members + [rest[0]], rest[1..]);
      } else {
        assert members + rest == members + [rest[0]];
        GroupEnds(s, f, name, members + [rest[0]]);
      }
    }
  }

  /** The members from `i` on are read exactly where they stand. */
  lemma {:induction false} MembersExact(s: string, i: nat, j: nat, name: string, members: seq<Member>,
                                        rest: seq<Member>)
    requires i <= |s| && Advances(ReadLeaf)
    ensures ParseMembers(ReadLeaf, s, i, name, members) == Some((Group(name, members + rest), j)) <==>
      MembersAt(s, i, j, rest)
    decreases |s| - i, 5
  {
    hide *;
    if ParseMembers(ReadLeaf, s, i, name, members) == Some((Group(name, members + rest), j)) {
      ReadMembersStand(s, i, j, name, members, rest);
    }
    if MembersAt(s, i, j, rest) {
      MembersAreRead(s, i, j, name, members, rest);
    }
  }

  lemma MemberBegins(s: string, i: nat, j: nat, m: Member)
    requires MemberAt(s, i, j, m)
    ensures i < |s| && !Blank(s[i]) && s[i] != '}'
  {
    LetterStarts(s[i]);
  }

  lemma ClosesGroup(s: string, i: nat, b: nat)
    requires i <= b < |s| && s[b] == '}'
    ensures SkipBlanks(s, i) == b <==> ClosedAt(s, i, b + 1, '}')
  {
    BlanksSkipped(s, i, b);
  }

  lemma GroupEnds(s: string, f: nat, name: string, members: seq<Member>)
    requires f < |s| && s[f] == '}' && Advances(ReadLeaf)
    ensures ParseMembers(ReadLeaf, s, f, name, members) == Some((Group(name, members), f + 1))
  {
    SkipNothing(s, f);
  }

  /** Parsing succeeds exactly where, behind any blanks, a text of the language stands, and gives
      the tree that it stands for. */
  lemma ParsesTheLanguage(s: string, i: nat, j: nat, n: Node)
    requires i <= |s|
    ensures Parse(s, i) == Some((n, j)) <==>
      Ends(s, j, n) && exists b: nat :: Blanks(s, i, b) && NodeAt(s, b, j, n)
  {
    hide *;
    ReadLeafReadsLeaves();
    ParseIsParseNode(s, i);
    ValueExact(s, i, j, n);
  }

  lemma ParseIsParseNode(s: string, i: nat)
    requires i <= |s| && Advances(ReadLeaf)
    ensures Parse(s, i) == ParseNode(ReadLeaf, s, i)
  {
  }

  // ----- What this means for names -----

  /** A name over the alphabet of group names, any blanks, and an empty body are read as that
      group, whatever follows. */
  lemma EmptyGroupIsRead(name: string, w: string, x: string, rest: string)
    requires name != "" && NameStart(name[0]) && forall k :: 1 <= k < |name| ==> GroupChar(name[k])
    requires (forall k :: 0 <= k < |w| ==> Blank(w[k])) && forall k :: 0 <= k < |x| ==> Blank(x[k])
    ensures Parse(name + w + "{" + x + "}" + rest, 0) == Some((Group(name, []), |name| + |w| + |x| + 2))
  {
    hide NameStart; hide GroupChar; hide Blank; hide Parse;
    var s := name + w + "{" + x + "}" + rest;
    var k, o, j := |name|, |name| + |w|, |name| + |w| + |x| + 2;
    assert s[0..k] == name && s[k..o] == w && s[o] == '{' && s[o + 1..j - 1] == x && s[j - 1] == '}';
    assert forall m :: k <= m < o ==> s[m] == w[m - k];
    assert forall m :: o + 1 <= m < j - 1 ==> s[m] == x[m - o - 1];
    assert NamedAt(s, 0, k, o, name, '{');
    assert MembersAt(s, o + 1, j, []);
    assert NodeAt(s, 0, j, Group(name, []));
    assert Blanks(s, 0, 0);
    ParsesTheLanguage(s, 0, j, Group(name, []));
  }

  /** A group as the shipped profiles write them. */
  const SHIPPED := "am::core::trace { id: 1u64 }"

  lemma ShippedHeader()
    ensures NamedAt(SHIPPED, 0, 15, 16, "am::core::trace", '{')
  {
    AllClasses();
    hide NameStart; hide GroupChar;
    assert SHIPPED[0..15] == "am::core::trace";
  }

  lemma ShippedNumber()
    ensures NodeAt(SHIPPED, 22, 26, UInt64(1))
  {
    assert SHIPPED[23..26] == "u64";
    assert Amount(SHIPPED, 22, 22) == 0;
  }

  lemma ShippedMember()
    ensures MemberAt(SHIPPED, 18, 26, Member("id", UInt64(1)))
  {
    hide NodeAt; hide LabelledAt; hide Blanks;
    ShippedNumber();
    ShippedLabel();
  }

  lemma ShippedLabel()
    ensures LabelledAt(SHIPPED, 18, 20, 20, "id") && Blanks(SHIPPED, 21, 22)
  {
    AllClasses();
    hide NameStart; hide NameChar; hide Blank;
    assert SHIPPED[18..20] == "id";
  }

  lemma ShippedGroup()
    ensures Parse(SHIPPED, 0) == Some((Group("am::core::trace", [Member("id", UInt64(1))]), 28))
  {
    hide Parse; hide MemberAt; hide NamedAt;
    var n := Group("am::core::trace", [Member("id", UInt64(1))]);
    ShippedMember();
    ShippedHeader();
    ShippedBlanks();
    assert n.members[0] == Member("id", UInt64(1));
    assert MembersAt(SHIPPED, 17, 28, n.members);
    assert NodeAt(SHIPPED, 0, 28, n);
    ParsesTheLanguage(SHIPPED, 0, 28, n);
  }

  lemma ShippedBlanks()
    ensures Blanks(SHIPPED, 0, 0) && Blanks(SHIPPED, 17, 18) && Blanks(SHIPPED, 26, 27) && SHIPPED[27] == '}'
  {
  }
}
