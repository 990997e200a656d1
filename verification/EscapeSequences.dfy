/** What every escape sequence means, and how every byte is escaped, in characters and numbers. */
module EscapeSequences {
  import opened Wrappers
  import opened Escaping

  const OCTAL := "01234567"
  const LOWER_HEX := "0123456789abcdef"
  const UPPER_HEX := "0123456789ABCDEF"

  /** The letters that may follow a backslash, and the characters they stand for. */
  const LETTERS := "abfnrtv\\\""
  const MEANINGS: seq<int> := [7, 8, 12, 10, 13, 9, 11, 92, 34]

  /** Character `c` is the hexadecimal digit `v` in upper or lower case. */
  predicate HexCharOf(c: char, v: nat)
    requires v < 16
  {
    c == LOWER_HEX[v] || c == UPPER_HEX[v]
  }

  /** The text does not go on with one of the characters in `digits`. */
  predicate NoneFollows(rest: string, digits: string) {
    rest == "" || rest[0] !in digits
  }

  lemma OctalDigits(v: nat)
    requires v < 8
    ensures IsOctal(OCTAL[v]) && HexValue(OCTAL[v]) == v && OCTAL[v] != 'x' && OCTAL[v] != '\\'
  {
  }

  lemma OctalClass(c: char)
    ensures IsOctal(c) <==> c in OCTAL
  {
  }

  lemma HexDigitsOf(c: char, v: nat)
    requires v < 16 && HexCharOf(c, v)
    ensures IsHex(c) && HexValue(c) == v
  {
  }

  lemma HexClass(c: char)
    ensures IsHex(c) <==> c in LOWER_HEX || c in UPPER_HEX
  {
  }

  /** Unescaping goes on behind the sequence. */
  lemma UnescapeSequence(seqn: string, rest: string, c: char)
    requires seqn != "" && Sequence(seqn + rest) == Some((c, |seqn|))
    ensures Unescape("\\" + seqn + rest) == Prepend([c], Unescape(rest))
  {
    var t := "\\" + seqn + rest;
    assert t[1..] == seqn + rest;
    assert t[1 + |seqn|..] == rest;
  }

  /** Three octal digits, of which the lower eight bits are kept. */
  lemma ThreeOctalDigits(v: nat, rest: string)
    requires v < 512
    ensures Unescape("\\" + [OCTAL[v / 64], OCTAL[v / 8 % 8], OCTAL[v % 8]] + rest) ==
      Prepend([(v % 256) as char], Unescape(rest))
  {
    hide Unescape; hide Sequence;
    OctalParts(v);
    ThreeOctalSequence(v / 64, v / 8 % 8, v % 8, rest);
    UnescapeSequence([OCTAL[v / 64], OCTAL[v / 8 % 8], OCTAL[v % 8]], rest, (v % 256) as char);
  }

  lemma OctalParts(v: nat)
    ensures 64 * (v / 64) + 8 * (v / 8 % 8) + v % 8 == v
  {
    assert v / 64 == v / 8 / 8;
  }

  lemma ThreeOctalSequence(x: nat, y: nat, z: nat, rest: string)
    requires x < 8 && y < 8 && z < 8
    ensures Sequence([OCTAL[x], OCTAL[y], OCTAL[z]] + rest) == Some((((64 * x + 8 * y + z) % 256) as char, 3))
  {
    OctalDigits(x);
    OctalDigits(y);
    OctalDigits(z);
    hide HexValue; hide IsOctal;
    var t := [OCTAL[x], OCTAL[y], OCTAL[z]] + rest;
    assert t[0] == OCTAL[x] && t[1] == OCTAL[y] && t[2] == OCTAL[z];
  }

  lemma TwoOctalDigits(v: nat, rest: string)
    requires v < 64 && NoneFollows(rest, OCTAL)
    ensures Unescape("\\" + [OCTAL[v / 8], OCTAL[v % 8]] + rest) == Prepend([v as char], Unescape(rest))
  {
    var t := [OCTAL[v / 8], OCTAL[v % 8]];
    OctalDigits(v / 8);
    OctalDigits(v % 8);
    hide HexValue;
    assert (t + rest)[0] == t[0] && (t + rest)[1] == t[1];
    if rest != "" {
      OctalClass(rest[0]);
      assert (t + rest)[2] == rest[0];
    }
    UnescapeSequence(t, rest, v as char);
  }

  lemma OneOctalDigit(v: nat, rest: string)
    requires v < 8 && NoneFollows(rest, OCTAL)
    ensures Unescape("\\" + [OCTAL[v]] + rest) == Prepend([v as char], Unescape(rest))
  {
    var t := [OCTAL[v]];
    OctalDigits(v);
    hide HexValue;
    assert (t + rest)[0] == t[0];
    if rest != "" {
      OctalClass(rest[0]);
      assert (t + rest)[1] == rest[0];
    }
    UnescapeSequence(t, rest, v as char);
  }

  /** Two hexadecimal digits in either case. */
  lemma TwoHexDigits(v: nat, a: char, b: char, rest: string)
    requires v < 256 && HexCharOf(a, v / 16) && HexCharOf(b, v % 16)
    ensures Unescape("\\" + ['x', a, b] + rest) == Prepend([v as char], Unescape(rest))
  {
    var t := ['x', a, b];
    HexDigitsOf(a, v / 16);
    HexDigitsOf(b, v % 16);
    hide HexValue; hide IsHex;
    assert (t + rest)[0] == 'x' && (t + rest)[1] == a && (t + rest)[2] == b;
    UnescapeSequence(t, rest, v as char);
  }

  lemma OneHexDigit(v: nat, a: char, rest: string)
    requires v < 16 && HexCharOf(a, v) && NoneFollows(rest, LOWER_HEX) && NoneFollows(rest, UPPER_HEX)
    ensures Unescape("\\" + ['x', a] + rest) == Prepend([v as char], Unescape(rest))
  {
    var t := ['x', a];
    HexDigitsOf(a, v);
    assert (t + rest)[0] == 'x' && (t + rest)[1] == a;
    if rest != "" {
      HexClass(rest[0]);
      assert (t + rest)[2] == rest[0];
    }
    hide HexValue; hide IsHex;
    UnescapeSequence(t, rest, v as char);
  }

  /** A letter of the table. */
  lemma Letter(k: nat, rest: string)
    requires k < 9
    ensures Unescape("\\" + [LETTERS[k]] + rest) == Prepend([MEANINGS[k] as char], Unescape(rest))
  {
    LetterMeans(k);
    var t := [LETTERS[k]];
    assert (t + rest)[0] == t[0];
    UnescapeSequence(t, rest, MEANINGS[k] as char);
  }

  lemma LetterMeans(k: nat)
    requires k < 9
    ensures CharOf(LETTERS[k], 0) == Some(MEANINGS[k] as char) && LETTERS[k] != 'x' && !IsOctal(LETTERS[k])
  {
    CharCases(LETTERS[k]);
  }

  lemma CharCases(c: char)
    ensures CharOf(c, 0) ==
      if c == 'a' then Some(7 as char) else if c == 'b' then Some(8 as char) else if c == 'f' then Some(12 as char)
      else if c == 'n' then Some(10 as char) else if c == 'r' then Some(13 as char)
      else if c == 't' then Some(9 as char) else if c == 'v' then Some(11 as char)
      else if c == '\\' then Some('\\') else if c == '\"' then Some('\"') else None
  {
    CharStep(c, 8);
    CharStep(c, 6);
    CharStep(c, 4);
    CharStep(c, 2);
  }

  lemma CharStep(c: char, k: nat)
    requires k <= 8
    ensures CharOf(c, k) == if ESCAPES[k].1 == c then Some(ESCAPES[k].0) else CharOf(c, k + 1)
  {
  }

  /** Everything else: other characters stay, a backslash at the end stays, and a backslash
      before any other character, or before an x without a digit, is an error. */
  lemma NoSequence(c: char, rest: string)
    requires c != '\\'
    ensures Unescape("") == Some("") && Unescape("\\") == Some("\\")
    ensures Unescape([c] + rest) == Prepend([c], Unescape(rest))
    ensures c !in LETTERS && c !in OCTAL && c != 'x' ==> Unescape("\\" + [c] + rest) == None
    ensures NoneFollows(rest, LOWER_HEX) && NoneFollows(rest, UPPER_HEX) ==> Unescape("\\" + ['x'] + rest) == None
  {
    CharCases(c);
    OctalClass(c);
    var t := [c] + rest;
    assert t[1..] == rest && t[..1] == [c];
    var u := "\\" + [c] + rest;
    assert u[1..] == t;
    var w := "\\" + ['x'] + rest;
    assert w[1..][0] == 'x';
    if rest != "" {
      HexClass(rest[0]);
      assert w[1..][1] == rest[0];
    }
  }

  // ----- The form of escaped text -----

  /** How each byte is escaped: by its letter, as itself if it can be printed, else by two
      hexadecimal digits in upper case, which are the same for all bytes from 128 on. */
  lemma EscapedForm(v: nat)
    requires 1 <= v < 256
    ensures forall k :: 0 <= k < 9 && MEANINGS[k] == v ==> EscapeChar(v as char) == "\\" + [LETTERS[k]]
    ensures 32 <= v <= 126 && v !in MEANINGS ==> EscapeChar(v as char) == [v as char]
    ensures (v < 32 || v == 127) && v !in MEANINGS ==>
      EscapeChar(v as char) == "\\" + ['x', UPPER_HEX[v / 16], UPPER_HEX[v % 16]]
    ensures v >= 128 ==> EscapeChar(v as char) == "\\xFF"
  {
    LetterCases(v as char);
    if v < 128 {
      UpperDigit(v / 16);
      UpperDigit(v % 16);
    }
  }

  lemma UpperDigit(v: nat)
    requires v < 16
    ensures HexDigit(v) == UPPER_HEX[v]
  {
  }
}
