/** Decimal numbers: printing, and conversion with checks for overflow. */
module Numbers {
  import opened Wrappers

  const U64_MAX: nat := 0xFFFF_FFFF_FFFF_FFFF
  const I64_MAX: int := 0x7FFF_FFFF_FFFF_FFFF
  const I64_MIN: int := -0x8000_0000_0000_0000

  predicate IsDigit(c: char) {
    '0' <= c <= '9'
  }

  predicate IsSpace(c: char) {
    c == ' ' || 9 <= c as int <= 13
  }

  predicate AllDigits(s: string) {
    forall i :: 0 <= i < |s| ==> IsDigit(s[i])
  }

  function DigitValue(c: char): nat
    requires IsDigit(c)
  {
    c as int - '0' as int
  }

  function DigitChar(d: nat): char
    requires d < 10
  {
    (d + 48) as char
  }

  /** The decimal digits of a number, as printed by the PRIu64 conversion. */
  function Digits(n: nat): string {
    if n < 10 then [DigitChar(n)] else Digits(n / 10) + [DigitChar(n % 10)]
  }

  /** A signed number as printed by the PRId64 conversion. */
  function SignedDigits(n: int): string {
    if n < 0 then ['-'] + Digits(-n) else Digits(n)
  }

  /** The number that a sequence of digits denotes. */
  function Value(s: string): nat
    requires AllDigits(s)
  {
    if s == "" then 0 else Value(s[..|s| - 1]) * 10 + DigitValue(s[|s| - 1])
  }

  function TrimLeft(s: string): string {
    if s != "" && IsSpace(s[0]) then TrimLeft(s[1..]) else s
  }

  function TrimRight(s: string): string {
    if s != "" && IsSpace(s[|s| - 1]) then TrimRight(s[..|s| - 1]) else s
  }

  function Trim(s: string): string {
    TrimRight(TrimLeft(s))
  }

  /** The unsigned 64-bit number a text denotes, if it denotes one. */
  function UnsignedOf(s: string): Option<nat> {
    var t := Trim(s);
    if t != "" && AllDigits(t) && Value(t) <= U64_MAX then Some(Value(t)) else None
  }

  /** The signed 64-bit number a text denotes; a lone minus sign denotes zero. */
  function SignedOf(s: string): Option<int> {
    var t := Trim(s);
    if t == "" then None
    else if t[0] == '-' then
      if AllDigits(t[1..]) && -(Value(t[1..]) as int) >= I64_MIN then Some(-(Value(t[1..]) as int)) else None
    else
      if AllDigits(t) && Value(t) <= I64_MAX then Some(Value(t)) else None
  }

  lemma {:induction false} DigitsValue(n: nat)
    ensures Digits(n) != "" && AllDigits(Digits(n)) && Value(Digits(n)) == n
  {
    if n < 10 {
      assert Digits(n)[..0] == "";
    } else {
      DigitsValue(n / 10);
      var s := Digits(n);
      assert s[..|s| - 1] == Digits(n / 10);
    }
  }

  lemma TrimDigits(s: string)
    requires s != "" && !IsSpace(s[0]) && !IsSpace(s[|s| - 1])
    ensures Trim(s) == s
  {
  }

  /** Converting a printed number gives the number back. */
  lemma UnsignedOfDigits(n: nat)
    requires n <= U64_MAX
    ensures UnsignedOf(Digits(n)) == Some(n)
  {
    DigitsValue(n);
    TrimDigits(Digits(n));
  }

  lemma NegativeKept(d: string)
    requires d != "" && AllDigits(d)
    ensures Trim(['-'] + d) == ['-'] + d && (['-'] + d)[1..] == d
  {
    var t := ['-'] + d;
    assert t[|t| - 1] == d[|d| - 1];
    TrimDigits(t);
  }

  lemma SignedOfDigits(n: int)
    requires I64_MIN <= n <= I64_MAX
    ensures SignedOf(SignedDigits(n)) == Some(n)
  {
    if n < 0 {
      DigitsValue(-n);
      NegativeKept(Digits(-n));
    } else {
      DigitsValue(n);
      TrimDigits(Digits(n));
    }
  }

  // ----- The program's loops -----

  lemma {:induction false} ValueOfPrefix(s: string, k: nat)
    requires AllDigits(s) && k <= |s|
    ensures Value(s[..k]) <= Value(s)
    decreases |s| - k
  {
    if k == |s| {
      assert s[..k] == s;
    } else {
      ValueOfPrefix(s, k + 1);
      assert s[..k + 1][..k] == s[..k];
    }
  }

  /** am_skip_whitespacen. */
  method SkipWhitespace(s: string) returns (t: string)
    ensures t == Trim(s)
  {
    var i := 0;
    while i < |s| && IsSpace(s[i])
      invariant 0 <= i <= |s| && TrimLeft(s[i..]) == TrimLeft(s)
    {
      assert s[i..][1..] == s[i + 1..];
      i := i + 1;
    }
    t := s[i..];
    assert TrimLeft(t) == t;
    while |t| > 0 && IsSpace(t[|t| - 1])
      invariant TrimRight(t) == Trim(s)
    {
      t := t[..|t| - 1];
    }
  }

  /** The value of the digits read so far, one more digit, and its limit. */
  lemma NextDigit(s: string, i: nat)
    requires i < |s| && AllDigits(s[..i]) && IsDigit(s[i])
    ensures AllDigits(s[..i + 1]) && Value(s[..i + 1]) == Value(s[..i]) * 10 + DigitValue(s[i])
  {
    assert s[..i + 1][..i] == s[..i];
  }

  lemma TooLarge(s: string, i: nat, limit: nat)
    requires i <= |s| && AllDigits(s[..i]) && Value(s[..i]) > limit
    ensures !AllDigits(s) || Value(s) > limit
  {
    if AllDigits(s) {
      ValueOfPrefix(s, i);
    }
  }

  /** am_safe_atou64n: no intermediate value exceeds 64 bits. */
  method AtoU64(str: string) returns (failed: bool, val: nat)
    ensures failed <==> UnsignedOf(str) == None
    ensures !failed ==> UnsignedOf(str) == Some(val)
  {
    var s := SkipWhitespace(str);
    val := 0;
    if |s| == 0 {
      return true, 0;
    }
    var i := 0;
    assert s[..0] == "";
    while i < |s|
      invariant 0 <= i <= |s| && AllDigits(s[..i]) && val == Value(s[..i]) <= U64_MAX
    {
      if !IsDigit(s[i]) {
        return true, val;
      }
      var digit := DigitValue(s[i]);
      NextDigit(s, i);
      if val > U64_MAX / 10 {
        TooLarge(s, i + 1, U64_MAX);
        return true, val;
      }
      assert val * 10 <= U64_MAX;
      val := val * 10;
      if U64_MAX - val < digit {
        TooLarge(s, i + 1, U64_MAX);
        return true, val;
      }
      val := val + digit;
      i := i + 1;
    }
    assert s[..i] == s;
    return false, val;
  }

  /** am_safe_atoi64n: negative numbers are accumulated downwards, so that the
      smallest number can be read; no intermediate value leaves 64 bits. */
  method AtoI64(str: string) returns (failed: bool, val: int)
    ensures failed <==> SignedOf(str) == None
    ensures !failed ==> SignedOf(str) == Some(val)
  {
    var s := SkipWhitespace(str);
    val := 0;
    if |s| == 0 {
      return true, 0;
    }
    var sign := s[0] == '-';
    ghost var t := s;
    if sign {
      s := s[1..];
    }
    var i := 0;
    assert s[..0] == "";
    while i < |s|
      invariant 0 <= i <= |s| && AllDigits(s[..i])
      invariant val == (if sign then -(Value(s[..i]) as int) else Value(s[..i])) && I64_MIN <= val <= I64_MAX
    {
      if !IsDigit(s[i]) {
        assert !AllDigits(s);
        return true, val;
      }
      var digit := DigitValue(s[i]);
      NextDigit(s, i);
      if sign {
        // Division truncates towards zero.
        if val < -(-I64_MIN / 10) {
          TooLarge(s, i + 1, -I64_MIN);
          return true, val;
        }
        assert val * 10 >= I64_MIN;
        val := val * 10;
        if I64_MIN - val > -(digit as int) {
          TooLarge(s, i + 1, -I64_MIN);
          return true, val;
        }
        val := val - digit;
      } else {
        if val > I64_MAX / 10 {
          TooLarge(s, i + 1, I64_MAX);
          return true, val;
        }
        assert val * 10 <= I64_MAX;
        val := val * 10;
        if I64_MAX - val < digit {
          TooLarge(s, i + 1, I64_MAX);
          return true, val;
        }
        val := val + digit;
      }
      i := i + 1;
    }
    assert s[..i] == s;
    return false, val;
  }

  // ----- The range of doubles -----

  function PowerOfTwo(n: nat): nat {
    if n == 0 then 1 else 2 * PowerOfTwo(n - 1)
  }

  /** The number that a text starts with, up to its first character that is no digit. */
  function LeadingValue(s: string, v: nat): nat {
    if s == "" || !IsDigit(s[0]) then v else LeadingValue(s[1..], 10 * v + DigitValue(s[0]))
  }

  /** Whether strtod makes infinity of an optional sign and digits with a dot: numbers from
      half a unit in the last place behind the largest double on are rounded to it. */
  predicate ConvertsToInfinity(s: string) {
    LeadingValue(if s != "" && s[0] == '-' then s[1..] else s, 0) >= PowerOfTwo(1024) - PowerOfTwo(970)
  }
}
