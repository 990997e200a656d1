/** Which texts denote which numbers, and how numbers are written, in characters. */
module NumberTexts {
  import opened Wrappers
  import opened Numbers
  import opened Lexing
  import opened NotationGrammar

  /** Blanks as the conversion of numbers skips them: space, tabulator, line feed, vertical
      tabulator, form feed and carriage return. */
  predicate Space(c: char) {
    c as int in [32, 9, 10, 11, 12, 13]
  }

  predicate Spaces(s: string, i: nat, j: nat) {
    i <= j <= |s| && forall k :: i <= k < j ==> Space(s[k])
  }

  lemma SpaceClass(c: char)
    ensures IsSpace(c) <==> Space(c)
  {
  }

  lemma {:induction false} TrimLeftIs(s: string) returns (i: nat)
    ensures Spaces(s, 0, i) && TrimLeft(s) == s[i..] && (i < |s| ==> !Space(s[i]))
  {
    if s != "" && IsSpace(s[0]) {
      SpaceClass(s[0]);
      var k := TrimLeftIs(s[1..]);
      i := k + 1;
      assert s[1..][k..] == s[i..];
      forall m | 0 <= m < i ensures Space(s[m]) {
        assert m > 0 ==> s[m] == s[1..][m - 1];
      }
    } else {
      i := 0;
      if s != "" { SpaceClass(s[0]); }
    }
  }

  lemma {:induction false} TrimRightIs(s: string) returns (j: nat)
    ensures Spaces(s, j, |s|) && TrimRight(s) == s[..j] && (0 < j ==> !Space(s[j - 1]))
  {
    if s != "" && IsSpace(s[|s| - 1]) {
      var t := s[..|s| - 1];
      SpaceClass(s[|s| - 1]);
      j := TrimRightIs(t);
      assert t[..j] == s[..j];
      forall m | j <= m < |s| ensures Space(s[m]) {
        assert m < |s| - 1 ==> s[m] == t[m];
      }
    } else {
      j := |s|;
      if s != "" { SpaceClass(s[|s| - 1]); }
    }
  }

  lemma TrimIs(s: string) returns (i: nat, j: nat)
    ensures i <= j <= |s| && Spaces(s, 0, i) && Spaces(s, j, |s|) && Trim(s) == s[i..j]
    ensures i < j ==> !Space(s[i]) && !Space(s[j - 1])
  {
    i := TrimLeftIs(s);
    var t := s[i..];
    var k := TrimRightIs(t);
    j := i + k;
    forall m | j <= m < |s| ensures Space(s[m]) {
      assert s[m] == t[m - i];
    }
    assert k > 0 ==> s[j - 1] == t[k - 1];
  }

  /** Between the blanks at both ends there is only one stretch that does not begin or end with
      one. */
  lemma TrimUnique(s: string, i: nat, j: nat)
    requires i < j <= |s| && Spaces(s, 0, i) && Spaces(s, j, |s|) && !Space(s[i]) && !Space(s[j - 1])
    ensures Trim(s) == s[i..j]
  {
    var i', j' := TrimIs(s);
    assert i == i' && j == j';
  }

  /** Digits between blanks, and the number they amount to. */
  predicate UnsignedText(s: string, i: nat, j: nat, v: nat) {
    Spaces(s, 0, i) && DigitsAt(s, i, j) && Spaces(s, j, |s|) && v == Amount(s, i, j)
  }

  /** A minus sign, and digits or nothing. */
  predicate NegativeText(s: string, i: nat, j: nat, v: int) {
    Spaces(s, 0, i) && i < j && Spaces(s, j, |s|) && s[i] == '-' && (DigitsAt(s, i + 1, j) || i + 1 == j) &&
    v == -(Amount(s, i + 1, j) as int)
  }

  lemma DigitIsNoSpace(c: char)
    ensures Digit(c) || c == '-' ==> !Space(c)
  {
  }

  /** A text denotes an unsigned number if and only if it consists of digits between blanks and
      their amount fits into 64 bits. */
  lemma UnsignedTexts(s: string, v: nat)
    ensures UnsignedOf(s) == Some(v) <==> v <= 0xFFFF_FFFF_FFFF_FFFF && exists i, j :: UnsignedText(s, i, j, v)
  {
    if UnsignedOf(s) == Some(v) {
      var i, j := TrimIs(s);
      AllClasses();
      hide Digit;
      StretchOfDigits(s, i, j);
      AmountIsValue(s, i, j);
      assert UnsignedText(s, i, j, v);
    }
    if i, j :| UnsignedText(s, i, j, v) {
      TrimmedDigits(s, i, j);
      AmountIsValue(s, i, j);
    }
  }

  lemma StretchOfDigits(s: string, i: nat, j: nat)
    requires i < j <= |s| && AllDigits(s[i..j])
    ensures DigitsAt(s, i, j)
  {
    AllClasses();
    hide Digit;
    forall k | i <= k < j ensures Digit(s[k]) {
      assert s[k] == s[i..j][k - i];
    }
  }

  lemma TrimmedDigits(s: string, i: nat, j: nat)
    requires Spaces(s, 0, i) && Spaces(s, j, |s|) && DigitsAt(s, i, j)
    ensures Trim(s) == s[i..j] && s[i] != '-'
  {
    DigitIsNoSpace(s[i]);
    DigitIsNoSpace(s[j - 1]);
    assert !Digit('-');
    TrimUnique(s, i, j);
  }

  lemma TrimmedNegative(s: string, i: nat, j: nat)
    requires i < j && Spaces(s, 0, i) && Spaces(s, j, |s|) && s[i] == '-' && (DigitsAt(s, i + 1, j) || i + 1 == j)
    ensures Trim(s) == s[i..j]
  {
    DigitIsNoSpace(s[i]);
    DigitIsNoSpace(s[j - 1]);
    TrimUnique(s, i, j);
  }

  lemma TailAmount(s: string, i: nat, j: nat)
    requires i < j <= |s| && (DigitsAt(s, i + 1, j) || i + 1 == j)
    ensures AllDigits(s[i..j][1..]) && Value(s[i..j][1..]) == Amount(s, i + 1, j)
  {
    assert s[i..j][1..] == s[i + 1..j];
    if i + 1 < j {
      AmountIsValue(s, i + 1, j);
    }
  }

  /** A text denotes a signed number if and only if it consists, between blanks, of digits, or
      of a minus sign and digits, or of a minus sign alone, which denotes zero, and the number
      fits into 64 bits. */
  lemma SignedTexts(s: string, v: int)
    ensures SignedOf(s) == Some(v) <==>
      -0x8000_0000_0000_0000 <= v <= 0x7FFF_FFFF_FFFF_FFFF &&
      ((v >= 0 && exists i, j :: UnsignedText(s, i, j, v)) || (v <= 0 && exists i, j :: NegativeText(s, i, j, v)))
  {
    hide Digit; hide Amount; hide Value; hide Trim;
    if SignedOf(s) == Some(v) {
      var i, j := TrimIs(s);
      assert s[i..j][0] == s[i];
      if s[i] == '-' {
        assert s[i..j][1..] == s[i + 1..j];
        if i + 1 < j {
          StretchOfDigits(s, i + 1, j);
        }
        TailAmount(s, i, j);
        assert NegativeText(s, i, j, v);
      } else {
        StretchOfDigits(s, i, j);
        AmountIsValue(s, i, j);
        assert UnsignedText(s, i, j, v);
      }
    }
    if v >= 0 {
      if i: nat, j: nat :| UnsignedText(s, i, j, v) {
        TrimmedDigits(s, i, j);
        AmountIsValue(s, i, j);
        assert s[i..j][0] == s[i];
      }
    }
    if v <= 0 {
      if i: nat, j: nat :| NegativeText(s, i, j, v) {
        TrimmedNegative(s, i, j);
        TailAmount(s, i, j);
        assert s[i..j][0] == s[i];
      }
    }
  }

  // ----- How numbers are written -----

  /** A number is written with digits that amount to it, and without a zero in front unless it
      is less than ten. */
  lemma {:induction false} WrittenDigits(n: nat)
    ensures var d := Digits(n); DigitsAt(d, 0, |d|) && Amount(d, 0, |d|) == n && (n >= 10 ==> d[0] != '0')
    ensures n < 10 ==> |Digits(n)| == 1
  {
    var d := Digits(n);
    DigitsValue(n);
    assert d[0..|d|] == d;
    StretchOfDigits(d, 0, |d|);
    AmountIsValue(d, 0, |d|);
    NoLeadingZero(n);
  }

  lemma {:induction false} NoLeadingZero(n: nat)
    ensures Digits(n) != "" && (n > 0 ==> Digits(n)[0] != '0')
  {
    if n >= 10 {
      NoLeadingZero(n / 10);
    }
  }

  lemma WrittenSign(n: int)
    requires n < 0
    ensures var d := SignedDigits(n);
      |d| > 1 && d[0] == '-' && DigitsAt(d, 1, |d|) && Amount(d, 1, |d|) == -n && d[1] != '0'
  {
    hide Digits; hide Value; hide Amount; hide Digit;
    var d := SignedDigits(n);
    DigitsValue(-n);
    assert d[1..|d|] == Digits(-n);
    StretchOfDigits(d, 1, |d|);
    AmountIsValue(d, 1, |d|);
    NoLeadingZero(-n);
  }

  // ----- The range of doubles -----

  lemma {:induction false} PowersAdd(a: nat, b: nat)
    ensures PowerOfTwo(a + b) == PowerOfTwo(a) * PowerOfTwo(b)
  {
    if b > 0 {
      PowersAdd(a, b - 1);
      assert a + b - 1 == a + (b - 1);
    }
  }

  /** The largest double and half a unit in its last place. */
  lemma OverflowLimit()
    ensures PowerOfTwo(10) == 1024
    ensures PowerOfTwo(1024) - PowerOfTwo(970) == 0x1F_FFFF_FFFF_FFFF * PowerOfTwo(971) + PowerOfTwo(970)
  {
    hide PowerOfTwo;
    SmallPowers();
    PowersAdd(971, 53);
    PowersAdd(970, 1);
    assert 970 + 1 == 971 && 971 + 53 == 1024;
  }

  lemma SmallPowers()
    ensures PowerOfTwo(1) == 2 && PowerOfTwo(10) == 1024 && PowerOfTwo(53) == 0x20_0000_0000_0000
  {
    assert PowerOfTwo(3) == 8;
    assert PowerOfTwo(10) == 1024;
    PowersAdd(10, 10);
    PowersAdd(20, 20);
    PowersAdd(40, 10);
    PowersAdd(50, 3);
  }

  lemma {:induction false} LeadingIsAmount(t: string, b: nat, i: nat, d: nat)
    requires b <= i <= d < |t| && t[d] == '.' && forall k :: b <= k < d ==> Digit(t[k])
    ensures LeadingValue(t[i..], Amount(t, b, i)) == Amount(t, b, d)
    decreases d - i
  {
    AllClasses();
    hide Digit;
    assert t[i..][0] == t[i];
    if i < d {
      assert t[i..][1..] == t[i + 1..];
      LeadingIsAmount(t, b, i + 1, d);
    }
  }

  /** The literal of a double converts to infinity if and only if its digits before the dot
      amount to that limit or more. */
  lemma InfiniteTexts(t: string, d: nat)
    requires var b := if t != "" && t[0] == '-' then 1 else 0;
      b <= d < |t| && t[d] == '.' && forall k :: b <= k < d ==> Digit(t[k])
    ensures var b := if t[0] == '-' then 1 else 0;
      ConvertsToInfinity(t) <==> Amount(t, b, d) >= 0x1F_FFFF_FFFF_FFFF * PowerOfTwo(971) + PowerOfTwo(970)
  {
    hide PowerOfTwo; hide LeadingValue; hide Digit;
    var b := if t[0] == '-' then 1 else 0;
    LeadingIsAmount(t, b, b, d);
    assert Amount(t, b, b) == 0 && t[0..] == t;
    OverflowLimit();
  }
}
