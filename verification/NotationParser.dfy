/** The program's parser: a position that moves through a text. Every method refines
    the function that says what the text at a position means. */
module NotationParser {
  import opened Wrappers
  import opened Escaping
  import opened Numbers
  import opened Lexing
  import opened ObjectNotation
  import opened NotationRoundTrip
  import opened NotationIO

  /** strndup: the text up to its first zero byte. */
  method Duplicate(s: string) returns (a: array<char>)
    ensures fresh(a) && a[..] == CStr(s)
  {
    var n := 0;
    while n < |s| && s[n] as int != 0
      invariant 0 <= n <= |s| && CStr(s) == s[..n] + CStr(s[n..])
    {
      assert s[n..][1..] == s[n + 1..];
      assert s[..n] + ([s[n]] + CStr(s[n + 1..])) == s[..n + 1] + CStr(s[n + 1..]);
      n := n + 1;
    }
    assert s[..n] + "" == s[..n];
    a := new char[n](i requires 0 <= i < n => s[i]);
    assert a[..] == s[..n];
  }

  /** What a C string of at most `n` bytes in an array reads as. */
  method ReadBack(a: array<char>, n: nat) returns (s: string)
    requires n <= a.Length
    ensures s == CStr(a[..n])
  {
    var d := Duplicate(a[..n]);
    s := d[..];
  }

  /** am_object_notation_node_string_createn with unescaping. */
  method CreateString(body: string) returns (v: Option<string>)
    ensures v == StringValue(body)
  {
    var a := Duplicate(body);
    ghost var orig := a[..];
    assert a[..a.Length] == orig;
    var failed, len := UnescapeInPlace(a, a.Length);
    if failed {
      return None;
    }
    var value := ReadBack(a, len);
    return Some(value);
  }

  class Parser {
    const text: string
    var curr: nat

    ghost predicate Valid()
      reads this
    {
      curr <= |text|
    }

    constructor (text: string)
      ensures Valid() && this.text == text && curr == 0
    {
      this.text := text;
      curr := 0;
    }

    // ----- Tokens -----

    /** am_parser_skip_ws. */
    method SkipWs()
      requires Valid()
      modifies this
      ensures Valid() && curr == SkipBlanks(text, old(curr))
    {
      while curr < |text| && (text[curr] == ' ' || text[curr] == '\t' || text[curr] == '\n')
        invariant Valid() && SkipBlanks(text, curr) == SkipBlanks(text, old(curr))
      {
        curr := curr + 1;
      }
    }

    /** am_parser_read_identifier, am_parser_read_group_name and am_parser_read_any_uint,
        which differ in the characters they accept. */
    method ReadRun(first: char -> bool, next: char -> bool) returns (failed: bool)
      requires Valid()
      modifies this
      ensures Valid() && failed == (ReadName(text, old(curr), first, next) == None)
      ensures if failed then curr == old(curr) else ReadName(text, old(curr), first, next) == Some(curr)
    {
      if curr == |text| || !first(text[curr]) {
        return true;
      }
      curr := curr + 1;
      while curr != |text| && next(text[curr])
        invariant old(curr) < curr <= |text| && Span(text, curr, next) == Span(text, old(curr) + 1, next)
      {
        curr := curr + 1;
      }
      return false;
    }

    /** am_parser_expect_chars. */
    method ExpectChars(str: string) returns (failed: bool)
      requires Valid()
      modifies this
      ensures Valid() && failed == !HasAt(text, old(curr), str)
      ensures !failed ==> curr == old(curr) + |str|
    {
      var i := 0;
      while i < |str|
        invariant 0 <= i <= |str| && curr == old(curr) + i <= |text|
        invariant forall k :: 0 <= k < i ==> str[k] == text[old(curr) + k]
      {
        if curr == |text| || text[curr] != str[i] {
          return true;
        }
        i := i + 1;
        curr := curr + 1;
      }
      return false;
    }

    /** am_parser_read_next_char. */
    method ReadNextChar(c: char) returns (failed: bool)
      requires Valid()
      modifies this
      ensures Valid()
      ensures var b := SkipBlanks(text, old(curr));
        failed == (b == |text| || text[b] != c) && curr == if failed then b else b + 1
    {
      SkipWs();
      if curr == |text| || text[curr] != c {
        return true;
      }
      curr := curr + 1;
      return false;
    }

    /** am_parser_read_string. */
    method ReadQuotedString() returns (failed: bool)
      requires Valid()
      modifies this
      ensures Valid() && failed == (ReadString(text, old(curr)) == None)
      ensures !failed ==> ReadString(text, old(curr)) == Some(curr)
    {
      if curr == |text| || text[curr] != '\"' {
        return true;
      }
      curr := curr + 1;
      var lastBs := false;
      while true
        invariant Valid() && StringEnd(text, curr, lastBs) == StringEnd(text, old(curr) + 1, false)
        decreases |text| - curr
      {
        if curr == |text| {
          return true;
        }
        if text[curr] == '\\' {
          lastBs := !lastBs;
        } else {
          if !lastBs && text[curr] == '\"' {
            curr := curr + 1;
            return false;
          }
          lastBs := false;
        }
        curr := curr + 1;
      }
    }

    /** Digits and a suffix. */
    method ReadNumber(suffix: string) returns (failed: bool)
      requires Valid() && |suffix| == 3
      modifies this
      ensures Valid() && failed == (ReadSuffixed(text, old(curr), suffix) == None)
      ensures !failed ==> ReadSuffixed(text, old(curr), suffix) == Some(curr)
    {
      failed := ReadRun(IsDigit, IsDigit);
      if !failed {
        failed := ExpectChars(suffix);
      }
    }

    /** am_parser_read_int64. */
    method ReadSigned() returns (failed: bool)
      requires Valid()
      modifies this
      ensures Valid() && failed == (ReadInt64(text, old(curr)) == None)
      ensures !failed ==> ReadInt64(text, old(curr)) == Some(curr)
    {
      if curr == |text| {
        return true;
      }
      if text[curr] == '-' {
        curr := curr + 1;
      }
      failed := ReadNumber("i64");
    }

    /** am_parser_read_uint64. */
    method ReadUnsigned() returns (failed: bool)
      requires Valid()
      modifies this
      ensures Valid() && failed == (ReadUint64(text, old(curr)) == None)
      ensures !failed ==> ReadUint64(text, old(curr)) == Some(curr)
    {
      if curr == |text| {
        return true;
      }
      failed := ReadNumber("u64");
    }

    /** am_parser_read_double. */
    method ReadReal() returns (failed: bool)
      requires Valid()
      modifies this
      ensures Valid() && failed == (ReadDouble(text, old(curr)) == None)
      ensures !failed ==> ReadDouble(text, old(curr)) == Some(curr)
    {
      if curr == |text| || (!IsDigit(text[curr]) && text[curr] != '.' && text[curr] != '-') {
        return true;
      }
      var isSigned := text[curr] == '-';
      var dotRead := text[curr] == '.';
      var len := 1;
      curr := curr + 1;
      while curr != |text| && (IsDigit(text[curr]) || (!dotRead && text[curr] == '.'))
        invariant Valid() && curr == old(curr) + len
        invariant DoubleEnd(text, curr, dotRead) == DoubleEnd(text, old(curr) + 1, text[old(curr)] == '.')
      {
        if text[curr] == '.' {
          dotRead := true;
        }
        len := len + 1;
        curr := curr + 1;
      }
      return !dotRead || len == 1 || (isSigned && len == 2);
    }

    /** am_parser_peek_double and am_parser_peek_int64: the position is restored. */
    method PeekReal() returns (failed: bool)
      requires Valid()
      modifies this
      ensures curr == old(curr) && failed == (ReadDouble(text, curr) == None)
    {
      var saved := curr;
      failed := ReadReal();
      curr := saved;
    }

    method PeekSigned() returns (failed: bool)
      requires Valid()
      modifies this
      ensures curr == old(curr) && failed == (ReadInt64(text, curr) == None)
    {
      var saved := curr;
      failed := ReadSigned();
      curr := saved;
    }

    // ----- Leaves -----

    /** The method has returned what the function says, and stands where it says. */
    ghost predicate Yields(r: Parsed<Node>, node: Option<Node>)
      reads this
    {
      Valid() && r == if node.None? then None else Some((node.value, curr))
    }

    method ParseStringNode() returns (node: Option<Node>)
      requires Valid()
      modifies this
      ensures Valid() && Yields(ParseString(text, old(curr)), node)
    {
      SkipWs();
      var start := curr;
      var failed := ReadQuotedString();
      if failed {
        return None;
      }
      var v := CreateString(text[start + 1..curr - 1]);
      return if v.None? then None else Some(Str(v.value));
    }

    method ParseInt64Node() returns (node: Option<Node>)
      requires Valid()
      modifies this
      ensures Valid() && Yields(ParseInt64(text, old(curr)), node)
    {
      SkipWs();
      var start := curr;
      var failed := ReadSigned();
      if failed {
        return None;
      }
      var overflow, v := AtoI64(text[start..curr - 3]);
      return if overflow then None else Some(Int64(v));
    }

    method ParseUint64Node() returns (node: Option<Node>)
      requires Valid()
      modifies this
      ensures Valid() && Yields(ParseUint64(text, old(curr)), node)
    {
      SkipWs();
      var start := curr;
      var failed := ReadUnsigned();
      if failed {
        return None;
      }
      var overflow, v := AtoU64(text[start..curr - 3]);
      return if overflow then None else Some(UInt64(v));
    }

    method ParseDoubleNode() returns (node: Option<Node>)
      requires Valid()
      modifies this
      ensures Valid() && Yields(ParseDouble(text, old(curr)), node)
    {
      SkipWs();
      var start := curr;
      var failed := ReadReal();
      if failed || ConvertsToInfinity(text[start..curr]) {
        return None;
      }
      return Some(Double(text[start..curr]));
    }

    /** The last branches of am_object_notation_parse_node. */
    method ParseLeafNode() returns (node: Option<Node>)
      requires curr < |text|
      modifies this
      ensures Valid() && Yields(ReadLeaf(text, old(curr)), node)
    {
      hide ParseString; hide ParseDouble; hide ParseInt64; hide ParseUint64; hide ReadDouble; hide ReadInt64;
      if text[curr] == '\"' {
        node := ParseStringNode();
      } else if text[curr] == '.' {
        node := ParseDoubleNode();
      } else if IsDigit(text[curr]) || text[curr] == '-' {
        var noReal := PeekReal();
        if !noReal {
          node := ParseDoubleNode();
          return;
        }
        var noSigned := PeekSigned();
        if !noSigned {
          node := ParseInt64Node();
        } else {
          node := ParseUint64Node();
        }
      } else {
        node := None;
      }
    }

    // ----- Composite nodes -----

    /** am_object_notation_parse_list. */
    method ParseListNode() returns (node: Option<Node>)
      requires Valid()
      modifies this
      ensures var b := SkipBlanks(text, old(curr));
        Yields(if b == |text| || text[b] != '[' then None else ParseItems(ReadLeaf, text, b + 1, []), node)
      decreases |text| - curr, 3
    {
      hide ParseNode; hide ReadLeaf; hide Advances;
      ReadLeafReadsLeaves();
      var failed := ReadNextChar('[');
      if failed {
        return None;
      }
      var items: seq<Node> := [];
      ghost var whole := ParseItems(ReadLeaf, text, curr, []);
      ghost var start := curr;
      while true
        invariant Valid() && old(curr) < start <= curr && ParseItems(ReadLeaf, text, curr, items) == whole
        decreases |text| - curr
      {
        ghost var i := curr;
        SkipWs();
        if curr == |text| {
          return None;
        }
        SkipIsIdempotent(text, i);
        if text[curr] == ']' {
          break;
        }
        ghost var b := curr;
        var item := ParseAnyNode();
        if item.None? {
          return None;
        }
        ghost var p := curr;
        SkipWs();
        if curr == |text| || (text[curr] != ',' && text[curr] != ']') {
          return None;
        }
        ItemRound(ReadLeaf, text, i, b, p, curr, item.value, items);
        items := items + [item.value];
        if text[curr] == ',' {
          curr := curr + 1;
        }
      }
      SkipWs();
      failed := ReadNextChar(']');
      return Some(List(items));
    }

    /** am_object_notation_parse_member. */
    method ParseMemberNode() returns (m: Option<Member>)
      requires Valid()
      modifies this
      ensures Valid() && ParseMember(ReadLeaf, text, old(curr)) == if m.None? then None else Some((m.value, curr))
      decreases |text| - curr, 3
    {
      hide ParseNode; hide ReadLeaf; hide Advances;
      ReadLeafReadsLeaves();
      SkipWs();
      var start := curr;
      var failed := ReadRun(IsIdentStart, IsIdentNext);
      if failed {
        return None;
      }
      var name := text[start..curr];
      failed := ReadNextChar(':');
      if failed {
        return None;
      }
      var def := ParseAnyNode();
      return if def.None? then None else Some(Member(name, def.value));
    }

    /** am_object_notation_parse_group_body. */
    method ParseGroupBody(name: string) returns (node: Option<Node>)
      requires Valid()
      modifies this
      ensures var b := SkipBlanks(text, old(curr));
        Yields(if b == |text| || text[b] != '{' then None else ParseMembers(ReadLeaf, text, b + 1, name, []), node)
      decreases |text| - curr, 3
    {
      hide ParseMember; hide ReadLeaf; hide Advances;
      ReadLeafReadsLeaves();
      var failed := ReadNextChar('{');
      if failed {
        return None;
      }
      var members: seq<Member> := [];
      ghost var whole := ParseMembers(ReadLeaf, text, curr, name, []);
      ghost var start := curr;
      while true
        invariant Valid() && old(curr) < start <= curr && ParseMembers(ReadLeaf, text, curr, name, members) == whole
        decreases |text| - curr
      {
        ghost var i := curr;
        SkipWs();
        if curr == |text| {
          return None;
        }
        SkipIsIdempotent(text, i);
        if text[curr] == '}' {
          break;
        }
        ghost var b := curr;
        var member := ParseMemberNode();
        if member.None? {
          return None;
        }
        ghost var p := curr;
        SkipWs();
        if curr == |text| || (text[curr] != ',' && text[curr] != '}') {
          return None;
        }
        MemberRound(ReadLeaf, text, i, b, p, curr, member.value, name, members);
        members := members + [member.value];
        if text[curr] == ',' {
          curr := curr + 1;
        }
      }
      SkipWs();
      failed := ReadNextChar('}');
      return Some(Group(name, members));
    }

    /** am_object_notation_parse_group. */
    method ParseGroupNode() returns (node: Option<Node>)
      requires Valid()
      modifies this
      ensures Yields(ParseGroup(ReadLeaf, text, old(curr)), node)
      decreases |text| - curr, 4
    {
      hide ParseMembers; hide ReadLeaf; hide Advances;
      ReadLeafReadsLeaves();
      SkipWs();
      var start := curr;
      var failed := ReadRun(IsIdentStart, IsGroupNext);
      if failed {
        return None;
      }
      node := ParseGroupBody(text[start..curr]);
    }

    /** am_object_notation_parse_node, without error messages. */
    method ParseAnyNode() returns (node: Option<Node>)
      requires Valid()
      modifies this
      ensures Yields(ParseNode(ReadLeaf, text, old(curr)), node)
      decreases |text| - curr, 5
    {
      hide ParseItems; hide ParseGroup; hide ReadLeaf; hide Advances;
      ReadLeafReadsLeaves();
      SkipWs();
      SkipIsIdempotent(text, old(curr));
      if curr == |text| {
        return None;
      }
      if text[curr] == '[' {
        node := ParseListNode();
      } else if IsIdentStart(text[curr]) {
        node := ParseGroupNode();
      } else {
        node := ParseLeafNode();
      }
    }
  }

  /** What the program prints, followed by anything that does not go on a single double, its
      parser reads back, and then stands right behind the printed text, or fails if a double
      is not finite. It reads the same tree if and only if all doubles are finite and no
      string holds a character from 128 to 254 besides. */
  method PrintThenParse(n: Node, indent: nat, next: nat, rest: string)
    returns (printed: string, node: Option<Node>, stop: nat)
    requires Printable(n)
    ensures printed == Print(n, indent, next)
    ensures EndsAt(printed + rest, |printed|, n) ==>
      if Finite(n) then node == Some(Narrowed(n)) && stop == |printed| else node == None
    ensures node == Some(n) && stop == |printed| <==>
      Finite(n) && Survives(n) && EndsAt(printed + rest, |printed|, n)
  {
    hide Print; hide Survives; hide Finite; hide EndsAt; hide Narrowed; hide Printable; hide ParseNode;
    ParsePrintedBefore(n, indent, next, rest);
    var printer := new Printer();
    printer.Save(n, indent, next);
    printed := printer.out;
    assert "" + Print(n, indent, next) == Print(n, indent, next);
    var parser := new Parser(printed + rest);
    node := parser.ParseAnyNode();
    stop := parser.curr;
  }
}
