/** Which trees the parser can produce, and what saving a parsed tree loses. */
module ParsedTrees {
  import opened Wrappers
  import opened Escaping
  import opened Numbers
  import opened Lexing
  import opened ObjectNotation
  import opened NotationRoundTrip

  /** All doubles of the tree have the form that %f writes. */
  predicate Plain(n: Node)
    decreases n, 0
  {
    match n
    case Group(_, members) => PlainMembers(members)
    case List(items) => PlainItems(items)
    case Str(_) => true
    case Int64(_) => true
    case UInt64(_) => true
    case Double(t) => FixedPoint(t) || NotFinite(t)
  }

  predicate PlainItems(items: seq<Node>)
    decreases items, 1
  {
    items == [] || (Plain(items[0]) && PlainItems(items[1..]))
  }

  predicate PlainMembers(members: seq<Member>)
    decreases members, 1
  {
    members == [] || (Plain(members[0].def) && PlainMembers(members[1..]))
  }

  /** The node holds no infinities and can be saved if it is plain. */
  ghost predicate Savable(n: Node) {
    Finite(n) && (Plain(n) ==> Printable(n))
  }

  ghost predicate AllSavable(items: seq<Node>) {
    FiniteItems(items) && (PlainItems(items) ==> PrintableItems(items))
  }

  ghost predicate MembersSavable(members: seq<Member>) {
    FiniteMembers(members) && (PlainMembers(members) ==> PrintableMembers(members))
  }

  lemma {:induction false} FiniteItemsConcat(items: seq<Node>, item: Node)
    ensures FiniteItems(items + [item]) <==> FiniteItems(items) && Finite(item)
  {
    if items == [] {
      assert items + [item] == [item] && [item][1..] == [];
    } else {
      assert (items + [item])[1..] == items[1..] + [item];
      FiniteItemsConcat(items[1..], item);
    }
  }

  lemma {:induction false} FiniteMembersConcat(members: seq<Member>, m: Member)
    ensures FiniteMembers(members + [m]) <==> FiniteMembers(members) && Finite(m.def)
  {
    if members == [] {
      assert members + [m] == [m] && [m][1..] == [];
    } else {
      assert (members + [m])[1..] == members[1..] + [m];
      FiniteMembersConcat(members[1..], m);
    }
  }

  lemma {:induction false} ItemAdded(items: seq<Node>, item: Node)
    requires AllSavable(items) && Savable(item)
    ensures AllSavable(items + [item])
  {
    FiniteItemsConcat(items, item);
    PlainItemsConcat(items, item);
    PrintableItemsConcat(items, item);
  }

  lemma {:induction false} PlainItemsConcat(items: seq<Node>, item: Node)
    ensures PlainItems(items + [item]) <==> PlainItems(items) && Plain(item)
  {
    if items == [] {
      assert items + [item] == [item] && [item][1..] == [];
    } else {
      assert (items + [item])[1..] == items[1..] + [item];
      PlainItemsConcat(items[1..], item);
    }
  }

  lemma {:induction false} PrintableItemsConcat(items: seq<Node>, item: Node)
    ensures PrintableItems(items + [item]) <==> PrintableItems(items) && Printable(item)
  {
    if items == [] {
      assert items + [item] == [item] && [item][1..] == [];
    } else {
      assert (items + [item])[1..] == items[1..] + [item];
      PrintableItemsConcat(items[1..], item);
    }
  }

  lemma {:induction false} PlainMembersConcat(members: seq<Member>, m: Member)
    ensures PlainMembers(members + [m]) <==> PlainMembers(members) && Plain(m.def)
  {
    if members == [] {
      assert members + [m] == [m] && [m][1..] == [];
    } else {
      assert (members + [m])[1..] == members[1..] + [m];
      PlainMembersConcat(members[1..], m);
    }
  }

  lemma {:induction false} PrintableMembersConcat(members: seq<Member>, m: Member)
    ensures PrintableMembers(members + [m]) <==>
      PrintableMembers(members) && ValidMemberName(m.name) && Printable(m.def)
  {
    if members == [] {
      assert members + [m] == [m] && [m][1..] == [];
    } else {
      assert (members + [m])[1..] == members[1..] + [m];
      PrintableMembersConcat(members[1..], m);
    }
  }

  lemma MemberAdded(members: seq<Member>, m: Member)
    requires MembersSavable(members) && Savable(m.def) && ValidMemberName(m.name)
    ensures MembersSavable(members + [m])
  {
    FiniteMembersConcat(members, m);
    PlainMembersConcat(members, m);
    PrintableMembersConcat(members, m);
  }

  /** A text of bytes, as files hold. */
  predicate ByteText(s: string) {
    forall i :: 0 <= i < |s| ==> s[i] as int < 256
  }

  /** What the leaf reader reads in a text of bytes can be saved. */
  ghost predicate LeavesSavable(leaf: LeafReader) {
    forall s: string, i: nat :: ByteText(s) && leaf(s, i).Some? ==> Savable(leaf(s, i).value.0)
  }

  lemma SavedLeaves()
    ensures LeavesSavable(ReadLeaf) && Advances(ReadLeaf)
  {
    hide ReadLeaf; hide ByteText; hide Savable;
    forall s: string, i: nat | ByteText(s) && ReadLeaf(s, i).Some? ensures Savable(ReadLeaf(s, i).value.0) {
      LeafIsSavable(s, i);
    }
  }

  lemma LeafIsSavable(s: string, i: nat)
    requires ByteText(s) && ReadLeaf(s, i).Some?
    ensures Savable(ReadLeaf(s, i).value.0)
  {
    if s[i] == '\"' {
      var b := SkipBlanks(s, i);
      LiteralIsBytes(s[b + 1..ReadString(s, b).value - 1]);
    } else if ReadLeaf(s, i).value.0.Double? {
      LiteralIsNoWord(s, SkipBlanks(s, i));
    }
  }

  /** The literal of a double is no word. */
  lemma LiteralIsNoWord(s: string, b: nat)
    requires b <= |s| && ReadDouble(s, b).Some?
    ensures !NotFinite(s[b..ReadDouble(s, b).value])
  {
    var t := s[b..ReadDouble(s, b).value];
    assert t[0] == s[b];
    if t[0] == '-' {
      assert |t| >= 2 && t[1] == s[b + 1];
    }
  }

  /** A C string ends before its first zero byte. */
  lemma {:induction false} CStrIsBytes(s: string)
    requires ByteText(s)
    ensures Bytes(CStr(s))
  {
    if s != "" {
      CStrIsBytes(s[1..]);
    }
  }

  lemma {:induction false} UnescapedIsByteText(t: string)
    requires ByteText(t)
    ensures Unescape(t).Some? ==> ByteText(Unescape(t).value)
    decreases |t|
  {
    if t != "" && t[0] != '\\' {
      UnescapedIsByteText(t[1..]);
    } else if |t| > 1 && Sequence(t[1..]).Some? {
      SequenceLength(t[1..]);
      SequenceIsByte(t[1..]);
      UnescapedIsByteText(t[1 + Sequence(t[1..]).value.1..]);
    }
  }

  lemma SequenceIsByte(t: string)
    requires t != "" && Sequence(t).Some?
    ensures Sequence(t).value.0 as int < 256
  {
    CharOfIsByte(t[0], 0);
  }

  lemma {:induction false} CharOfIsByte(letter: char, k: nat)
    requires k <= |ESCAPES|
    ensures CharOf(letter, k).Some? ==> CharOf(letter, k).value as int < 256
    decreases |ESCAPES| - k
  {
    if k < |ESCAPES| {
      CharOfIsByte(letter, k + 1);
    }
  }

  lemma LiteralIsBytes(body: string)
    requires ByteText(body)
    ensures StringValue(body).Some? ==> Bytes(StringValue(body).value)
  {
    CStrIsBytes(body);
    UnescapedIsByteText(CStr(body));
    if Unescape(CStr(body)).Some? {
      CStrIsBytes(Unescape(CStr(body)).value);
    }
  }

  /** A name that has been read is a valid name. */
  lemma NameIsValid(s: string, b: nat, j: nat, first: char -> bool, next: char -> bool)
    requires b <= |s| && ReadName(s, b, first, next) == Some(j)
    ensures b <= j <= |s| && ValidName(s[b..j], first, next)
  {
    SpanEnds(s, b + 1, next);
  }

  lemma {:induction false} NodeIsSavable(leaf: LeafReader, s: string, i: nat)
    requires Advances(leaf) && LeavesSavable(leaf) && ByteText(s) && i <= |s|
    ensures ParseNode(leaf, s, i).Some? ==> Savable(ParseNode(leaf, s, i).value.0)
    decreases |s| - i, 3
  {
    hide Savable;
    var b := SkipBlanks(s, i);
    if b < |s| && s[b] == '[' {
      assert AllSavable([]);
      ItemsAreSavable(leaf, s, b + 1, []);
    } else if b < |s| && IsIdentStart(s[b]) {
      GroupIsSavable(leaf, s, b);
    }
  }

  lemma {:induction false} ItemsAreSavable(leaf: LeafReader, s: string, i: nat, items: seq<Node>)
    requires Advances(leaf) && LeavesSavable(leaf) && ByteText(s) && i <= |s| && AllSavable(items)
    ensures ParseItems(leaf, s, i, items).Some? ==> Savable(ParseItems(leaf, s, i, items).value.0)
    decreases |s| - i, 4
  {
    hide LeavesSavable; hide ParseNode; hide PlainItems; hide PrintableItems;
    var b := SkipBlanks(s, i);
    if b < |s| && s[b] != ']' {
      NodeIsSavable(leaf, s, b);
      var r := ParseNode(leaf, s, b);
      if r.Some? {
        var e := SkipBlanks(s, r.value.1);
        if e < |s| && (s[e] == ',' || s[e] == ']') {
          ItemAdded(items, r.value.0);
          hide AllSavable;
          ItemsAreSavable(leaf, s, if s[e] == ',' then e + 1 else e, items + [r.value.0]);
        }
      }
    }
  }

  lemma {:induction false} GroupIsSavable(leaf: LeafReader, s: string, i: nat)
    requires Advances(leaf) && LeavesSavable(leaf) && ByteText(s) && i <= |s|
    ensures ParseGroup(leaf, s, i).Some? ==> Savable(ParseGroup(leaf, s, i).value.0)
    decreases |s| - i, 2
  {
    hide Savable; hide LeavesSavable;
    var b := SkipBlanks(s, i);
    var r := ReadName(s, b, IsIdentStart, IsGroupNext);
    if r.Some? {
      NameIsValid(s, b, r.value, IsIdentStart, IsGroupNext);
      var o := SkipBlanks(s, r.value);
      if o < |s| && s[o] == '{' {
        assert MembersSavable([]);
        MembersAreSavable(leaf, s, o + 1, s[b..r.value], []);
      }
    }
  }

  lemma {:induction false} MembersAreSavable(leaf: LeafReader, s: string, i: nat, name: string, members: seq<Member>)
    requires Advances(leaf) && LeavesSavable(leaf) && ByteText(s) && i <= |s|
    requires MembersSavable(members) && ValidGroupName(name)
    ensures ParseMembers(leaf, s, i, name, members).Some? ==> Savable(ParseMembers(leaf, s, i, name, members).value.0)
    decreases |s| - i, 4
  {
    hide LeavesSavable; hide ParseMember; hide PlainMembers; hide PrintableMembers; hide ValidGroupName;
    var b := SkipBlanks(s, i);
    if b < |s| && s[b] != '}' {
      MemberIsSavable(leaf, s, b);
      var r := ParseMember(leaf, s, b);
      if r.Some? {
        var e := SkipBlanks(s, r.value.1);
        if e < |s| && (s[e] == ',' || s[e] == '}') {
          MemberAdded(members, r.value.0);
          hide MembersSavable;
          MembersAreSavable(leaf, s, if s[e] == ',' then e + 1 else e, name, members + [r.value.0]);
        }
      }
    }
  }

  lemma {:induction false} MemberIsSavable(leaf: LeafReader, s: string, i: nat)
    requires Advances(leaf) && LeavesSavable(leaf) && ByteText(s) && i <= |s|
    ensures ParseMember(leaf, s, i).Some? ==>
      Savable(ParseMember(leaf, s, i).value.0.def) && ValidMemberName(ParseMember(leaf, s, i).value.0.name)
    decreases |s| - i, 3
  {
    hide Savable; hide LeavesSavable; hide ParseNode;
    var b := SkipBlanks(s, i);
    var r := ReadName(s, b, IsIdentStart, IsIdentNext);
    if r.Some? {
      NameIsValid(s, b, r.value, IsIdentStart, IsIdentNext);
      var o := SkipBlanks(s, r.value);
      if o < |s| && s[o] == ':' {
        NodeIsSavable(leaf, s, o + 1);
      }
    }
  }

  /** What has been parsed from any text can be saved exactly if it is plain. */
  lemma ParsedIsPrintable(s: string, i: nat)
    requires ByteText(s) && i <= |s| && Parse(s, i).Some?
    ensures Finite(Parse(s, i).value.0) && (Plain(Parse(s, i).value.0) <==> Printable(Parse(s, i).value.0))
  {
    SavedLeaves();
    NodeIsSavable(ReadLeaf, s, i);
    PrintableIsPlain(Parse(s, i).value.0);
  }

  lemma {:induction false} PrintableIsPlain(n: Node)
    ensures Printable(n) ==> Plain(n)
    decreases n, 0
  {
    match n
    case Group(_, members) => PrintableMembersArePlain(members);
    case List(items) => PrintableItemsArePlain(items);
    case _ =>
  }

  lemma {:induction false} PrintableItemsArePlain(items: seq<Node>)
    ensures PrintableItems(items) ==> PlainItems(items)
    decreases items, 1
  {
    if items != [] {
      PrintableIsPlain(items[0]);
      PrintableItemsArePlain(items[1..]);
    }
  }

  lemma {:induction false} PrintableMembersArePlain(members: seq<Member>)
    ensures PrintableMembers(members) ==> PlainMembers(members)
    decreases members, 1
  {
    if members != [] {
      PrintableIsPlain(members[0].def);
      PrintableMembersArePlain(members[1..]);
    }
  }

  /** Loading a text, saving the tree and loading it again gives the tree with its strings
      narrowed; so it is the same tree if and only if no string holds a character from 128
      to 254. Doubles are written as they were read, as far as they have the form and the
      precision of what %f writes. */
  lemma LoadSaveLoad(s: string, i: nat, indent: nat, next: nat, rest: string)
    requires ByteText(s) && i <= |s| && Parse(s, i).Some? && Plain(Parse(s, i).value.0)
    requires EndsAt(rest, 0, Parse(s, i).value.0)
    ensures var n := Parse(s, i).value.0;
      Printable(n) && Parse(Print(n, indent, next) + rest, 0) == Some((Narrowed(n), |Print(n, indent, next)|)) &&
      (Narrowed(n) == n <==> Survives(n))
  {
    hide Parse; hide Print; hide Plain; hide Printable; hide NoBodyFollows;
    ParsedIsPrintable(s, i);
    var n := Parse(s, i).value.0;
    var text := Print(n, indent, next);
    assert HasAt(text + rest, 0, text);
    ParsePrinted(text + rest, 0, n, indent, next);
    NarrowedIff(n);
  }

  /** Whatever the first round has lost, a second one gives the same text and the same tree
      again. */
  lemma SecondRoundIsExact(n: Node, indent: nat, next: nat, rest: string)
    requires Printable(n) && Finite(n) && EndsAt(rest, 0, n)
    ensures Printable(Narrowed(n)) && Print(Narrowed(n), indent, next) == Print(n, indent, next)
    ensures Parse(Print(Narrowed(n), indent, next) + rest, 0) == Some((Narrowed(n), |Print(n, indent, next)|))
  {
    hide Parse; hide NoBodyFollows;
    BodyOfNarrowed(n, next);
    hide Print; hide Printable;
    var text := Print(n, indent, next);
    assert HasAt(text + rest, 0, text);
    ParsePrinted(text + rest, 0, n, indent, next);
  }
}
