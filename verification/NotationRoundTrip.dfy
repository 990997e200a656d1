/** Parsing printed text gives the printed tree back, but for characters that printing does
    not tell apart, and stops right after it, unless the tree holds infinite doubles. */
module NotationRoundTrip {
  import opened Wrappers
  import opened Escaping
  import opened Numbers
  import opened Lexing
  import opened ObjectNotation

  // ----- What printing keeps -----

  /** The tree with all its strings as unescaping their escaped form leaves them. */
  function Narrowed(n: Node): Node
    decreases n, 0
  {
    match n
    case Group(name, members) => Group(name, NarrowedMembers(members))
    case List(items) => List(NarrowedItems(items))
    case Str(v) => Str(NarrowAll(v))
    case _ => n
  }

  function NarrowedItems(items: seq<Node>): (r: seq<Node>)
    ensures |r| == |items|
    decreases items, 1
  {
    if items == [] then [] else [Narrowed(items[0])] + NarrowedItems(items[1..])
  }

  function NarrowedMembers(members: seq<Member>): (r: seq<Member>)
    ensures |r| == |members|
    decreases members, 1
  {
    if members == [] then [] else [NarrowedMember(members[0])] + NarrowedMembers(members[1..])
  }

  function NarrowedMember(m: Member): Member
    decreases m, 1
  {
    Member(m.name, Narrowed(m.def))
  }

  lemma NarrowedItemsUnfold(items: seq<Node>)
    requires items != []
    ensures NarrowedItems(items) == [Narrowed(items[0])] + NarrowedItems(items[1..])
    ensures |items| == 1 ==> NarrowedItems(items) == [Narrowed(items[0])]
  {
  }

  lemma NarrowedMembersUnfold(members: seq<Member>)
    requires members != []
    ensures NarrowedMembers(members) == [NarrowedMember(members[0])] + NarrowedMembers(members[1..])
    ensures |members| == 1 ==> NarrowedMembers(members) == [NarrowedMember(members[0])]
  {
  }

  /** No string of the tree holds a character from 128 to 254. */
  predicate Survives(n: Node)
    decreases n, 0
  {
    match n
    case Group(_, members) => SurviveMembers(members)
    case List(items) => SurviveAll(items)
    case Str(v) => Narrows(v)
    case _ => true
  }

  predicate SurviveAll(items: seq<Node>)
    decreases items, 1
  {
    items == [] || (Survives(items[0]) && SurviveAll(items[1..]))
  }

  predicate SurviveMembers(members: seq<Member>)
    decreases members, 1
  {
    members == [] || (Survives(members[0].def) && SurviveMembers(members[1..]))
  }

  /** All doubles of the tree are finite numbers. */
  predicate Finite(n: Node)
    decreases n, 0
  {
    match n
    case Group(_, members) => FiniteMembers(members)
    case List(items) => FiniteItems(items)
    case Double(t) => !NotFinite(t)
    case _ => true
  }

  predicate FiniteItems(items: seq<Node>)
    decreases items, 1
  {
    items == [] || (Finite(items[0]) && FiniteItems(items[1..]))
  }

  predicate FiniteMembers(members: seq<Member>)
    decreases members, 1
  {
    members == [] || (Finite(members[0].def) && FiniteMembers(members[1..]))
  }

  /** What parsing makes of a printed tree that ends at `j`. */
  function Reread(n: Node, j: nat): Parsed<Node> {
    if Finite(n) then Some((Narrowed(n), j)) else None
  }

  // ----- Blanks -----

  lemma SkipNothing(s: string, i: nat)
    requires i < |s| && !IsBlank(s[i])
    ensures SkipBlanks(s, i) == i
  {
  }

  lemma SkipOne(s: string, i: nat)
    requires i < |s| && IsBlank(s[i])
    ensures SkipBlanks(s, i) == SkipBlanks(s, i + 1)
  {
  }

  lemma SkipTabs(s: string, i: nat, n: nat)
    requires HasAt(s, i, Tabs(n)) && i + n < |s| && !IsBlank(s[i + n])
    ensures SkipBlanks(s, i) == i + n
  {
    HasAtChars(s, i, Tabs(n));
    SpanStops(s, i, i + n, IsBlank);
  }

  lemma SkipIsIdempotent(s: string, i: nat)
    requires i <= |s|
    ensures SkipBlanks(s, SkipBlanks(s, i)) == SkipBlanks(s, i)
  {
    SpanEnds(s, i, IsBlank);
  }

  // ----- The first character of a printed node -----

  predicate IsNodeStart(c: char) {
    !IsBlank(c) && c != ']' && c != '}' && c != ',' && c != '{'
  }

  lemma SignedStart(v: int)
    ensures SignedDigits(v) != "" && (SignedDigits(v)[0] == '-' || IsDigit(SignedDigits(v)[0]))
  {
    DigitsValue(if v < 0 then -v else v);
  }

  lemma BodyStart(n: Node, next: nat)
    requires Printable(n)
    ensures Body(n, next) != "" && IsNodeStart(Body(n, next)[0])
  {
    match n
    case Group(name, members) =>
    case List(items) =>
    case Str(v) =>
    case Int64(v) => SignedStart(v);
    case UInt64(v) => DigitsValue(v);
    case Double(_) =>
  }

  // ----- Leaves -----

  /** What stands at `j` cannot go on the name of a group and bring its body. */
  predicate NoBodyFollows(s: string, j: nat) {
    j <= |s| ==> var o := SkipBlanks(s, Span(s, j, IsGroupNext)); o == |s| || s[o] != '{'
  }

  /** A double at the end of which a digit stands would go on with it, and a word at the end
      of which the body of a group stands would be the name of that group. */
  predicate EndsAt(s: string, j: nat, n: Node) {
    n.Double? ==>
      if NotFinite(n.text) then n.text[0] == '-' || NoBodyFollows(s, j) else j >= |s| || !IsDigit(s[j])
  }

  lemma {:induction false} CStrIdentity(s: string)
    requires forall i :: 0 <= i < |s| ==> s[i] as int != 0
    ensures CStr(s) == s
  {
    if s != "" {
      CStrIdentity(s[1..]);
      assert s == [s[0]] + s[1..];
    }
  }

  lemma StringValueOfEscaped(v: string)
    requires Bytes(v)
    ensures StringValue(Escape(v)) == Some(NarrowAll(v))
  {
    EscapedIsPrintable(v);
    CStrIdentity(Escape(v));
    UnescapeEscaped(v);
    CStrIdentity(NarrowAll(v));
  }

  lemma ParseQuoted(s: string, i: nat, v: string)
    requires Bytes(v) && HasAt(s, i, Quoted(v))
    ensures ReadLeaf(s, i) == Some((Str(NarrowAll(v)), i + |Quoted(v)|))
  {
    HasAtChars(s, i, Quoted(v));
    ReadQuoted(s, i, v);
    StringValueOfEscaped(v);
    SkipNothing(s, i);
  }

  /** What a printed number looks like to the lexer. */
  lemma NumberToken(s: string, i: nat, v: nat, suffix: string)
    requires suffix == "i64" || suffix == "u64"
    requires HasAt(s, i, Digits(v) + suffix)
    ensures i < |s| && IsDigit(s[i]) && SkipBlanks(s, i) == i
    ensures ReadDouble(s, i) == None && (i > 0 && s[i - 1] == '-' ==> ReadDouble(s, i - 1) == None)
    ensures ReadSuffixed(s, i, suffix) == Some(i + |Digits(v)| + 3)
    ensures suffix == "u64" ==> ReadSuffixed(s, i, "i64") == None
    ensures s[i..i + |Digits(v)|] == Digits(v)
  {
    ReadPrintedNumber(s, i, v, suffix);
    HasAtConcat(s, i, Digits(v), suffix);
    SkipNothing(s, i);
  }

  lemma ParseUnsignedToken(s: string, i: nat, j: nat, v: nat)
    requires v <= U64_MAX && i < |s| && IsDigit(s[i]) && SkipBlanks(s, i) == i && i + 4 <= j <= |s|
    requires ReadDouble(s, i) == None && ReadInt64(s, i) == None && ReadUint64(s, i) == Some(j)
    requires s[i..j - 3] == Digits(v)
    ensures ReadLeaf(s, i) == Some((UInt64(v), j))
  {
    UnsignedOfDigits(v);
    assert ParseUint64(s, i) == Some((UInt64(v), j));
  }

  lemma ParseSignedToken(s: string, i: nat, j: nat, v: int)
    requires I64_MIN <= v <= I64_MAX && i < |s| && (IsDigit(s[i]) || s[i] == '-') && SkipBlanks(s, i) == i
    requires i + 4 <= j <= |s| && ReadDouble(s, i) == None && ReadInt64(s, i) == Some(j)
    requires s[i..j - 3] == SignedDigits(v)
    ensures ReadLeaf(s, i) == Some((Int64(v), j))
  {
    SignedOfDigits(v);
    assert ParseInt64(s, i) == Some((Int64(v), j));
  }

  lemma ParsePrintedUnsigned(s: string, i: nat, v: nat)
    requires v <= U64_MAX && HasAt(s, i, Digits(v) + "u64")
    ensures ReadLeaf(s, i) == Some((UInt64(v), i + |Digits(v)| + 3))
  {
    NumberToken(s, i, v, "u64");
    ParseUnsignedToken(s, i, i + |Digits(v)| + 3, v);
  }

  lemma NegativeToken(s: string, i: nat, v: nat)
    requires HasAt(s, i, ['-'] + Digits(v) + "i64")
    ensures i + 1 < |s| && s[i] == '-' && SkipBlanks(s, i) == i && ReadDouble(s, i) == None
    ensures ReadInt64(s, i) == Some(i + |Digits(v)| + 4) && i + |Digits(v)| + 4 <= |s|
    ensures s[i..i + |Digits(v)| + 1] == ['-'] + Digits(v)
  {
    var d := Digits(v);
    assert ['-'] + d + "i64" == ['-'] + (d + "i64");
    HasAtConcat(s, i, ['-'], d + "i64");
    HasAtConcat(s, i, ['-'] + d, "i64");
    HasAtChars(s, i, ['-']);
    SkipNothing(s, i);
    NumberToken(s, i + 1, v, "i64");
  }

  lemma PositiveToken(s: string, i: nat, v: nat)
    requires HasAt(s, i, Digits(v) + "i64")
    ensures i < |s| && IsDigit(s[i]) && SkipBlanks(s, i) == i && ReadDouble(s, i) == None
    ensures ReadInt64(s, i) == Some(i + |Digits(v)| + 3) && i + |Digits(v)| + 3 <= |s| && Digits(v) != ""
    ensures s[i..i + |Digits(v)|] == Digits(v)
  {
    NumberToken(s, i, v, "i64");
  }

  lemma ParsePrintedSigned(s: string, i: nat, v: int)
    requires I64_MIN <= v <= I64_MAX && HasAt(s, i, SignedDigits(v) + "i64")
    ensures ReadLeaf(s, i) == Some((Int64(v), i + |SignedDigits(v)| + 3))
  {
    hide ReadLeaf; hide ReadInt64; hide ReadDouble; hide SkipBlanks; hide Digits; hide HasAt;
    if v < 0 {
      assert SignedDigits(v) == ['-'] + Digits(-v);
      hide SignedDigits;
      NegativeToken(s, i, -v);
    } else {
      assert SignedDigits(v) == Digits(v);
      hide SignedDigits;
      PositiveToken(s, i, v);
    }
    hide SignedDigits;
    ParseSignedToken(s, i, i + |SignedDigits(v)| + 3, v);
  }

  lemma ParsePrintedDouble(s: string, i: nat, t: string)
    requires FixedPoint(t) && !ConvertsToInfinity(t) && HasAt(s, i, t)
    ensures !NotFinite(t)
    ensures ReadLeaf(s, i) == Some((Double(t), i + |t|)) <==> EndsAt(s, i + |t|, Double(t))
  {
    assert |t| >= 8;
    hide ReadDouble; hide ConvertsToInfinity; hide FixedPoint; hide ReadInt64;
    HasAtChars(s, i, t);
    ReadFixedPoint(s, i, t);
    SkipNothing(s, i);
  }

  /** A minus sign before a word does not begin a leaf. */
  lemma SignedWordIsNoLeaf(s: string, i: nat, t: string)
    requires NotFinite(t) && t[0] == '-' && HasAt(s, i, t)
    ensures ReadLeaf(s, i) == None
  {
    HasAtChars(s, i, t);
    assert s[i] == '-' && (s[i + 1] == 'i' || s[i + 1] == 'n');
    SkipNothing(s, i);
    assert ReadDouble(s, i) == None && ReadInt64(s, i) == None && ReadUint64(s, i) == None;
  }

  /** The leaf reader reads this printed leaf. */
  ghost predicate ReadsLeaf(leaf: LeafReader, s: string, i: nat, n: Node) {
    leaf(s, i) == Some((Narrowed(n), i + |LeafText(n)|))
  }

  predicate IsLeaf(n: Node) {
    !IsComposite(n)
  }

  /** What a leaf is printed as. */
  function LeafText(n: Node): string {
    match n
    case Str(v) => if Bytes(v) then Quoted(v) else ""
    case Int64(v) => SignedDigits(v) + "i64"
    case UInt64(v) => Digits(v) + "u64"
    case Double(t) => t
    case _ => ""
  }

  ghost predicate Rejects(leaf: LeafReader, s: string, i: nat, t: string) {
    HasAt(s, i, t) ==> leaf(s, i) == None
  }

  /** Printed leaves are read back wherever they stand, and signed words are not read. */
  ghost predicate ReadsLeaves(leaf: LeafReader) {
    && (forall s, i: nat, t {:trigger Rejects(leaf, s, i, t)} :: NotFinite(t) && t[0] == '-' ==> Rejects(leaf, s, i, t))
    && forall s, i: nat, n {:trigger ReadsLeaf(leaf, s, i, n)} ::
      IsLeaf(n) && Printable(n) && Finite(n) && HasAt(s, i, LeafText(n)) && EndsAt(s, i + |LeafText(n)|, n) ==>
      ReadsLeaf(leaf, s, i, n)
  }

  lemma ReadLeafReadsLeaves()
    ensures Advances(ReadLeaf) && ReadsLeaves(ReadLeaf)
  {
    hide ReadLeaf; hide HasAt; hide Quoted; hide Digits; hide SignedDigits; hide Bytes;
    hide FixedPoint; hide ConvertsToInfinity; hide EndsAt;
    forall s, i: nat, t | NotFinite(t) && t[0] == '-' && HasAt(s, i, t) ensures ReadLeaf(s, i) == None {
      SignedWordIsNoLeaf(s, i, t);
    }
    forall s, i: nat, n |
      IsLeaf(n) && Printable(n) && Finite(n) && HasAt(s, i, LeafText(n)) && EndsAt(s, i + |LeafText(n)|, n)
      ensures ReadsLeaf(ReadLeaf, s, i, n)
    {
      match n
      case Str(v) => ParseQuoted(s, i, v);
      case Int64(v) => ParsePrintedSigned(s, i, v);
      case UInt64(v) => ParsePrintedUnsigned(s, i, v);
      case Double(t) => ParsePrintedDouble(s, i, t);
    }
  }

  /** A leaf begins with a character that sends the parser to the leaf reader. */
  lemma LeafStart(n: Node)
    requires IsLeaf(n) && Printable(n) && Finite(n)
    ensures LeafText(n) != ""
    ensures var c := LeafText(n)[0]; !IsBlank(c) && c != '[' && !IsIdentStart(c)
  {
    match n
    case Str(v) =>
    case Int64(v) => SignedStart(v);
    case UInt64(v) => DigitsValue(v);
    case Double(_) =>
  }

  lemma LeafRead(leaf: LeafReader, s: string, i: nat)
    requires Advances(leaf) && i < |s| && !IsBlank(s[i]) && s[i] != '[' && !IsIdentStart(s[i])
    ensures ParseNode(leaf, s, i) == leaf(s, i)
  {
    SkipNothing(s, i);
  }

  lemma ParseLeaf(leaf: LeafReader, s: string, i: nat, n: Node)
    requires Advances(leaf) && ReadsLeaves(leaf)
    requires IsLeaf(n) && Printable(n) && Finite(n) && HasAt(s, i, LeafText(n)) && EndsAt(s, i + |LeafText(n)|, n)
    ensures ParseNode(leaf, s, i) == Some((Narrowed(n), i + |LeafText(n)|))
  {
    hide Printable; hide Finite; hide LeafText; hide HasAt; hide ParseNode; hide FixedPoint; hide Narrowed;
    LeafStart(n);
    HasAtChars(s, i, LeafText(n));
    LeafRead(leaf, s, i);
    assert ReadsLeaf(leaf, s, i, n);
  }

  /** A word for an infinity is taken for the name of a group; it is read as a node only if a
      body follows. */
  lemma WordIsNotRead(leaf: LeafReader, s: string, i: nat, t: string)
    requires Advances(leaf) && ReadsLeaves(leaf)
    requires NotFinite(t) && HasAt(s, i, t) && EndsAt(s, i + |t|, Double(t))
    ensures ParseNode(leaf, s, i) == None
  {
    HasAtChars(s, i, t);
    assert s[i] == t[0];
    SkipNothing(s, i);
    if t[0] == '-' {
      assert Rejects(leaf, s, i, t);
    } else {
      assert s[i + 1] == t[1] && s[i + 2] == t[2];
      assert Span(s, i + 1, IsGroupNext) == Span(s, i + 3, IsGroupNext);
      assert ParseGroup(leaf, s, i) == None;
    }
  }

  // ----- Names -----

  lemma ReadPrintedName(s: string, i: nat, name: string, first: char -> bool, next: char -> bool)
    requires ValidName(name, first, next) && HasAt(s, i, name)
    requires i + |name| == |s| || !next(s[i + |name|])
    ensures ReadName(s, i, first, next) == Some(i + |name|)
  {
    HasAtChars(s, i, name);
    SpanStops(s, i + 1, i + |name|, next);
  }

  // ----- Composite nodes -----

  /** Parsing only depends on where the blanks end. */
  lemma ParseNodeAfterBlanks(leaf: LeafReader, s: string, i: nat, j: nat)
    requires Advances(leaf)
    requires i <= |s| && j <= |s| && SkipBlanks(s, i) == SkipBlanks(s, j)
    ensures ParseNode(leaf, s, i) == ParseNode(leaf, s, j)
  {
  }

  predicate IsSeparator(sep: string) {
    sep == ",\n" || sep == ", "
  }

  /** The text after the last item or member: blanks and the closing character. */
  predicate ClosesAt(s: string, i: nat, k: nat, c: char) {
    i <= k < |s| && SkipBlanks(s, i) == k && s[k] == c
  }

  /** The position where a printed item or node begins. */
  lemma IndentedStart(s: string, i: nat, n: Node, indent: nat, next: nat)
    requires Printable(n) && HasAt(s, i, Tabs(indent) + Body(n, next))
    ensures SkipBlanks(s, i) == i + indent < |s| && IsNodeStart(s[i + indent])
    ensures HasAt(s, i + indent, Body(n, next))
  {
    HasAtConcat(s, i, Tabs(indent), Body(n, next));
    BodyStart(n, next);
    HasAtChars(s, i + indent, Body(n, next));
    SkipTabs(s, i, indent);
  }

  /** One round of the loop over list items. */
  lemma ItemRound(leaf: LeafReader, s: string, i: nat, b: nat, p: nat, e: nat, item: Node, acc: seq<Node>)
    requires Advances(leaf)
    requires i <= |s| && SkipBlanks(s, i) == b < |s| && s[b] != ']'
    requires ParseNode(leaf, s, b) == Some((item, p)) && SkipBlanks(s, p) == e < |s| && (s[e] == ',' || s[e] == ']')
    ensures ParseItems(leaf, s, i, acc) == ParseItems(leaf, s, if s[e] == ',' then e + 1 else e, acc + [item])
  {
  }

  /** The end of the loop over list items. */
  lemma ItemsEnd(leaf: LeafReader, s: string, i: nat, k: nat, acc: seq<Node>)
    requires Advances(leaf)
    requires ClosesAt(s, i, k, ']')
    ensures ParseItems(leaf, s, i, acc) == Some((List(acc), k + 1))
  {
  }

  lemma ItemsSkip(leaf: LeafReader, s: string, i: nat, j: nat, acc: seq<Node>)
    requires Advances(leaf)
    requires i <= |s| && j <= |s| && SkipBlanks(s, i) == SkipBlanks(s, j)
    ensures ParseItems(leaf, s, i, acc) == ParseItems(leaf, s, j, acc)
  {
  }

  /** A comma and one blank character separate two elements. */
  predicate Continues(s: string, p: nat) {
    p + 2 <= |s| && s[p] == ',' && SkipBlanks(s, p) == p && SkipBlanks(s, p + 1) == SkipBlanks(s, p + 2)
  }

  lemma SeparatorAt(s: string, p: nat, sep: string)
    requires IsSeparator(sep) && HasAt(s, p, sep)
    ensures Continues(s, p)
  {
    HasAtChars(s, p, sep);
    SkipNothing(s, p);
    SkipOne(s, p + 1);
  }

  /** The items of a list stand at `i`, and the list closes at `k`. */
  ghost predicate ItemsAt(s: string, i: nat, items: seq<Node>, indent: nat, next: nat, sep: string, k: nat) {
    && PrintableItems(items) && items != [] && IsSeparator(sep)
    && HasAt(s, i, Items(items, indent, next, sep)) && ClosesAt(s, i + |Items(items, indent, next, sep)|, k, ']')
  }

  lemma ThreeParts(s: string, i: nat, head: string, sep: string, tail: string)
    requires HasAt(s, i, head + (sep + tail))
    ensures HasAt(s, i, head) && HasAt(s, i + |head|, sep) && HasAt(s, i + |head| + |sep|, tail)
    ensures |head + (sep + tail)| == |head| + |sep| + |tail|
  {
    HasAtConcat(s, i, head, sep + tail);
    HasAtConcat(s, i + |head|, sep, tail);
  }

  lemma ItemsUnfold(items: seq<Node>, indent: nat, next: nat, sep: string)
    requires PrintableItems(items) && items != []
    ensures Printable(items[0]) && PrintableItems(items[1..])
    ensures Items(items, indent, next, sep) ==
      Tabs(indent) + Body(items[0], next) + ((if |items| > 1 then sep else "") + Items(items[1..], indent, next, sep))
    ensures |items| == 1 ==> Items(items[1..], indent, next, sep) == ""
  {
  }

  lemma FirstItem(s: string, i: nat, items: seq<Node>, indent: nat, next: nat, sep: string, k: nat)
    requires ItemsAt(s, i, items, indent, next, sep, k)
    ensures Printable(items[0]) && SkipBlanks(s, i) == i + indent < |s| && IsNodeStart(s[i + indent])
    ensures HasAt(s, i + indent, Body(items[0], next))
  {
    hide Items; hide Body; hide HasAt; hide SkipBlanks; hide Printable; hide PrintableItems;
    ItemsUnfold(items, indent, next, sep);
    ThreeParts(s, i, Tabs(indent) + Body(items[0], next), if |items| > 1 then sep else "",
      Items(items[1..], indent, next, sep));
    IndentedStart(s, i, items[0], indent, next);
  }

  lemma RestOfItems(s: string, i: nat, items: seq<Node>, indent: nat, next: nat, sep: string, k: nat)
    requires ItemsAt(s, i, items, indent, next, sep, k)
    ensures var p := i + indent + |Body(items[0], next)|;
      && (|items| > 1 ==> Continues(s, p) && ItemsAt(s, p + 2, items[1..], indent, next, sep, k))
      && (|items| == 1 ==> ClosesAt(s, p, k, ']'))
  {
    hide Items; hide Body; hide HasAt; hide SkipBlanks; hide Printable; hide PrintableItems; hide Continues;
    ItemsUnfold(items, indent, next, sep);
    var head := Tabs(indent) + Body(items[0], next);
    ThreeParts(s, i, head, if |items| > 1 then sep else "", Items(items[1..], indent, next, sep));
    if |items| > 1 {
      SeparatorAt(s, i + |head|, sep);
    }
  }

  /** Neither a digit nor the body of a group follows an item or a member. */
  lemma NothingGoesOn(s: string, p: nat, k: nat, c: char, last: bool, n: Node)
    requires last ==> ClosesAt(s, p, k, c) && (c == ']' || c == '}')
    requires !last ==> Continues(s, p) && SkipBlanks(s, p + 2) < |s| && s[SkipBlanks(s, p + 2)] != '{'
    ensures EndsAt(s, p, n)
  {
    if !last {
      assert IsBlank(s[p + 1]);
      assert Span(s, p, IsGroupNext) == p + 1;
    }
  }

  /** An item that cannot be parsed ends the loop. */
  lemma ItemFails(leaf: LeafReader, s: string, i: nat, b: nat, acc: seq<Node>)
    requires Advances(leaf)
    requires i <= |s| && SkipBlanks(s, i) == b < |s| && s[b] != ']' && ParseNode(leaf, s, b) == None
    ensures ParseItems(leaf, s, i, acc) == None
  {
  }

  /** One item has been parsed: the loop goes on behind the separator, or ends. */
  lemma ItemParsed(leaf: LeafReader, s: string, i: nat, b: nat, p: nat, k: nat, item: Node, acc: seq<Node>, last: bool)
    requires Advances(leaf)
    requires i <= |s| && SkipBlanks(s, i) == b < |s| && s[b] != ']' && ParseNode(leaf, s, b) == Some((item, p))
    requires last ==> ClosesAt(s, p, k, ']')
    requires !last ==> Continues(s, p)
    ensures last ==> ParseItems(leaf, s, i, acc) == Some((List(acc + [item]), k + 1))
    ensures !last ==> p + 2 <= |s| && ParseItems(leaf, s, i, acc) == ParseItems(leaf, s, p + 2, acc + [item])
  {
    if last {
      ItemRound(leaf, s, i, b, p, k, item, acc);
      SkipIsIdempotent(s, p);
      ItemsEnd(leaf, s, k, k, acc + [item]);
    } else {
      ItemRound(leaf, s, i, b, p, p, item, acc);
      ItemsSkip(leaf, s, p + 1, p + 2, acc + [item]);
    }
  }

  lemma {:induction false} ParsePrintedItems(leaf: LeafReader, s: string, i: nat, items: seq<Node>, acc: seq<Node>,
                                             indent: nat, next: nat, sep: string, k: nat)
    requires Advances(leaf) && ReadsLeaves(leaf) && ItemsAt(s, i, items, indent, next, sep, k)
    ensures ParseItems(leaf, s, i, acc) ==
      if FiniteItems(items) then Some((List(acc + NarrowedItems(items)), k + 1)) else None
    decreases items, 1
  {
    hide Items; hide Body; hide HasAt; hide PrintableItems; hide Printable; hide SkipBlanks; hide ParseNode;
    hide ParseItems; hide NarrowedItems; hide Narrowed; hide Finite; hide EndsAt;
    NarrowedItemsUnfold(items);
    ItemsUnfold(items, indent, next, sep);
    var b := i + indent;
    var p := b + |Body(items[0], next)|;
    var item := Narrowed(items[0]);
    var rest := NarrowedItems(items[1..]);
    assert SkipBlanks(s, i) == b < |s| && s[b] != ']' && ParseNode(leaf, s, b) == Reread(items[0], p) by {
      FirstItem(s, i, items, indent, next, sep, k);
      RestOfItems(s, i, items, indent, next, sep, k);
      if |items| > 1 {
        FirstItem(s, p + 2, items[1..], indent, next, sep, k);
      }
      NothingGoesOn(s, p, k, ']', |items| == 1, items[0]);
      ParseBody(leaf, s, b, items[0], next);
    }
    if !Finite(items[0]) {
      ItemFails(leaf, s, i, b, acc);
    } else if |items| > 1 {
      assert Continues(s, p) &&
        ParseItems(leaf, s, p + 2, acc + [item]) ==
        (if FiniteItems(items[1..]) then Some((List(acc + [item] + rest), k + 1)) else None) by {
        RestOfItems(s, i, items, indent, next, sep, k);
        ParsePrintedItems(leaf, s, p + 2, items[1..], acc + [item], indent, next, sep, k);
      }
      ItemParsed(leaf, s, i, b, p, k, item, acc, false);
      assert acc + NarrowedItems(items) == acc + [item] + rest;
    } else {
      assert ClosesAt(s, p, k, ']') by {
        RestOfItems(s, i, items, indent, next, sep, k);
      }
      ItemParsed(leaf, s, i, b, p, k, item, acc, true);
      assert NarrowedItems(items) == [item];
    }
  }

  // ----- Members -----

  /** A member from its name on. */
  function MemberText(m: Member, next: nat): string
    requires Printable(m.def)
  {
    m.name + ": " + Body(m.def, next + 2)
  }

  lemma MembersUnfold(members: seq<Member>, next: nat)
    requires PrintableMembers(members) && members != []
    ensures Printable(members[0].def) && ValidMemberName(members[0].name) && PrintableMembers(members[1..])
    ensures Members(members, next) ==
      Tabs(next + 1) + MemberText(members[0], next) +
      ((if |members| > 1 then ",\n" else "\n") + Members(members[1..], next))
    ensures |members| == 1 ==> Members(members[1..], next) == ""
  {
    hide Tabs; hide Body; hide ValidMemberName; hide Printable;
    var m := members[0];
    assert Tabs(next + 1) + m.name + ": " + Body(m.def, next + 2) == Tabs(next + 1) + MemberText(m, next);
  }

  /** Where the parts of a member stand. */
  lemma MemberLayout(s: string, i: nat, m: Member, next: nat)
    requires ValidMemberName(m.name) && Printable(m.def) && HasAt(s, i, MemberText(m, next))
    ensures var j := i + |m.name|;
      && i < |s| && IsNodeStart(s[i]) && SkipBlanks(s, i) == i
      && ReadName(s, i, IsIdentStart, IsIdentNext) == Some(j) && s[i..j] == m.name
      && SkipBlanks(s, j) == j < |s| && s[j] == ':'
      && j + 2 <= |s| && SkipBlanks(s, j + 1) == SkipBlanks(s, j + 2) && HasAt(s, j + 2, Body(m.def, next + 2))
  {
    hide Body; hide Printable; hide HasAt; hide FixedPoint;
    var j := i + |m.name|;
    HasAtConcat(s, i, m.name + ": ", Body(m.def, next + 2));
    HasAtConcat(s, i, m.name, ": ");
    HasAtChars(s, i, m.name);
    HasAtChars(s, j, ": ");
    SkipNothing(s, i);
    ReadPrintedName(s, i, m.name, IsIdentStart, IsIdentNext);
    SkipNothing(s, j);
    SkipOne(s, j + 1);
  }

  lemma MemberRead(leaf: LeafReader, s: string, i: nat, j: nat, m: Member, e: nat)
    requires Advances(leaf)
    requires i < |s| && SkipBlanks(s, i) == i && ReadName(s, i, IsIdentStart, IsIdentNext) == Some(j)
    requires s[i..j] == m.name
    requires SkipBlanks(s, j) == j < |s| && s[j] == ':' && ParseNode(leaf, s, j + 1) == Some((m.def, e))
    ensures ParseMember(leaf, s, i) == Some((m, e))
  {
  }

  lemma ParsePrintedMember(leaf: LeafReader, s: string, i: nat, m: Member, next: nat)
    requires Advances(leaf)
    requires ValidMemberName(m.name) && Printable(m.def) && HasAt(s, i, MemberText(m, next))
    requires ParseNode(leaf, s, i + |m.name| + 2) == Some((Narrowed(m.def), i + |MemberText(m, next)|))
    ensures ParseMember(leaf, s, i) == Some((NarrowedMember(m), i + |MemberText(m, next)|))
    ensures i < |s| && IsNodeStart(s[i])
  {
    hide Body; hide HasAt; hide Printable; hide FixedPoint; hide ParseNode; hide Narrowed; hide ValidMemberName;
    var j := i + |m.name|;
    MemberLayout(s, i, m, next);
    ParseNodeAfterBlanks(leaf, s, j + 1, j + 2);
    MemberRead(leaf, s, i, j, NarrowedMember(m), i + |MemberText(m, next)|);
  }

  lemma MemberFails(leaf: LeafReader, s: string, i: nat, m: Member, next: nat)
    requires Advances(leaf)
    requires ValidMemberName(m.name) && Printable(m.def) && HasAt(s, i, MemberText(m, next))
    requires ParseNode(leaf, s, i + |m.name| + 2) == None
    ensures ParseMember(leaf, s, i) == None && i < |s| && IsNodeStart(s[i])
  {
    hide Body; hide HasAt; hide Printable; hide FixedPoint; hide ParseNode; hide ValidMemberName;
    MemberLayout(s, i, m, next);
    ParseNodeAfterBlanks(leaf, s, i + |m.name| + 1, i + |m.name| + 2);
  }

  lemma MembersFail(leaf: LeafReader, s: string, i: nat, b: nat, name: string, acc: seq<Member>)
    requires Advances(leaf)
    requires i <= |s| && SkipBlanks(s, i) == b < |s| && s[b] != '}' && ParseMember(leaf, s, b) == None
    ensures ParseMembers(leaf, s, i, name, acc) == None
  {
  }

  /** One round of the loop over group members. */
  lemma MemberRound(leaf: LeafReader, s: string, i: nat, b: nat, p: nat, e: nat, m: Member, name: string,
                    acc: seq<Member>)
    requires Advances(leaf)
    requires i <= |s| && SkipBlanks(s, i) == b < |s| && s[b] != '}'
    requires ParseMember(leaf, s, b) == Some((m, p)) && SkipBlanks(s, p) == e < |s| && (s[e] == ',' || s[e] == '}')
    ensures ParseMembers(leaf, s, i, name, acc) ==
      ParseMembers(leaf, s, if s[e] == ',' then e + 1 else e, name, acc + [m])
  {
  }

  lemma MembersEnd(leaf: LeafReader, s: string, i: nat, k: nat, name: string, acc: seq<Member>)
    requires Advances(leaf)
    requires ClosesAt(s, i, k, '}')
    ensures ParseMembers(leaf, s, i, name, acc) == Some((Group(name, acc), k + 1))
  {
  }

  lemma MembersSkip(leaf: LeafReader, s: string, i: nat, j: nat, name: string, acc: seq<Member>)
    requires Advances(leaf)
    requires i <= |s| && j <= |s| && SkipBlanks(s, i) == SkipBlanks(s, j)
    ensures ParseMembers(leaf, s, i, name, acc) == ParseMembers(leaf, s, j, name, acc)
  {
  }

  /** The members of a group stand at `i`, and the group closes at `k`. */
  ghost predicate MembersAt(s: string, i: nat, members: seq<Member>, next: nat, k: nat) {
    && PrintableMembers(members) && members != []
    && HasAt(s, i, Members(members, next)) && ClosesAt(s, i + |Members(members, next)|, k, '}')
  }

  lemma FirstMember(s: string, i: nat, members: seq<Member>, next: nat, k: nat)
    requires MembersAt(s, i, members, next, k)
    ensures var m := members[0]; var b := i + next + 1;
      Printable(m.def) && ValidMemberName(m.name) && SkipBlanks(s, i) == b < |s| && s[b] != '{' &&
      HasAt(s, b, MemberText(m, next))
  {
    hide Members; hide HasAt; hide MemberText; hide Printable; hide PrintableMembers; hide SkipBlanks;
    MembersUnfold(members, next);
    var text := MemberText(members[0], next);
    ThreeParts(s, i, Tabs(next + 1) + text, if |members| > 1 then ",\n" else "\n", Members(members[1..], next));
    HasAtConcat(s, i, Tabs(next + 1), text);
    MemberTextStart(members[0], next);
    HasAtChars(s, i + next + 1, text);
    SkipTabs(s, i, next + 1);
  }

  lemma MemberTextStart(m: Member, next: nat)
    requires Printable(m.def) && ValidMemberName(m.name)
    ensures MemberText(m, next) != "" && !IsBlank(MemberText(m, next)[0]) && MemberText(m, next)[0] != '{'
  {
  }

  lemma RestOfMembers(s: string, i: nat, members: seq<Member>, next: nat, k: nat)
    requires MembersAt(s, i, members, next, k) && |members| > 1
    ensures var p := i + next + 1 + |MemberText(members[0], next)|;
      Continues(s, p) && MembersAt(s, p + 2, members[1..], next, k)
  {
    hide Members; hide HasAt; hide MemberText; hide Printable; hide PrintableMembers; hide SkipBlanks; hide Continues;
    MembersUnfold(members, next);
    var head := Tabs(next + 1) + MemberText(members[0], next);
    ThreeParts(s, i, head, ",\n", Members(members[1..], next));
    SeparatorAt(s, i + |head|, ",\n");
  }

  lemma LastMember(s: string, i: nat, members: seq<Member>, next: nat, k: nat)
    requires MembersAt(s, i, members, next, k) && |members| == 1
    ensures ClosesAt(s, i + next + 1 + |MemberText(members[0], next)|, k, '}')
  {
    hide Members; hide HasAt; hide MemberText; hide Printable; hide PrintableMembers; hide SkipBlanks;
    MembersUnfold(members, next);
    var head := Tabs(next + 1) + MemberText(members[0], next);
    ThreeParts(s, i, head, "\n", "");
    HasAtChars(s, i + |head|, "\n");
    SkipOne(s, i + |head|);
  }

  lemma MemberParsed(leaf: LeafReader, s: string, i: nat, b: nat, p: nat, k: nat, m: Member, name: string,
                     acc: seq<Member>, last: bool)
    requires Advances(leaf)
    requires i <= |s| && SkipBlanks(s, i) == b < |s| && s[b] != '}' && ParseMember(leaf, s, b) == Some((m, p))
    requires last ==> ClosesAt(s, p, k, '}')
    requires !last ==> Continues(s, p)
    ensures last ==> ParseMembers(leaf, s, i, name, acc) == Some((Group(name, acc + [m]), k + 1))
    ensures !last ==>
      p + 2 <= |s| && ParseMembers(leaf, s, i, name, acc) == ParseMembers(leaf, s, p + 2, name, acc + [m])
  {
    if last {
      MemberRound(leaf, s, i, b, p, k, m, name, acc);
      SkipIsIdempotent(s, p);
      MembersEnd(leaf, s, k, k, name, acc + [m]);
    } else {
      MemberRound(leaf, s, i, b, p, p, m, name, acc);
      MembersSkip(leaf, s, p + 1, p + 2, name, acc + [m]);
    }
  }

  lemma ParseOneMember(leaf: LeafReader, s: string, b: nat, m: Member, next: nat)
    requires Advances(leaf) && ReadsLeaves(leaf)
    requires ValidMemberName(m.name) && Printable(m.def) && HasAt(s, b, MemberText(m, next))
    requires EndsAt(s, b + |MemberText(m, next)|, m.def)
    ensures b < |s| && s[b] != '}'
    ensures ParseMember(leaf, s, b) ==
      if Finite(m.def) then Some((NarrowedMember(m), b + |MemberText(m, next)|)) else None
    decreases m, 1
  {
    hide Body; hide HasAt; hide Finite; hide EndsAt; hide Printable; hide ParseNode; hide ParseMember; hide Narrowed;
    hide FixedPoint;
    MemberLayout(s, b, m, next);
    ParseBody(leaf, s, b + |m.name| + 2, m.def, next + 2);
    if Finite(m.def) {
      ParsePrintedMember(leaf, s, b, m, next);
    } else {
      MemberFails(leaf, s, b, m, next);
    }
  }

  lemma {:induction false} ParsePrintedMembers(leaf: LeafReader, s: string, i: nat, members: seq<Member>, name: string,
                                               acc: seq<Member>, next: nat, k: nat)
    requires Advances(leaf) && ReadsLeaves(leaf) && MembersAt(s, i, members, next, k)
    ensures ParseMembers(leaf, s, i, name, acc) ==
      if FiniteMembers(members) then Some((Group(name, acc + NarrowedMembers(members)), k + 1)) else None
    decreases members, 1
  {
    hide Finite; hide EndsAt;
    hide Members; hide Body; hide HasAt; hide MemberText; hide ParseNode; hide ParseMember; hide ParseMembers;
    hide NarrowedMembers; hide NarrowedMember; hide PrintableMembers; hide Printable; hide SkipBlanks;
    NarrowedMembersUnfold(members);
    MembersUnfold(members, next);
    var m := NarrowedMember(members[0]);
    var rest := NarrowedMembers(members[1..]);
    var b := i + next + 1;
    var p := b + |MemberText(members[0], next)|;
    assert SkipBlanks(s, i) == b < |s| && s[b] != '}' &&
      ParseMember(leaf, s, b) == (if Finite(members[0].def) then Some((m, p)) else None) by {
      FirstMember(s, i, members, next, k);
      if |members| == 1 {
        LastMember(s, i, members, next, k);
      } else {
        RestOfMembers(s, i, members, next, k);
        FirstMember(s, p + 2, members[1..], next, k);
      }
      NothingGoesOn(s, p, k, '}', |members| == 1, members[0].def);
      ParseOneMember(leaf, s, b, members[0], next);
    }
    if !Finite(members[0].def) {
      MembersFail(leaf, s, i, b, name, acc);
    } else if |members| > 1 {
      assert Continues(s, p) &&
        ParseMembers(leaf, s, p + 2, name, acc + [m]) ==
        (if FiniteMembers(members[1..]) then Some((Group(name, acc + [m] + rest), k + 1)) else None) by {
        RestOfMembers(s, i, members, next, k);
        ParsePrintedMembers(leaf, s, p + 2, members[1..], name, acc + [m], next, k);
      }
      MemberParsed(leaf, s, i, b, p, k, m, name, acc, false);
      assert acc + NarrowedMembers(members) == acc + [m] + rest;
    } else {
      assert ClosesAt(s, p, k, '}') by {
        LastMember(s, i, members, next, k);
      }
      MemberParsed(leaf, s, i, b, p, k, m, name, acc, true);
      assert NarrowedMembers(members) == [m];
    }
  }

  // ----- Groups and lists -----

  /** Where the parts of a group stand. */
  lemma GroupLayout(s: string, i: nat, name: string, text: string, next: nat)
    requires ValidGroupName(name) && HasAt(s, i, GroupText(name, text, next))
    ensures var j := i + |name|; var c := j + 3 + |text|;
      && i < |s| && IsIdentStart(s[i]) && SkipBlanks(s, i) == i
      && ReadName(s, i, IsIdentStart, IsGroupNext) == Some(j) && s[i..j] == name
      && SkipBlanks(s, j) == j + 1 < |s| && s[j + 1] == '{'
      && j + 3 <= |s| && SkipBlanks(s, j + 2) == SkipBlanks(s, j + 3) && HasAt(s, j + 3, text) &&
        ClosesAt(s, c, c + next, '}')
  {
    hide HasAt;
    var j := i + |name|;
    var c := j + 3 + |text|;
    HasAtConcat(s, i, name + " {\n" + text, Tabs(next) + "}");
    HasAtConcat(s, i, name + " {\n", text);
    HasAtConcat(s, i, name, " {\n");
    HasAtConcat(s, c, Tabs(next), "}");
    HasAtChars(s, i, name);
    HasAtChars(s, j, " {\n");
    HasAtChars(s, c + next, "}");
    SkipNothing(s, i);
    ReadPrintedName(s, i, name, IsIdentStart, IsGroupNext);
    SkipOne(s, j);
    SkipNothing(s, j + 1);
    SkipOne(s, j + 2);
    SkipTabs(s, c, next);
  }

  lemma GroupRead(leaf: LeafReader, s: string, i: nat, j: nat, name: string)
    requires Advances(leaf)
    requires i < |s| && IsIdentStart(s[i]) && SkipBlanks(s, i) == i
    requires ReadName(s, i, IsIdentStart, IsGroupNext) == Some(j) && s[i..j] == name
    requires SkipBlanks(s, j) == j + 1 < |s| && s[j + 1] == '{'
    ensures ParseNode(leaf, s, i) == ParseMembers(leaf, s, j + 2, name, [])
  {
    assert ParseGroup(leaf, s, i) == ParseMembers(leaf, s, j + 2, name, []);
  }

  /** A group is read once its members are. */
  lemma GroupParsed(leaf: LeafReader, s: string, i: nat, name: string, text: string, next: nat)
    requires Advances(leaf) && ValidGroupName(name) && HasAt(s, i, GroupText(name, text, next))
    ensures i + |name| + 3 <= |s| && ParseNode(leaf, s, i) == ParseMembers(leaf, s, i + |name| + 3, name, [])
  {
    hide Advances; hide ParseNode; hide ParseMembers; hide HasAt; hide SkipBlanks; hide ReadName;
    var j := i + |name|;
    GroupLayout(s, i, name, text, next);
    GroupRead(leaf, s, i, j, name);
    MembersSkip(leaf, s, j + 2, j + 3, name, []);
  }

  lemma NoMembers(next: nat)
    ensures Members([], next) == "" && NarrowedMembers([]) == [] && FiniteMembers([])
  {
  }

  lemma ParseGroupBody(leaf: LeafReader, s: string, i: nat, name: string, members: seq<Member>, next: nat)
    requires Advances(leaf) && ReadsLeaves(leaf)
    requires ValidGroupName(name) && PrintableMembers(members)
    requires HasAt(s, i, GroupText(name, Members(members, next), next))
    ensures ParseNode(leaf, s, i) == Reread(Group(name, members), i + |GroupText(name, Members(members, next), next)|)
    decreases members, 2
  {
    hide Members; hide GroupText; hide HasAt; hide ParseNode; hide ParseMembers; hide SkipBlanks; hide ClosesAt;
    hide Advances; hide ReadsLeaves; hide ValidGroupName; hide FiniteMembers;
    NoMembers(next);
    var text := Members(members, next);
    var j := i + |name| + 3;
    var c := j + |text|;
    GroupLayout(s, i, name, text, next);
    if members == [] {
      MembersEnd(leaf, s, j, c + next, name, []);
    } else {
      ParsePrintedMembers(leaf, s, j, members, name, [], next, c + next);
      assert [] + NarrowedMembers(members) == NarrowedMembers(members);
    }
    GroupParsed(leaf, s, i, name, text, next);
  }

  lemma ListRead(leaf: LeafReader, s: string, i: nat)
    requires Advances(leaf)
    requires i < |s| && s[i] == '['
    ensures ParseNode(leaf, s, i) == ParseItems(leaf, s, i + 1, [])
  {
    SkipNothing(s, i);
  }

  /** Where the items of a list stand that is spread over several lines. */
  lemma WideListLayout(s: string, i: nat, text: string, next: nat)
    requires HasAt(s, i, WideText(text, next))
    ensures var c := i + 2 + |text|;
      i + 2 <= |s| && s[i] == '[' && SkipBlanks(s, i + 1) == SkipBlanks(s, i + 2) && HasAt(s, i + 2, text) &&
        ClosesAt(s, c, c + 1 + next, ']')
  {
    var c := i + 2 + |text|;
    HasAtConcat(s, i, "[\n" + text, "\n" + Tabs(next) + "]");
    HasAtConcat(s, i, "[\n", text);
    HasAtConcat(s, c, "\n" + Tabs(next), "]");
    HasAtConcat(s, c, "\n", Tabs(next));
    HasAtChars(s, i, "[\n");
    HasAtChars(s, c, "\n");
    HasAtChars(s, c + 1 + next, "]");
    SkipOne(s, i + 1);
    SkipOne(s, c);
    SkipTabs(s, c + 1, next);
  }

  lemma FlatListLayout(s: string, i: nat, text: string)
    requires HasAt(s, i, FlatText(text))
    ensures var c := i + 1 + |text|;
      i < |s| && s[i] == '[' && HasAt(s, i + 1, text) && ClosesAt(s, c, c, ']')
  {
    var c := i + 1 + |text|;
    HasAtConcat(s, i, "[" + text, "]");
    HasAtConcat(s, i, "[", text);
    HasAtChars(s, i, "[");
    HasAtChars(s, c, "]");
    SkipNothing(s, c);
  }

  lemma ParseWideList(leaf: LeafReader, s: string, i: nat, items: seq<Node>, next: nat)
    requires Advances(leaf) && ReadsLeaves(leaf) && PrintableItems(items) && items != []
    requires HasAt(s, i, WideText(Items(items, next, next + 1, ",\n"), next))
    ensures ParseNode(leaf, s, i) ==
      Reread(List(items), i + |WideText(Items(items, next, next + 1, ",\n"), next)|)
    decreases items, 2
  {
    hide Items; hide WideText; hide HasAt; hide ParseNode; hide ParseItems; hide SkipBlanks; hide ClosesAt;
    hide NarrowedItems; hide PrintableItems; hide Advances; hide ReadsLeaves;
    var text := Items(items, next, next + 1, ",\n");
    WideListLayout(s, i, text, next);
    ListRead(leaf, s, i);
    ItemsSkip(leaf, s, i + 1, i + 2, []);
    ParsePrintedItems(leaf, s, i + 2, items, [], next, next + 1, ",\n", i + 2 + |text| + 1 + next);
    assert [] + NarrowedItems(items) == NarrowedItems(items);
  }

  lemma ParseFlatList(leaf: LeafReader, s: string, i: nat, items: seq<Node>, next: nat)
    requires Advances(leaf) && ReadsLeaves(leaf) && PrintableItems(items) && items != []
    requires HasAt(s, i, FlatText(Items(items, 0, next + 1, ", ")))
    ensures ParseNode(leaf, s, i) == Reread(List(items), i + |FlatText(Items(items, 0, next + 1, ", "))|)
    decreases items, 2
  {
    hide Items; hide FlatText; hide HasAt; hide ParseNode; hide ParseItems; hide SkipBlanks; hide ClosesAt;
    hide NarrowedItems; hide PrintableItems; hide Advances; hide ReadsLeaves;
    var text := Items(items, 0, next + 1, ", ");
    FlatListLayout(s, i, text);
    ListRead(leaf, s, i);
    ParsePrintedItems(leaf, s, i + 1, items, [], 0, next + 1, ", ", i + 1 + |text|);
    assert [] + NarrowedItems(items) == NarrowedItems(items);
  }

  lemma ParseEmptyList(leaf: LeafReader, s: string, i: nat)
    requires Advances(leaf) && HasAt(s, i, "[]")
    ensures ParseNode(leaf, s, i) == Some((List([]), i + 2))
  {
    assert FlatText("") == "[]";
    FlatListLayout(s, i, "");
    ListRead(leaf, s, i);
    ItemsEnd(leaf, s, i + 1, i + 1, []);
  }

  lemma {:induction false} ParseBody(leaf: LeafReader, s: string, i: nat, n: Node, next: nat)
    requires Advances(leaf) && ReadsLeaves(leaf)
    requires Printable(n) && HasAt(s, i, Body(n, next)) && EndsAt(s, i + |Body(n, next)|, n)
    ensures ParseNode(leaf, s, i) == Reread(n, i + |Body(n, next)|)
    decreases n, 0
  {
    hide HasAt; hide Advances; hide ReadsLeaves; hide ParseNode;
    match n
    case Group(name, members) => ParseGroupBody(leaf, s, i, name, members, next);
    case List(items) =>
      if items == [] {
        ParseEmptyList(leaf, s, i);
      } else if HasComposite(items) {
        ParseWideList(leaf, s, i, items, next);
      } else {
        ParseFlatList(leaf, s, i, items, next);
      }
    case Double(t) =>
      if NotFinite(t) {
        WordIsNotRead(leaf, s, i, t);
      } else {
        ParseLeaf(leaf, s, i, n);
      }
    case _ => ParseLeaf(leaf, s, i, n);
  }

  /** Wherever a printed tree stands in a text, with whatever indentation and whatever
      follows, unless it is a single double that goes on, parsing there gives the tree with
      its strings narrowed and stops exactly after it, or fails if some double of the tree is
      not finite. */
  lemma ParsePrinted(s: string, i: nat, n: Node, indent: nat, next: nat)
    requires Printable(n) && HasAt(s, i, Print(n, indent, next)) && EndsAt(s, i + |Print(n, indent, next)|, n)
    ensures Parse(s, i) == Reread(n, i + |Print(n, indent, next)|)
  {
    hide HasAt;
    ReadLeafReadsLeaves();
    IndentedStart(s, i, n, indent, next);
    ParseBody(ReadLeaf, s, i + indent, n, next);
    SkipNothing(s, i + indent);
    ParseNodeAfterBlanks(ReadLeaf, s, i, i + indent);
  }

  lemma {:induction false} MembersMakeGroups(leaf: LeafReader, s: string, i: nat, name: string, acc: seq<Member>)
    requires Advances(leaf) && i <= |s|
    ensures ParseMembers(leaf, s, i, name, acc).Some? ==> ParseMembers(leaf, s, i, name, acc).value.0.Group?
    decreases |s| - i
  {
    hide ParseMember;
    var b := SkipBlanks(s, i);
    if b < |s| && s[b] != '}' && ParseMember(leaf, s, b).Some? {
      var m := ParseMember(leaf, s, b).value;
      var e := SkipBlanks(s, m.1);
      if e < |s| && (s[e] == ',' || s[e] == '}') {
        MembersMakeGroups(leaf, s, if s[e] == ',' then e + 1 else e, name, acc + [m.0]);
      }
    }
  }

  /** A word that is followed by a body is read as a group, not as a double. */
  lemma WordIsNoDouble(s: string, i: nat, t: string)
    requires NotFinite(t) && t[0] != '-' && HasAt(s, i, t)
    ensures Parse(s, i).Some? ==> Parse(s, i).value.0.Group?
  {
    hide ReadLeaf; hide ParseMembers;
    HasAtChars(s, i, t);
    assert s[i] == t[0] && IsIdentStart(s[i]);
    SkipNothing(s, i);
    var j := Span(s, i + 1, IsGroupNext);
    var o := SkipBlanks(s, j);
    assert ReadName(s, i, IsIdentStart, IsGroupNext) == Some(j);
    assert Parse(s, i) == ParseGroup(ReadLeaf, s, i);
    if o < |s| && s[o] == '{' {
      MembersMakeGroups(ReadLeaf, s, o + 1, s[i..j], []);
      assert ParseGroup(ReadLeaf, s, i) == ParseMembers(ReadLeaf, s, o + 1, s[i..j], []);
    }
  }

  /** If a double goes on, something else is read. */
  lemma ParseRunOn(s: string, i: nat, t: string, indent: nat, next: nat)
    requires Printable(Double(t)) && HasAt(s, i, Print(Double(t), indent, next))
    requires !EndsAt(s, i + |Print(Double(t), indent, next)|, Double(t))
    ensures Parse(s, i) != Some((Double(t), i + |Print(Double(t), indent, next)|))
  {
    hide ReadLeaf; hide HasAt; hide NoBodyFollows;
    var b := i + indent;
    IndentedStart(s, i, Double(t), indent, next);
    assert Body(Double(t), next) == t;
    SkipNothing(s, b);
    if NotFinite(t) {
      WordIsNoDouble(s, b, t);
    } else {
      ReadFixedPoint(s, b, t);
      ParsePrintedDouble(s, b, t);
      LeafRead(ReadLeaf, s, b);
    }
    ParseNodeAfterBlanks(ReadLeaf, s, i, b);
  }

  /** Parsing a printed tree gives the same tree and stops after it if and only if all its
      doubles are finite, no string holds a character from 128 to 254, and it is no single
      double that goes on. */
  lemma ParsePrintedIff(s: string, i: nat, n: Node, indent: nat, next: nat)
    requires Printable(n) && HasAt(s, i, Print(n, indent, next))
    ensures Parse(s, i) == Some((n, i + |Print(n, indent, next)|)) <==>
      Finite(n) && Survives(n) && EndsAt(s, i + |Print(n, indent, next)|, n)
  {
    NarrowedIff(n);
    if EndsAt(s, i + |Print(n, indent, next)|, n) {
      ParsePrinted(s, i, n, indent, next);
    } else {
      ParseRunOn(s, i, n.text, indent, next);
    }
  }

  lemma ParsePrintedBefore(n: Node, indent: nat, next: nat, rest: string)
    requires Printable(n)
    ensures var t := Print(n, indent, next);
      && (EndsAt(t + rest, |t|, n) ==> Parse(t + rest, 0) == Reread(n, |t|))
      && (Parse(t + rest, 0) == Some((n, |t|)) <==> Finite(n) && Survives(n) && EndsAt(t + rest, |t|, n))
  {
    hide Print; hide Parse; hide EndsAt; hide Finite; hide Survives; hide Narrowed; hide Printable;
    var t := Print(n, indent, next);
    assert HasAt(t + rest, 0, t);
    ParsePrintedIff(t + rest, 0, n, indent, next);
    if EndsAt(t + rest, |t|, n) {
      ParsePrinted(t + rest, 0, n, indent, next);
    }
  }

  // ----- Which trees print alike -----

  lemma {:induction false} NarrowedIff(n: Node)
    ensures Narrowed(n) == n <==> Survives(n)
    decreases n, 0
  {
    match n
    case Group(_, members) => NarrowedMembersIff(members);
    case List(items) => NarrowedItemsIff(items);
    case Str(v) => NarrowAllIff(v);
    case _ =>
  }

  lemma {:induction false} NarrowedItemsIff(items: seq<Node>)
    ensures NarrowedItems(items) == items <==> SurviveAll(items)
    decreases items, 1
  {
    if items != [] {
      NarrowedIff(items[0]);
      NarrowedItemsIff(items[1..]);
      assert items == [items[0]] + items[1..];
      assert NarrowedItems(items)[0] == Narrowed(items[0]) && NarrowedItems(items)[1..] == NarrowedItems(items[1..]);
    }
  }

  lemma {:induction false} NarrowedMembersIff(members: seq<Member>)
    ensures NarrowedMembers(members) == members <==> SurviveMembers(members)
    decreases members, 1
  {
    if members != [] {
      NarrowedIff(members[0].def);
      NarrowedMembersIff(members[1..]);
      assert members == [members[0]] + members[1..];
      assert NarrowedMembers(members)[0] == NarrowedMember(members[0]);
      assert NarrowedMembers(members)[1..] == NarrowedMembers(members[1..]);
    }
  }

  /** A tree and what parsing makes of it print alike. */
  lemma {:induction false} BodyOfNarrowed(n: Node, next: nat)
    requires Printable(n)
    ensures Printable(Narrowed(n)) && Body(Narrowed(n), next) == Body(n, next)
    ensures Survives(Narrowed(n)) && IsComposite(Narrowed(n)) == IsComposite(n) && Finite(Narrowed(n)) == Finite(n)
    decreases n, 0
  {
    match n
    case Group(_, members) => MembersOfNarrowed(members, next);
    case List(items) =>
      ItemsOfNarrowed(items, next, next + 1, ",\n");
      ItemsOfNarrowed(items, 0, next + 1, ", ");
    case Str(v) =>
      EscapeNarrowed(v);
      NarrowAllIff(v);
    case _ =>
  }

  lemma {:induction false} ItemsOfNarrowed(items: seq<Node>, indent: nat, next: nat, sep: string)
    requires PrintableItems(items)
    ensures PrintableItems(NarrowedItems(items)) && SurviveAll(NarrowedItems(items))
    ensures Items(NarrowedItems(items), indent, next, sep) == Items(items, indent, next, sep)
    ensures HasComposite(NarrowedItems(items)) == HasComposite(items)
    ensures FiniteItems(NarrowedItems(items)) == FiniteItems(items)
    decreases items, 1
  {
    if items != [] {
      BodyOfNarrowed(items[0], next);
      ItemsOfNarrowed(items[1..], indent, next, sep);
      assert NarrowedItems(items)[1..] == NarrowedItems(items[1..]);
      CompositeStep(items);
      CompositeStep(NarrowedItems(items));
    }
  }

  lemma CompositeStep(items: seq<Node>)
    requires items != []
    ensures HasComposite(items) <==> IsComposite(items[0]) || HasComposite(items[1..])
  {
    if HasComposite(items) {
      var i :| 0 <= i < |items| && IsComposite(items[i]);
      assert i > 0 ==> items[1..][i - 1] == items[i];
    }
    if HasComposite(items[1..]) {
      var i :| 0 <= i < |items[1..]| && IsComposite(items[1..][i]);
      assert items[i + 1] == items[1..][i];
    }
  }

  lemma {:induction false} MembersOfNarrowed(members: seq<Member>, next: nat)
    requires PrintableMembers(members)
    ensures PrintableMembers(NarrowedMembers(members)) && SurviveMembers(NarrowedMembers(members))
    ensures Members(NarrowedMembers(members), next) == Members(members, next)
    ensures FiniteMembers(NarrowedMembers(members)) == FiniteMembers(members)
    decreases members, 1
  {
    if members != [] {
      BodyOfNarrowed(members[0].def, next + 2);
      MembersOfNarrowed(members[1..], next);
      assert NarrowedMembers(members)[1..] == NarrowedMembers(members[1..]);
    }
  }

  /** Wherever a printed tree stands that holds an infinity or what is no number, as deep as it
      may be, parsing fails, unless the tree is a single such word and a body follows it. */
  lemma InfinityIsNotRead(s: string, i: nat, n: Node, indent: nat, next: nat)
    requires Printable(n) && HasAt(s, i, Print(n, indent, next)) && EndsAt(s, i + |Print(n, indent, next)|, n)
    ensures Parse(s, i) == None <==> !Finite(n)
  {
    ParsePrinted(s, i, n, indent, next);
  }

  /** Different trees never print to the same text, except for characters from 128 on. */
  lemma PrintIsInjective(a: Node, b: Node, indent: nat, next: nat, indent': nat, next': nat)
    requires Printable(a) && Printable(b) && Print(a, indent, next) == Print(b, indent', next')
    requires Finite(a) || Finite(b)
    ensures Narrowed(a) == Narrowed(b)
  {
    var s := Print(a, indent, next);
    assert s[0..0 + |s|] == s;
    ParsePrinted(s, 0, a, indent, next);
    ParsePrinted(s, 0, b, indent', next');
  }

  /** Two trees print to the same text if and only if they differ in such characters only. */
  lemma PrintAlikeIff(a: Node, b: Node, indent: nat, next: nat)
    requires Printable(a) && Printable(b) && (Finite(a) || Finite(b))
    ensures Print(a, indent, next) == Print(b, indent, next) <==> Narrowed(a) == Narrowed(b)
  {
    BodyOfNarrowed(a, next);
    BodyOfNarrowed(b, next);
    if Print(a, indent, next) == Print(b, indent, next) {
      PrintIsInjective(a, b, indent, next, indent, next);
    }
  }
}
