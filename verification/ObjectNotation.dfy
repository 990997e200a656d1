/** The object notation: its trees, how they are printed, how text is parsed, and
    why parsing undoes printing. */
module ObjectNotation {
  import opened Wrappers
  import opened Escaping
  import opened Numbers
  import opened Lexing

  datatype Node =
    | Group(name: string, members: seq<Member>)
    | List(items: seq<Node>)
    | Str(value: string)
    | Int64(ivalue: int)
    | UInt64(uvalue: nat)
    | Double(text: string)

  datatype Member = Member(name: string, def: Node)

  // ----- Printing -----

  function Tabs(n: nat): (r: string)
    ensures |r| == n && forall i :: 0 <= i < n ==> r[i] == '\t'
  {
    if n == 0 then "" else "\t" + Tabs(n - 1)
  }

  /** What %f writes for infinities and for what is no number. */
  predicate NotFinite(t: string) {
    t == "inf" || t == "-inf" || t == "nan" || t == "-nan"
  }

  predicate IsComposite(n: Node) {
    n.Group? || n.List?
  }

  predicate HasComposite(items: seq<Node>) {
    exists i :: 0 <= i < |items| && IsComposite(items[i])
  }

  /** What can be saved: strings are C strings of any bytes, integers fit into 64 bits, and
      names are names. A double stands for what %f writes for it. */
  ghost predicate Printable(n: Node) {
    match n
    case Group(name, members) => ValidGroupName(name) && PrintableMembers(members)
    case List(items) => PrintableItems(items)
    case Str(v) => Bytes(v)
    case Int64(v) => I64_MIN <= v <= I64_MAX
    case UInt64(v) => v <= U64_MAX
    case Double(t) => (FixedPoint(t) && !ConvertsToInfinity(t)) || NotFinite(t)
  }

  ghost predicate PrintableItems(items: seq<Node>) {
    items == [] || (Printable(items[0]) && PrintableItems(items[1..]))
  }

  ghost predicate PrintableMembers(members: seq<Member>) {
    members == [] ||
    (ValidMemberName(members[0].name) && Printable(members[0].def) && PrintableMembers(members[1..]))
  }

  predicate ValidName(name: string, first: char -> bool, next: char -> bool) {
    name != "" && first(name[0]) && forall i :: 1 <= i < |name| ==> next(name[i])
  }

  predicate ValidGroupName(name: string) {
    ValidName(name, IsIdentStart, IsGroupNext)
  }

  predicate ValidMemberName(name: string) {
    ValidName(name, IsIdentStart, IsIdentNext)
  }

  function GroupText(name: string, members: string, next: nat): (r: string)
    ensures |r| == |name| + |members| + next + 4
  {
    name + " {\n" + members + (Tabs(next) + "}")
  }

  function WideText(items: string, next: nat): (r: string)
    ensures |r| == |items| + next + 4
  {
    "[\n" + items + ("\n" + Tabs(next) + "]")
  }

  function FlatText(items: string): (r: string)
    ensures |r| == |items| + 2
  {
    "[" + items + "]"
  }

  /** A node without the indentation before its first character; lines after the
      first are indented by `next` tabs or more. */
  function Body(n: Node, next: nat): string
    requires Printable(n)
    decreases n, 0
  {
    match n
    case Group(name, members) => GroupText(name, Members(members, next), next)
    case List(items) =>
      if items == [] then "[]"
      else if HasComposite(items) then WideText(Items(items, next, next + 1, ",\n"), next)
      else FlatText(Items(items, 0, next + 1, ", "))
    case Str(v) => Quoted(v)
    case Int64(v) => SignedDigits(v) + "i64"
    case UInt64(v) => Digits(v) + "u64"
    case Double(t) => t
  }

  function Items(items: seq<Node>, indent: nat, next: nat, sep: string): string
    requires PrintableItems(items)
    decreases items, 1
  {
    if items == [] then "" else
    Tabs(indent) + Body(items[0], next) +
    ((if |items| > 1 then sep else "") + Items(items[1..], indent, next, sep))
  }

  function Members(members: seq<Member>, next: nat): string
    requires PrintableMembers(members)
    decreases members, 1
  {
    if members == [] then "" else
    Tabs(next + 1) + members[0].name + ": " + Body(members[0].def, next + 2) +
    ((if |members| > 1 then ",\n" else "\n") + Members(members[1..], next))
  }

  /** am_object_notation_save_fp_indent. */
  function Print(n: Node, indent: nat, next: nat): string
    requires Printable(n)
  {
    Tabs(indent) + Body(n, next)
  }

  // ----- Parsing -----

  /** What C functions see of a buffer: the characters before the first zero byte. */
  function CStr(s: string): string {
    if s == "" || s[0] as int == 0 then "" else [s[0]] + CStr(s[1..])
  }

  /** The value of a string literal with the given text between its quotes. */
  function StringValue(body: string): Option<string> {
    match Unescape(CStr(body))
    case None => None
    case Some(v) => Some(CStr(v))
  }

  type Parsed<T> = Option<(T, nat)>

  function ParseString(s: string, i: nat): (r: Parsed<Node>)
    requires i <= |s|
    ensures r.Some? ==> i < r.value.1 <= |s|
  {
    match ReadString(s, SkipBlanks(s, i))
    case None => None
    case Some(j) =>
      match StringValue(s[SkipBlanks(s, i) + 1..j - 1])
      case None => None
      case Some(v) => Some((Str(v), j))
  }

  function ParseInt64(s: string, i: nat): (r: Parsed<Node>)
    requires i <= |s|
    ensures r.Some? ==> i < r.value.1 <= |s|
  {
    var b := SkipBlanks(s, i);
    match ReadInt64(s, b)
    case None => None
    case Some(j) =>
      match SignedOf(s[b..j - 3])
      case None => None
      case Some(v) => Some((Int64(v), j))
  }

  function ParseUint64(s: string, i: nat): (r: Parsed<Node>)
    requires i <= |s|
    ensures r.Some? ==> i < r.value.1 <= |s|
  {
    var b := SkipBlanks(s, i);
    match ReadUint64(s, b)
    case None => None
    case Some(j) =>
      match UnsignedOf(s[b..j - 3])
      case None => None
      case Some(v) => Some((UInt64(v), j))
  }

  /** The text is kept in place of the number that strtod makes of it; it fails if that is
      infinite. */
  function ParseDouble(s: string, i: nat): (r: Parsed<Node>)
    requires i <= |s|
    ensures r.Some? ==> i < r.value.1 <= |s|
  {
    var b := SkipBlanks(s, i);
    match ReadDouble(s, b)
    case None => None
    case Some(j) => if ConvertsToInfinity(s[b..j]) then None else Some((Double(s[b..j]), j))
  }

  /** What am_object_notation_parse_node does with a node that is neither a list nor a
      group; `i` is the position of its first character. */
  function ReadLeaf(s: string, i: nat): (r: Parsed<Node>)
    ensures r.Some? ==> i < r.value.1 <= |s|
  {
    if i >= |s| then None
    else if s[i] == '\"' then ParseString(s, i)
    else if s[i] == '.' then ParseDouble(s, i)
    else if IsDigit(s[i]) || s[i] == '-' then
      if ReadDouble(s, i).Some? then ParseDouble(s, i)
      else if ReadInt64(s, i).Some? then ParseInt64(s, i)
      else ParseUint64(s, i)
    else None
  }

  /** How leaves are read, kept apart from how nodes are composed. */
  type LeafReader = (string, nat) -> Parsed<Node>

  ghost predicate Advances(leaf: LeafReader) {
    forall s: string, i: nat :: leaf(s, i).Some? ==> i < leaf(s, i).value.1 <= |s|
  }

  /** am_object_notation_parse_node. */
  function ParseNode(leaf: LeafReader, s: string, i: nat): (r: Parsed<Node>)
    requires i <= |s| && Advances(leaf)
    ensures r.Some? ==> i < r.value.1 <= |s|
    decreases |s| - i, 3
  {
    var b := SkipBlanks(s, i);
    if b == |s| then None
    else if s[b] == '[' then ParseItems(leaf, s, b + 1, [])
    else if IsIdentStart(s[b]) then ParseGroup(leaf, s, b)
    else leaf(s, b)
  }

  /** The loop of am_object_notation_parse_list after the opening bracket. */
  function ParseItems(leaf: LeafReader, s: string, i: nat, items: seq<Node>): (r: Parsed<Node>)
    requires i <= |s| && Advances(leaf)
    ensures r.Some? ==> i < r.value.1 <= |s|
    decreases |s| - i, 4
  {
    var b := SkipBlanks(s, i);
    if b == |s| then None
    else if s[b] == ']' then Some((List(items), b + 1))
    else match ParseNode(leaf, s, b)
      case None => None
      case Some(item) =>
        var e := SkipBlanks(s, item.1);
        if e == |s| || (s[e] != ',' && s[e] != ']') then None
        else ParseItems(leaf, s, if s[e] == ',' then e + 1 else e, items + [item.0])
  }

  /** am_object_notation_parse_group. */
  function ParseGroup(leaf: LeafReader, s: string, i: nat): (r: Parsed<Node>)
    requires i <= |s| && Advances(leaf)
    ensures r.Some? ==> i < r.value.1 <= |s|
    decreases |s| - i, 2
  {
    var b := SkipBlanks(s, i);
    match ReadName(s, b, IsIdentStart, IsGroupNext)
    case None => None
    case Some(j) =>
      var o := SkipBlanks(s, j);
      if o == |s| || s[o] != '{' then None else ParseMembers(leaf, s, o + 1, s[b..j], [])
  }

  /** The loop of am_object_notation_parse_group_body after the opening brace. */
  function ParseMembers(leaf: LeafReader, s: string, i: nat, name: string, members: seq<Member>): (r: Parsed<Node>)
    requires i <= |s| && Advances(leaf)
    ensures r.Some? ==> i < r.value.1 <= |s|
    decreases |s| - i, 4
  {
    var b := SkipBlanks(s, i);
    if b == |s| then None
    else if s[b] == '}' then Some((Group(name, members), b + 1))
    else match ParseMember(leaf, s, b)
      case None => None
      case Some(m) =>
        var e := SkipBlanks(s, m.1);
        if e == |s| || (s[e] != ',' && s[e] != '}') then None
        else ParseMembers(leaf, s, if s[e] == ',' then e + 1 else e, name, members + [m.0])
  }

  /** am_object_notation_parse_member. */
  function ParseMember(leaf: LeafReader, s: string, i: nat): (r: Parsed<Member>)
    requires i <= |s| && Advances(leaf)
    ensures r.Some? ==> i < r.value.1 <= |s|
    decreases |s| - i, 3
  {
    var b := SkipBlanks(s, i);
    match ReadName(s, b, IsIdentStart, IsIdentNext)
    case None => None
    case Some(j) =>
      var o := SkipBlanks(s, j);
      if o == |s| || s[o] != ':' then None
      else match ParseNode(leaf, s, o + 1)
        case None => None
        case Some(def) => Some((Member(s[b..j], def.0), def.1))
  }

  /** Parsing of a node as the program does it. */
  function Parse(s: string, i: nat): (r: Parsed<Node>)
    requires i <= |s|
    ensures r.Some? ==> i < r.value.1 <= |s|
  {
    ParseNode(ReadLeaf, s, i)
  }
}
