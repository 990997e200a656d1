/** The layout of printed trees, described line by line. */
module NotationLayout {
  import opened Escaping
  import opened Numbers
  import opened Lexing
  import opened ObjectNotation
  import opened NotationRoundTrip

  /** A line: how deep it is indented, and its text. */
  datatype Line = Line(depth: nat, text: string)

  /** The lines, each indented by tabs, separated by line feeds. */
  function Render(lines: seq<Line>, next: nat): string
    decreases |lines|, 0
  {
    if lines == [] then ""
    else Tabs(next + lines[0].depth) + lines[0].text + Continued(lines[1..], next)
  }

  function Continued(lines: seq<Line>, next: nat): string
    decreases |lines|, 1
  {
    if lines == [] then "" else "\n" + Render(lines, next)
  }

  function Deeper(lines: seq<Line>, k: nat): (r: seq<Line>)
    ensures |r| == |lines|
  {
    seq(|lines|, i requires 0 <= i < |lines| => Line(lines[i].depth + k, lines[i].text))
  }

  /** The lines with a comma behind the last one. */
  function WithComma(lines: seq<Line>): (r: seq<Line>)
    requires lines != []
    ensures |r| == |lines|
  {
    var l := lines[|lines| - 1];
    lines[|lines| - 1 := Line(l.depth, l.text + ",")]
  }

  /** Leaves stand on one line. A list without composite items stands on one line, with a comma
      and a space between its items; otherwise each item begins on a line of its own, as deep as
      the list, and what follows of it is one tab deeper. The members of a group begin on lines
      of their own, one tab deeper, with the name, a colon and a space; what follows of them is
      two tabs deeper. */
  function Lines(n: Node): (r: seq<Line>)
    requires Printable(n)
    ensures r != []
    decreases n, 0
  {
    match n
    case Group(name, members) => [Line(0, name + " {")] + MemberLines(members) + [Line(0, "}")]
    case List(items) =>
      if HasComposite(items) then [Line(0, "[")] + ItemLines(items) + [Line(0, "]")]
      else [Line(0, "[" + LeavesInLine(items) + "]")]
    case _ => [Line(0, LeafText(n))]
  }

  function ItemLines(items: seq<Node>): seq<Line>
    requires PrintableItems(items)
    decreases items, 1
  {
    if items == [] then []
    else
      var lines := Lines(items[0]);
      var placed := [lines[0]] + Deeper(lines[1..], 1);
      if |items| == 1 then placed else WithComma(placed) + ItemLines(items[1..])
  }

  function MemberLines(members: seq<Member>): seq<Line>
    requires PrintableMembers(members)
    decreases members, 1
  {
    if members == [] then []
    else
      var lines := Lines(members[0].def);
      var labelled := [Line(1, members[0].name + ": " + lines[0].text)] + Deeper(lines[1..], 2);
      if |members| == 1 then labelled else WithComma(labelled) + MemberLines(members[1..])
  }

  function LeavesInLine(items: seq<Node>): string {
    if items == [] then ""
    else if |items| == 1 then LeafText(items[0])
    else LeafText(items[0]) + ", " + LeavesInLine(items[1..])
  }

  // ----- Rendering -----

  lemma {:induction false} RenderConcat(a: seq<Line>, b: seq<Line>, next: nat)
    requires a != []
    ensures Render(a + b, next) == Render(a, next) + Continued(b, next)
    decreases |a|
  {
    assert (a + b)[1..] == a[1..] + b;
    if |a| > 1 {
      RenderConcat(a[1..], b, next);
    }
  }

  lemma {:induction false} RenderDeeper(lines: seq<Line>, k: nat, next: nat)
    ensures Render(Deeper(lines, k), next) == Render(lines, next + k)
    ensures Continued(Deeper(lines, k), next) == Continued(lines, next + k)
    decreases |lines|
  {
    if lines != [] {
      RenderDeeper(lines[1..], k, next);
      assert Deeper(lines, k)[1..] == Deeper(lines[1..], k);
    }
  }

  lemma {:induction false} RenderWithComma(lines: seq<Line>, next: nat)
    requires lines != []
    ensures Render(WithComma(lines), next) == Render(lines, next) + ","
    decreases |lines|
  {
    if |lines| > 1 {
      RenderWithComma(lines[1..], next);
      assert WithComma(lines)[1..] == WithComma(lines[1..]);
    }
  }

  /** The first line without its indentation, and the rest. */
  function Unindented(lines: seq<Line>, next: nat): string
    requires lines != []
  {
    lines[0].text + Continued(lines[1..], next)
  }

  // ----- What is printed -----

  lemma {:induction false} BodyLines(n: Node, next: nat)
    requires Printable(n)
    ensures Body(n, next) == Unindented(Lines(n), next) && Lines(n)[0].depth == 0
    decreases n, 0
  {
    match n
    case Group(name, members) =>
      GroupLines(name, members, next);
    case List(items) =>
      if HasComposite(items) {
        WideLines(items, next);
      } else {
        FlatLine(items, next);
      }
    case _ =>
  }

  lemma {:induction false} GroupLines(name: string, members: seq<Member>, next: nat)
    requires Printable(Group(name, members))
    ensures Body(Group(name, members), next) == Unindented(Lines(Group(name, members)), next)
    decreases members, 2
  {
    var lines, close := MemberLines(members), [Line(0, "}")];
    assert Lines(Group(name, members))[1..] == lines + close;
    LastLine("}", next);
    if members == [] {
      assert lines + close == close;
    } else {
      MembersLines(members, next);
      RenderConcat(lines, close, next);
    }
  }

  /** A text placed behind a prefix, and its further lines `k` tabs deeper. */
  lemma PlacedRender(prefix: string, lines: seq<Line>, depth: nat, k: nat, next: nat)
    requires lines != []
    ensures Render([Line(depth, prefix + lines[0].text)] + Deeper(lines[1..], k), next) ==
      Tabs(next + depth) + prefix + Unindented(lines, next + k)
  {
    var placed := [Line(depth, prefix + lines[0].text)] + Deeper(lines[1..], k);
    assert placed[1..] == Deeper(lines[1..], k);
    RenderDeeper(lines[1..], k, next);
  }

  lemma RenderTwo(a: seq<Line>, b: seq<Line>, next: nat)
    requires a != [] && b != []
    ensures Render(WithComma(a) + b, next) == Render(a, next) + ",\n" + Render(b, next)
  {
    hide Render; hide WithComma;
    RenderWithComma(a, next);
    RenderConcat(WithComma(a), b, next);
    CommaBeforeLineFeed(Render(a, next), Render(b, next));
  }

  lemma CommaBeforeLineFeed(a: string, b: string)
    ensures a + "," + ("\n" + b) == a + ",\n" + b
  {
    assert ",\n" == "," + "\n";
  }

  /** The first member, and what follows it. */
  function Labelled(m: Member): seq<Line>
    requires Printable(m.def)
  {
    [Line(1, m.name + ": " + Lines(m.def)[0].text)] + Deeper(Lines(m.def)[1..], 2)
  }

  lemma MembersUnfold(members: seq<Member>, next: nat)
    requires PrintableMembers(members) && members != []
    ensures Printable(members[0].def) && PrintableMembers(members[1..])
    ensures var text := Tabs(next + 1) + members[0].name + ": " + Body(members[0].def, next + 2);
      Members(members, next) ==
      if |members| == 1 then text + "\n" else text + (",\n" + Members(members[1..], next))
    ensures MemberLines(members) ==
      if |members| == 1 then Labelled(members[0]) else WithComma(Labelled(members[0])) + MemberLines(members[1..])
  {
    hide Lines; hide Body; hide Tabs; hide Printable; hide Deeper; hide WithComma;
    if |members| == 1 {
      assert Members(members[1..], next) == "" && "\n" + "" == "\n";
    }
  }

  lemma LabelledRender(m: Member, next: nat)
    requires Printable(m.def) && Body(m.def, next + 2) == Unindented(Lines(m.def), next + 2)
    ensures Labelled(m) != []
    ensures Render(Labelled(m), next) == Tabs(next + 1) + m.name + ": " + Body(m.def, next + 2)
  {
    hide Lines; hide Body; hide Tabs; hide Printable; hide Render; hide Unindented; hide Deeper;
    PlacedRender(m.name + ": ", Lines(m.def), 1, 2, next);
    assert Tabs(next + 1) + (m.name + ": ") == Tabs(next + 1) + m.name + ": ";
  }

  lemma {:induction false} MembersLines(members: seq<Member>, next: nat)
    requires PrintableMembers(members) && members != []
    ensures MemberLines(members) != [] && Members(members, next) == Render(MemberLines(members), next) + "\n"
    decreases members, 1
  {
    hide *;
    MembersUnfold(members, next);
    BodyLines(members[0].def, next + 2);
    LabelledRender(members[0], next);
    if |members| > 1 {
      MembersLines(members[1..], next);
      RenderTwo(Labelled(members[0]), MemberLines(members[1..]), next);
      Regroup(Render(Labelled(members[0]), next), Render(MemberLines(members[1..]), next));
    }
  }

  lemma Regroup(a: string, b: string)
    ensures a + (",\n" + (b + "\n")) == a + ",\n" + b + "\n"
    ensures a + (",\n" + b) == a + ",\n" + b
  {
  }

  lemma {:induction false} WideLines(items: seq<Node>, next: nat)
    requires PrintableItems(items) && HasComposite(items)
    ensures Body(List(items), next) == Unindented(Lines(List(items)), next)
    decreases items, 2
  {
    var lines := ItemLines(items);
    ItemsLines(items, next);
    WideUnfold(items, next);
    Closing(lines, next);
  }

  lemma WideUnfold(items: seq<Node>, next: nat)
    requires PrintableItems(items) && HasComposite(items)
    ensures Body(List(items), next) == "[\n" + Items(items, next, next + 1, ",\n") + ("\n" + Tabs(next) + "]")
    ensures Lines(List(items)) == [Line(0, "[")] + ItemLines(items) + [Line(0, "]")]
  {
  }

  lemma Closing(lines: seq<Line>, next: nat)
    requires lines != []
    ensures Unindented([Line(0, "[")] + lines + [Line(0, "]")], next) ==
      "[\n" + Render(lines, next) + ("\n" + Tabs(next) + "]")
  {
    hide Render; hide Tabs;
    var close := [Line(0, "]")];
    LastLine("]", next);
    RenderConcat(lines, close, next);
    assert ([Line(0, "[")] + lines + close)[1..] == lines + close;
    Regroup(Render(lines, next), Tabs(next) + "]");
    assert "[" + ("\n" + (Render(lines, next) + ("\n" + (Tabs(next) + "]")))) ==
      "[\n" + Render(lines, next) + ("\n" + Tabs(next) + "]");
  }

  lemma LastLine(text: string, next: nat)
    ensures Render([Line(0, text)], next) == Tabs(next) + text
  {
    assert Tabs(next + 0) + text + "" == Tabs(next) + text;
  }

  /** The first item, and what follows it. */
  function Placed(n: Node): seq<Line>
    requires Printable(n)
  {
    [Lines(n)[0]] + Deeper(Lines(n)[1..], 1)
  }

  lemma ItemsUnfold(items: seq<Node>, next: nat)
    requires PrintableItems(items) && items != []
    ensures Printable(items[0]) && PrintableItems(items[1..])
    ensures var text := Tabs(next) + Body(items[0], next + 1);
      Items(items, next, next + 1, ",\n") ==
      if |items| == 1 then text else text + (",\n" + Items(items[1..], next, next + 1, ",\n"))
    ensures ItemLines(items) ==
      if |items| == 1 then Placed(items[0]) else WithComma(Placed(items[0])) + ItemLines(items[1..])
  {
    hide Lines; hide Body; hide Tabs; hide Printable; hide Deeper; hide WithComma;
    if |items| == 1 {
      assert Items(items[1..], next, next + 1, ",\n") == "" && "" + "" == "";
    }
  }

  lemma PlacedBody(n: Node, next: nat)
    requires Printable(n) && Body(n, next + 1) == Unindented(Lines(n), next + 1) && Lines(n)[0].depth == 0
    ensures Placed(n) != [] && Render(Placed(n), next) == Tabs(next) + Body(n, next + 1)
  {
    hide Lines; hide Body; hide Tabs; hide Printable; hide Render; hide Unindented; hide Deeper;
    PlacedRender("", Lines(n), 0, 1, next);
    assert "" + Lines(n)[0].text == Lines(n)[0].text;
    assert Tabs(next + 0) + "" == Tabs(next);
  }

  lemma {:induction false} ItemsLines(items: seq<Node>, next: nat)
    requires PrintableItems(items) && items != []
    ensures ItemLines(items) != [] && Items(items, next, next + 1, ",\n") == Render(ItemLines(items), next)
    decreases items, 1
  {
    hide *;
    ItemsUnfold(items, next);
    BodyLines(items[0], next + 1);
    PlacedBody(items[0], next);
    if |items| > 1 {
      ItemsLines(items[1..], next);
      RenderTwo(Placed(items[0]), ItemLines(items[1..]), next);
      Regroup(Render(Placed(items[0]), next), Render(ItemLines(items[1..]), next));
    }
  }

  lemma FlatLine(items: seq<Node>, next: nat)
    requires PrintableItems(items) && !HasComposite(items)
    ensures Body(List(items), next) == "[" + LeavesInLine(items) + "]"
  {
    if items != [] {
      LeavesLine(items, next + 1);
    }
  }

  lemma {:induction false} LeavesLine(items: seq<Node>, next: nat)
    requires PrintableItems(items) && !HasComposite(items)
    ensures Items(items, 0, next, ", ") == LeavesInLine(items)
  {
    if items != [] {
      assert !IsComposite(items[0]);
      CompositeStep(items);
      assert Body(items[0], next) == LeafText(items[0]);
      LeavesLine(items[1..], next);
    }
  }

  /** A printed tree is exactly its lines. */
  lemma PrintedLines(n: Node, indent: nat, next: nat)
    requires Printable(n)
    ensures var lines := Lines(n);
      Print(n, indent, next) == Tabs(indent) + lines[0].text + Continued(lines[1..], next)
  {
    BodyLines(n, next);
  }
}
