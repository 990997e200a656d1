/** The program's printer, which writes to a stream, and its parser, which moves a
    position through a text; both refine the functions of the object notation. */
module NotationIO {
  import opened Wrappers
  import opened Escaping
  import opened Numbers
  import opened Lexing
  import opened ObjectNotation
  import opened NotationRoundTrip

  /** The text `whole` is written up to a rest. */
  predicate Written(out: string, rest: string, whole: string) {
    out + rest == whole
  }

  lemma WriteOne(out: string, part: string, rest: string, whole: string)
    requires Written(out, part + rest, whole)
    ensures Written(out + part, rest, whole)
  {
    assert out + (part + rest) == (out + part) + rest;
  }

  lemma WriteTwo(out: string, a: string, b: string, rest: string, whole: string)
    requires Written(out, a + (b + rest), whole)
    ensures Written(out + a + b, rest, whole)
  {
    WriteOne(out, a, b + rest, whole);
    WriteOne(out + a, b, rest, whole);
  }

  lemma WrittenAll(out: string, whole: string)
    requires Written(out, "", whole)
    ensures out == whole
  {
    assert out + "" == out;
  }

  lemma ListBody(items: seq<Node>, next: nat)
    requires PrintableItems(items) && items != []
    ensures Body(List(items), next) ==
      if HasComposite(items) then WideText(Items(items, next, next + 1, ",\n"), next)
      else FlatText(Items(items, 0, next + 1, ", "))
  {
  }

  lemma LeafBody(n: Node, next: nat)
    requires IsLeaf(n) && Printable(n)
    ensures Body(n, next) == LeafText(n)
  {
  }

  lemma WideWritten(o: string, indent: nat, text: string, next: nat)
    ensures o + (Tabs(indent) + "[\n") + text + "\n" + (Tabs(next) + "]") == o + (Tabs(indent) + WideText(text, next))
  {
    hide Tabs;
  }

  lemma FlatWritten(o: string, indent: nat, text: string)
    ensures o + (Tabs(indent) + "[") + text + "]" == o + (Tabs(indent) + FlatText(text))
  {
    hide Tabs;
  }

  lemma GroupWritten(o: string, indent: nat, name: string, text: string, next: nat)
    ensures o + (Tabs(indent) + (name + " {\n")) + text + (Tabs(next) + "}") ==
      o + (Tabs(indent) + GroupText(name, text, next))
  {
    hide Tabs;
  }

  class Printer {
    var out: string

    constructor ()
      ensures out == ""
    {
      out := "";
    }

    /** fputs on the stream. */
    method Put(s: string)
      modifies this
      ensures out == old(out) + s
    {
      out := out + s;
    }

    /** am_fputs_prefix with tabs: a number of tabs, then the text. */
    method PutIndented(s: string, indent: nat)
      modifies this
      ensures out == old(out) + (Tabs(indent) + s)
    {
      var i := 0;
      while i < indent
        invariant 0 <= i <= indent && out == old(out) + Tabs(i)
      {
        Put("\t");
        assert Tabs(i) + "\t" == Tabs(i + 1);
        i := i + 1;
      }
      Put(s);
    }

    /** am_object_notation_node_string_save, _int64_save, _uint64_save and _double_save. */
    method SaveLeaf(n: Node, indent: nat)
      requires IsLeaf(n) && Printable(n)
      modifies this
      ensures out == old(out) + (Tabs(indent) + LeafText(n))
    {
      match n
      case Str(v) =>
        var escaped := EscapeString(v);
        PutIndented("\"" + escaped + "\"", indent);
      case Int64(v) => PutIndented(SignedDigits(v) + "i64", indent);
      case UInt64(v) => PutIndented(Digits(v) + "u64", indent);
      case Double(t) => PutIndented(t, indent);
    }

    /** am_object_notation_node_member_save without its definition. */
    method SaveMemberName(name: string, indent: nat)
      modifies this
      ensures out == old(out) + (Tabs(indent) + (name + ": "))
    {
      PutIndented(name + ": ", indent);
    }

    /** am_object_notation_node_member_save. */
    method SaveMember(m: Member, next: nat)
      requires ValidMemberName(m.name) && Printable(m.def)
      modifies this
      ensures out == old(out) + (Tabs(next + 1) + MemberText(m, next))
      decreases m, 1
    {
      hide Body; hide Printable; hide FixedPoint;
      SaveMemberName(m.name, next + 1);
      Save(m.def, 0, next + 2);
      assert Print(m.def, 0, next + 2) == Body(m.def, next + 2);
      assert out == old(out) + (Tabs(next + 1) + MemberText(m, next));
    }

    /** The loop over the members of a group. */
    method SaveMembers(members: seq<Member>, next: nat)
      requires PrintableMembers(members)
      modifies this
      ensures out == old(out) + Members(members, next)
      decreases members, 2
    {
      ghost var whole := old(out) + Members(members, next);
      var i := 0;
      assert members[0..] == members;
      while i < |members|
        invariant 0 <= i <= |members| && PrintableMembers(members[i..])
        invariant Written(out, Members(members[i..], next), whole)
      {
        hide Members; hide MemberText; hide Written; hide Printable;
        MembersUnfold(members[i..], next);
        assert members[i..][1..] == members[i + 1..];
        ghost var before := out;
        var sep := if i + 1 < |members| then ",\n" else "\n";
        SaveMember(members[i], next);
        Put(sep);
        WriteTwo(before, Tabs(next + 1) + MemberText(members[i], next), sep, Members(members[i + 1..], next), whole);
        i := i + 1;
      }
      assert members[i..] == [];
      WrittenAll(out, whole);
    }

    /** am_object_notation_node_group_save. */
    method SaveGroup(name: string, members: seq<Member>, indent: nat, next: nat)
      requires ValidGroupName(name) && PrintableMembers(members)
      modifies this
      ensures out == old(out) + (Tabs(indent) + GroupText(name, Members(members, next), next))
      decreases members, 3
    {
      PutIndented(name + " {\n", indent);
      SaveMembers(members, next);
      PutIndented("}", next);
      hide *;
      GroupWritten(old(out), indent, name, Members(members, next), next);
    }

    /** am_object_notation_node_list_has_composite_item. */
    method FindComposite(items: seq<Node>) returns (found: bool)
      ensures found == HasComposite(items)
    {
      var i := 0;
      while i < |items|
        invariant 0 <= i <= |items| && forall k :: 0 <= k < i ==> !IsComposite(items[k])
      {
        if IsComposite(items[i]) {
          return true;
        }
        i := i + 1;
      }
      return false;
    }

    /** The loop over the items of a list. */
    method SaveItems(items: seq<Node>, indent: nat, next: nat, sep: string)
      requires PrintableItems(items)
      modifies this
      ensures out == old(out) + Items(items, indent, next, sep)
      decreases items, 2
    {
      ghost var whole := old(out) + Items(items, indent, next, sep);
      var i := 0;
      assert items[0..] == items;
      while i < |items|
        invariant 0 <= i <= |items| && PrintableItems(items[i..])
        invariant Written(out, Items(items[i..], indent, next, sep), whole)
      {
        hide Items; hide Body; hide Written; hide Printable;
        ItemsUnfold(items[i..], indent, next, sep);
        assert items[i..][1..] == items[i + 1..];
        ghost var before := out;
        Save(items[i], indent, next);
        if i + 1 < |items| {
          Put(sep);
          WriteTwo(before, Tabs(indent) + Body(items[i], next), sep, Items(items[i + 1..], indent, next, sep), whole);
        } else {
          assert items[i + 1..] == [];
          WriteTwo(before, Tabs(indent) + Body(items[i], next), "", Items(items[i + 1..], indent, next, sep), whole);
          assert out == before + (Tabs(indent) + Body(items[i], next)) + "";
        }
        i := i + 1;
      }
      assert items[i..] == [];
      WrittenAll(out, whole);
    }

    /** am_object_notation_node_list_save. */
    method SaveList(items: seq<Node>, indent: nat, next: nat)
      requires PrintableItems(items)
      modifies this
      ensures out == old(out) + (Tabs(indent) + Body(List(items), next))
      decreases items, 3
    {
      if items == [] {
        PutIndented("[]", indent);
        return;
      }
      hide Items; hide Body; hide HasComposite; hide PrintableItems; hide Tabs; hide WideText; hide FlatText;
      ListBody(items, next);
      var hasComposite := FindComposite(items);
      var listStart, itemSep, itemIndent := "[", ", ", 0;
      if hasComposite {
        listStart, itemSep, itemIndent := "[\n", ",\n", next;
      }
      PutIndented(listStart, indent);
      SaveItems(items, itemIndent, next + 1, itemSep);
      ghost var text := Items(items, itemIndent, next + 1, itemSep);
      if hasComposite {
        Put("\n");
        PutIndented("]", next);
        WideWritten(old(out), indent, text, next);
      } else {
        Put("]");
        FlatWritten(old(out), indent, text);
      }
    }

    /** am_object_notation_save_fp_indent: the text of the node is appended to what
        the stream holds. */
    method Save(n: Node, indent: nat, next: nat)
      requires Printable(n)
      modifies this
      ensures out == old(out) + Print(n, indent, next)
      decreases n, 0
    {
      if n.Group? {
        SaveGroup(n.name, n.members, indent, next);
      } else if n.List? {
        SaveList(n.items, indent, next);
      } else {
        SaveLeaf(n, indent);
        LeafBody(n, next);
      }
    }
  }
}
