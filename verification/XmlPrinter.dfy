/** external/rapidxml/rapidxml_print.hpp under print_no_indenting. The output iterator is the
    text written so far; every routine takes it and returns it extended. */
module XmlPrinter {
  import opened XmlText
  import opened XmlTree

  lemma {:induction false} EscapeSnoc(text: string, noexpand: char, i: nat)
    requires i < |text|
    ensures Escape(text[..i + 1], noexpand) == Escape(text[..i], noexpand) + EscapeChar(text[i], noexpand)
  {
    hide EscapeChar;
    if i == 0 {
      assert text[..1] == [text[0]] && text[..0] == [];
      assert Escape([], noexpand) == [] && [text[0]][1..] == [];
      assert EscapeChar(text[0], noexpand) + [] == [] + EscapeChar(text[0], noexpand);
    } else {
      EscapeSnoc(text[1..], noexpand, i - 1);
      assert text[..i + 1][1..] == text[1..][..i] && text[..i][1..] == text[1..][..i - 1];
    }
  }

  method CopyAndExpandChars(text: string, noexpand: char, out0: string) returns (out: string)
    ensures out == out0 + Escape(text, noexpand)
  {
    hide Escape;
    out := out0;
    var i := 0;
    EscapeNone(text, noexpand);
    while i < |text|
      invariant i <= |text| && out == out0 + Escape(text[..i], noexpand)
    {
      var c := text[i];
      var piece := [c];
      if c != noexpand {
        match c
        case '<' => piece := "&lt;";
        case '>' => piece := "&gt;";
        case '\'' => piece := "&apos;";
        case '"' => piece := "&quot;";
        case '&' => piece := "&amp;";
        case _ =>
      }
      assert piece == EscapeChar(c, noexpand);
      out := out + piece;
      EscapeSnoc(text, noexpand, i);
      Assoc(out0, Escape(text[..i], noexpand), piece);
      i := i + 1;
    }
    assert text[..i] == text;
  }

  lemma EscapeNone(text: string, noexpand: char)
    ensures Escape(text[..0], noexpand) == []
  {}

  method FindChar(text: string, c: char) returns (found: bool)
    ensures found <==> c in text
  {
    var i := 0;
    while i < |text|
      invariant i <= |text| && c !in text[..i]
    {
      if text[i] == c { return true; }
      i := i + 1;
    }
    return false;
  }

  lemma {:induction false} PrintAttrsSnoc(attrs: seq<Attr>, i: nat)
    requires i < |attrs|
    ensures PrintAttrs(attrs[..i + 1]) == PrintAttrs(attrs[..i]) + PrintAttr(attrs[i])
  {
    hide PrintAttr;
    if i == 0 {
      assert attrs[..1] == [attrs[0]] && attrs[..0] == [] && [attrs[0]][1..] == [];
      assert PrintAttr(attrs[0]) + [] == [] + PrintAttr(attrs[0]);
    } else {
      PrintAttrsSnoc(attrs[1..], i - 1);
      assert attrs[..i + 1][1..] == attrs[1..][..i] && attrs[..i][1..] == attrs[1..][..i - 1];
    }
  }

  lemma Assoc(a: string, b: string, c: string)
    ensures (a + b) + c == a + (b + c)
  {}

  method WriteAttribute(a: Attr, out0: string) returns (out: string)
    ensures out == out0 + PrintAttr(a)
  {
    hide Escape;
    var doubleQuoted := FindChar(a.value, '"');
    var text := [' '] + a.name + ['='];
    if doubleQuoted {
      text := CopyAndExpandChars(a.value, '"', text + ['\'']);
      text := text + ['\''];
    } else {
      text := CopyAndExpandChars(a.value, '\'', text + ['"']);
      text := text + ['"'];
    }
    assert text == PrintAttr(a);
    out := out0 + text;
  }

  method WriteAttributes(attrs: seq<Attr>, out0: string) returns (out: string)
    ensures out == out0 + PrintAttrs(attrs)
  {
    hide PrintAttrs, PrintAttr;
    out := out0;
    var i := 0;
    NoAttributes(attrs);
    while i < |attrs|
      invariant i <= |attrs| && out == out0 + PrintAttrs(attrs[..i])
    {
      out := WriteAttribute(attrs[i], out);
      PrintAttrsSnoc(attrs, i);
      Assoc(out0, PrintAttrs(attrs[..i]), PrintAttr(attrs[i]));
      i := i + 1;
    }
    assert attrs[..i] == attrs;
  }

  lemma NoAttributes(attrs: seq<Attr>)
    ensures PrintAttrs(attrs[..0]) == []
  {}

  lemma {:induction false} PrintAllSnoc(nodes: seq<Node>, i: nat)
    requires i < |nodes|
    ensures PrintAll(nodes[..i + 1]) == PrintAll(nodes[..i]) + Print(nodes[i])
    decreases i
  {
    hide Print;
    if i == 0 {
      assert nodes[..1] == [nodes[0]] && nodes[..0] == [] && [nodes[0]][1..] == [];
      assert PrintAll([]) == [];
      assert Print(nodes[0]) + [] == [] + Print(nodes[0]);
    } else {
      PrintAllSnoc(nodes[1..], i - 1);
      assert nodes[..i + 1][1..] == nodes[1..][..i] && nodes[..i][1..] == nodes[1..][..i - 1];
    }
  }

  lemma NoChildren(nodes: seq<Node>)
    ensures PrintAll(nodes[..0]) == []
  {}

  method WriteChildren(nodes: seq<Node>, out0: string) returns (out: string)
    ensures out == out0 + PrintAll(nodes)
    decreases nodes, 0
  {
    hide Print, PrintAll;
    out := out0;
    var i := 0;
    NoChildren(nodes);
    while i < |nodes|
      invariant i <= |nodes| && out == out0 + PrintAll(nodes[..i])
    {
      out := WriteNode(nodes[i], out);
      PrintAllSnoc(nodes, i);
      Assoc(out0, PrintAll(nodes[..i]), Print(nodes[i]));
      i := i + 1;
    }
    assert nodes[..i] == nodes;
  }

  lemma ElementText(n: Node, body: string)
    requires n.Element?
    requires body == if n.children == [] then Escape(n.value, NUL) else PrintAll(n.children)
    ensures Print(n) == ['<'] + n.name + PrintAttrs(n.attrs) +
                        if n.value == [] && n.children == [] then ['/'] + ['>']
                        else ['>'] + body + (['<'] + ['/']) + n.name + ['>']
  {
    hide Escape, PrintAttrs, PrintAll;
  }

  method WriteNode(n: Node, out0: string) returns (out: string)
    ensures out == out0 + Print(n)
    decreases n, 1
  {
    match n
    case Data(value) => out := CopyAndExpandChars(value, NUL, out0);
    case CData(value) =>
      out := out0 + "<![CDATA[";
      out := out + value;
      out := out + "]]>";
    case Element(name, attrs, value, children) =>
      out := WriteElement(n, out0);
  }

  method WriteElement(n: Node, out0: string) returns (out: string)
    requires n.Element?
    ensures out == out0 + Print(n)
    decreases n, 0
  {
    hide Escape, PrintAttrs, PrintAll, Print;
    var head := ['<'] + n.name;
    head := WriteAttributes(n.attrs, head);
    if |n.value| == 0 && |n.children| == 0 {
      head := head + (['/'] + ['>']);
      ElementText(n, Escape(n.value, NUL));
    } else {
      var body;
      if |n.children| == 0 {
        body := CopyAndExpandChars(n.value, NUL, []);
        assert body == Escape(n.value, NUL);
      } else if |n.children| == 1 && n.children[0].Data? {
        SoleData(n.children);
        body := CopyAndExpandChars(n.children[0].value, NUL, []);
        assert body == PrintAll(n.children);
      } else {
        body := WriteChildren(n.children, []);
        assert body == PrintAll(n.children);
      }
      ElementText(n, body);
      head := head + (['>'] + body + (['<'] + ['/']) + n.name + ['>']);
    }
    assert head == Print(n);
    out := out0 + head;
  }

  lemma SoleData(children: seq<Node>)
    requires |children| == 1 && children[0].Data?
    ensures PrintAll(children) == Escape(children[0].value, NUL)
  {
    assert children[1..] == [];
    assert PrintAll([]) == [];
  }
}
