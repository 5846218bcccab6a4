/** Which of the many ways of writing a tree the printer of external/rapidxml chooses. */
module XmlPrinted {
  import opened XmlText
  import opened XmlTree
  import opened XmlGrammar
  import R = XmlRoundTrip

  // ---- character data ----

  /** The five special characters are written as their entities, except the exempt one, and every
      other character stands for itself. */
  predicate Escaped(ks: seq<Chunk>, exempt: char) {
    forall i | 0 <= i < |ks| ::
      match ks[i]
      case Plain(c) => c == exempt || c !in "<>&'\""
      case Named(name) => name in {"lt", "gt", "amp", "apos", "quot"} && EntityChar(name) != exempt
      case _ => false
  }

  function NameOf(c: char): string {
    if c == '<' then "lt" else if c == '>' then "gt" else if c == '&' then "amp"
    else if c == '\'' then "apos" else "quot"
  }

  function ChunkOf(c: char, exempt: char): Chunk {
    if c == exempt || c !in "<>&'\"" then Plain(c) else Named(NameOf(c))
  }

  function ChunksOf(text: string, exempt: char): seq<Chunk> {
    if text == "" then [] else [ChunkOf(text[0], exempt)] + ChunksOf(text[1..], exempt)
  }

  lemma OneEscaped(c: char, exempt: char)
    ensures WriteChunk(ChunkOf(c, exempt)) == EscapeChar(c, exempt) && MeansChunk(ChunkOf(c, exempt)) == [c]
    ensures Escaped([ChunkOf(c, exempt)], exempt)
  {}

  /** What copy_and_expand_chars writes. */
  lemma {:induction false} EscapeWrites(text: string, exempt: char)
    ensures var ks := ChunksOf(text, exempt);
            WriteChunks(ks) == Escape(text, exempt) && MeansChunks(ks) == text && Escaped(ks, exempt)
  {
    hide WriteChunk, MeansChunk, EscapeChar;
    if text != "" {
      var k, more := ChunkOf(text[0], exempt), ChunksOf(text[1..], exempt);
      EscapeWrites(text[1..], exempt);
      OneEscaped(text[0], exempt);
      assert ([k] + more)[1..] == more && text == [text[0]] + text[1..];
      EscapedPlus([k], more, exempt);
    }
  }

  lemma EscapedPlus(a: seq<Chunk>, b: seq<Chunk>, exempt: char)
    requires Escaped(a, exempt) && Escaped(b, exempt)
    ensures Escaped(a + b, exempt)
  {}

  // ---- attributes ----

  /** No white space around '=', double quotes unless the value holds one, and the other quote left
      as it is; one blank behind each attribute but the last. */
  ghost predicate AttrPrinted(a: AttrForm, last: bool) {
    && a.before == "" && a.behind == "" && a.gap == (if last then "" else " ")
    && a.quote == (if '"' in MeansChunks(a.value) then '\'' else '"')
    && Escaped(a.value, if a.quote == '"' then '\'' else '"')
  }

  ghost predicate AttrsPrinted(forms: seq<AttrForm>) {
    forall i | 0 <= i < |forms| :: AttrPrinted(forms[i], i == |forms| - 1)
  }

  lemma AttrForms(a: Attr, last: bool) returns (form: AttrForm)
    ensures AttrPrinted(form, last) && MeansAttr(form) == a
    ensures " " + WriteAttr(form) == PrintAttr(a) + (if last then "" else " ")
  {
    hide Escape, ChunksOf, WriteChunks, MeansChunks, Escaped;
    var quote, exempt := if '"' in a.value then '\'' else '"', if '"' in a.value then '"' else '\'';
    EscapeWrites(a.value, exempt);
    form := AttrForm(a.name, "", "", quote, ChunksOf(a.value, exempt), if last then "" else " ");
    AttrRegrouped(a.name, quote, Escape(a.value, exempt), form.gap);
  }

  lemma AttrRegrouped(name: string, quote: char, value: string, gap: string)
    ensures " " + (name + "" + "=" + "" + ([quote] + value + [quote]) + gap)
            == " " + name + ("=" + [quote]) + value + [quote] + gap
  {
    assert name + "" + "=" + "" == name + "=";
  }

  lemma {:induction false} AttrsForms(attrs: seq<Attr>) returns (forms: seq<AttrForm>)
    ensures AttrsPrinted(forms) && MeansAttrs(forms) == attrs
    ensures attrs == [] ==> forms == []
    ensures attrs != [] ==> forms != [] && " " + WriteAttrs(forms) == PrintAttrs(attrs)
  {
    hide AttrPrinted, MeansAttr, WriteAttr, PrintAttr;
    if attrs == [] {
      forms := [];
    } else {
      var last := |attrs| == 1;
      var f := AttrForms(attrs[0], last);
      var more := AttrsForms(attrs[1..]);
      forms := [f] + more;
      assert forms[1..] == more && attrs == [attrs[0]] + attrs[1..];
      assert " " + (WriteAttr(f) + WriteAttrs(more)) == " " + WriteAttr(f) + WriteAttrs(more);
      forall i | 0 <= i < |forms| ensures AttrPrinted(forms[i], i == |forms| - 1) {
        assert i > 0 ==> forms[i] == more[i - 1];
        assert last <==> more == [];
      }
    }
  }

  // ---- nodes ----

  /** How a node is printed: an element without value and children closes itself, one without
      children has its value as its only data, and nothing is added between tags. */
  ghost predicate Prints(n: Node, m: Markup)
    decreases n, 1
  {
    match n
    case Data(_) => false
    case CData(value) => m == Section(value)
    case Element(name, attrs, value, children) =>
      && m.Tagged? && m.name == name && m.gap == (if attrs == [] then "" else " ")
      && AttrsPrinted(m.attrs) && MeansAttrs(m.attrs) == attrs
      && (m.body.Closed? <==> value == "" && children == [])
      && (m.body.Open? ==> PrintsAll(if children == [] then value else "", children, m.body.content, name))
  }

  /** Data and children in their order, then the closing tag. */
  ghost predicate PrintsAll(data: string, kids: seq<Node>, c: Content, name: string)
    decreases kids, 0
  {
    if kids != [] && kids[0].Data? then PrintsAll(data + kids[0].value, kids[1..], c, name)
    else
      && Escaped(c.text, NUL) && MeansChunks(c.text) == data
      && if kids == [] then c.tag == Close(name, "")
         else c.tag.Child? && Prints(kids[0], c.tag.child) && PrintsAll("", kids[1..], c.tag.more, name)
  }

  /** Data, children and closing tag as one piece of content. */
  lemma {:induction false} KidsForm(data: string, kids: seq<Node>, name: string) returns (c: Content)
    ensures PrintsAll(data, kids, c, name) && WriteContent(c) == Escape(data, NUL) + PrintAll(kids) + "</" + name + ">"
    decreases kids, 0
  {
    hide Escape, Print, WriteMarkup, Prints, WriteChunks, MeansChunks, Escaped, ChunksOf;
    if kids != [] && kids[0].Data? {
      c := KidsForm(data + kids[0].value, kids[1..], name);
      R.EscapeConcat(data, kids[0].value, NUL);
      PrintedData(kids[0]);
      DataText(Escape(data, NUL), Print(kids[0]), PrintAll(kids[1..]), name);
    } else {
      EscapeWrites(data, NUL);
      var text := ChunksOf(data, NUL);
      if kids == [] {
        c := Content(text, Close(name, ""));
        CloseTagText(Escape(data, NUL), name);
      } else {
        var m := NodeForm(kids[0]);
        var more := KidsForm("", kids[1..], name);
        c := Content(text, Child(m, more));
        NothingEscaped();
        ChildText(Escape(data, NUL), WriteMarkup(m), PrintAll(kids[1..]), name);
      }
    }
  }

  lemma PrintedData(n: Node)
    requires n.Data?
    ensures Print(n) == Escape(n.value, NUL)
  {}

  lemma NothingEscaped()
    ensures Escape("", NUL) == ""
  {}

  lemma DataText(a: string, b: string, kids: string, name: string)
    ensures a + b + kids + "</" + name + ">" == a + (b + kids) + "</" + name + ">"
  {
    assert a + b + kids == a + (b + kids);
  }

  lemma CloseTagText(a: string, name: string)
    ensures a + "<" + ("/" + name + "" + ">") == a + [] + "</" + name + ">"
  {}

  lemma ChildText(a: string, child: string, kids: string, name: string)
    ensures a + "<" + (child + ("" + kids + "</" + name + ">")) == a + ("<" + child + kids) + "</" + name + ">"
  {}

  lemma ElementText(name: string, attrs: string, body: string)
    ensures "<" + name + attrs + body == "<" + (name + attrs + body)
  {}

  /** Every element and CDATA section is printed in the form the printer prefers. */
  lemma {:induction false} NodeForm(n: Node) returns (m: Markup)
    requires !n.Data?
    ensures Prints(n, m) && Print(n) == "<" + WriteMarkup(m)
    decreases n, 1
  {
    hide AttrsPrinted, MeansAttrs, WriteAttrs, PrintAttrs, Escape, WriteContent, PrintAll, PrintsAll;
    match n
    case CData(value) =>
      m := Section(value);
      assert "<![CDATA[" + value + "]]>" == "<" + ("![CDATA[" + value + "]]>");
    case Element(name, attrs, value, children) =>
      var forms := AttrsForms(attrs);
      var gap := if attrs == [] then "" else " ";
      var body;
      if value == "" && children == [] {
        body := Closed;
      } else {
        var c := KidsForm(if children == [] then value else "", children, name);
        body := Open(c);
        NothingEscaped();
        NoKidsPrinted();
      }
      m := Tagged(name, gap, forms, body);
      AttrsText(forms, attrs);
      BodyText(n, body);
      ElementText(name, PrintAttrs(attrs), WriteBody(body));
      assert name + gap + WriteAttrs(forms) == name + PrintAttrs(attrs);
  }

  lemma NoKidsPrinted()
    ensures PrintAll([]) == ""
  {}

  lemma AttrsText(forms: seq<AttrForm>, attrs: seq<Attr>)
    requires attrs == [] ==> forms == []
    requires attrs != [] ==> " " + WriteAttrs(forms) == PrintAttrs(attrs)
    ensures (if attrs == [] then "" else " ") + WriteAttrs(forms) == PrintAttrs(attrs)
  {}

  lemma BodyText(n: Node, body: Body)
    requires n.Element?
    requires if n.value == "" && n.children == [] then body == Closed
             else body.Open? && WriteContent(body.content)
                  == Escape(if n.children == [] then n.value else "", NUL) + PrintAll(n.children) + "</" + n.name + ">"
    ensures Print(n) == "<" + n.name + PrintAttrs(n.attrs) + WriteBody(body)
  {
    hide WriteContent, PrintAttrs, Escape;
    NothingEscaped();
    var front := "<" + n.name + PrintAttrs(n.attrs);
    if body.Open? {
      var inner := if n.children == [] then Escape(n.value, NUL) else PrintAll(n.children);
      assert WriteContent(body.content) == inner + "</" + n.name + ">" by {
        assert "" + inner == inner && inner + "" == inner;
      }
      assert ">" + inner + "</" + n.name + ">" == ">" + (inner + "</" + n.name + ">");
    }
  }
}
