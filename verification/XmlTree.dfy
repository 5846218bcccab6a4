/** The node trees of external/rapidxml, and what its printer and parser make of them under
    print_no_indenting and parse_default. */
module XmlTree {
  import opened Wrappers
  import opened XmlText

  datatype Attr = Attr(name: string, value: string)

  datatype Node =
    | Element(name: string, attrs: seq<Attr>, value: string, children: seq<Node>)
    | Data(value: string)
    | CData(value: string)

  // ---- printing ----

  function PrintAttr(a: Attr): string {
    if '"' in a.value
    then " " + a.name + "='" + Escape(a.value, '"') + "'"
    else " " + a.name + "=\"" + Escape(a.value, '\'') + "\""
  }

  function PrintAttrs(attrs: seq<Attr>): string {
    if attrs == [] then [] else PrintAttr(attrs[0]) + PrintAttrs(attrs[1..])
  }

  function Print(n: Node): string
    decreases n, 1
  {
    match n
    case Data(value) => Escape(value, NUL)
    case CData(value) => "<![CDATA[" + value + "]]>"
    case Element(name, attrs, value, children) =>
      "<" + name + PrintAttrs(attrs) +
      if value == [] && children == [] then "/>"
      else ">" + (if children == [] then Escape(value, NUL) else PrintAll(children)) + "</" + name + ">"
  }

  function PrintAll(nodes: seq<Node>): string
    decreases nodes, 0
  {
    if nodes == [] then [] else Print(nodes[0]) + PrintAll(nodes[1..])
  }

  // ---- parsing ----

  /** The text after the first occurrence of `pattern`; running into the end is an error. */
  function After(s: string, pattern: string): Parsed<string>
    requires pattern != []
    ensures After(s, pattern).Done? ==> |After(s, pattern).rest| < |s|
    decreases |s|
  {
    if pattern <= s then Done(s[..0], s[|pattern|..])
    else if Peek(s, 0) == NUL then Fail("unexpected end of data")
    else
      var r := After(s[1..], pattern);
      if r.Done? then Done([s[0]] + r.value, r.rest) else r
  }

  /** parse_doctype: to the '>' outside all brackets. */
  function AfterDoctype(s: string, depth: nat): (r: Parsed<()>)
    ensures r.Done? ==> |r.rest| < |s|
    decreases |s|
  {
    if Peek(s, 0) == NUL then Fail("unexpected end of data")
    else if depth == 0 && s[0] == '>' then Done((), s[1..])
    else AfterDoctype(s[1..], if s[0] == '[' then depth + 1 else if s[0] == ']' && depth > 0 then depth - 1 else depth)
  }

  /** An attribute's name, up to and including the opening quote of its value. */
  function AttrHead(s: string): (r: Parsed<(string, char)>)
    requires IsAttrNameChar(Peek(s, 0))
    ensures r.Done? ==> |r.rest| < |s|
  {
    var n := SpanLen(IsAttrNameChar, s);
    var s1 := SkipSpace(s[n..]);
    if Peek(s1, 0) != '=' then Fail("expected =")
    else
      var s2 := SkipSpace(s1[1..]);
      var quote := Peek(s2, 0);
      if quote != '\'' && quote != '"' then Fail("expected ' or \"") else Done((s[..n], quote), s2[1..])
  }

  function ParseAttr(s: string): (r: Parsed<Attr>)
    requires IsAttrNameChar(Peek(s, 0))
    ensures r.Done? ==> |r.rest| < |s|
  {
    var head := AttrHead(s);
    if head.Fail? then Fail(head.what)
    else
      var v := Expand(AtQuote(head.value.1), head.rest);
      if v.Fail? then Fail(v.what)
      else if Peek(v.rest, 0) != head.value.1 then Fail("expected ' or \"")
      else
        ExpandRest(AtQuote(head.value.1), head.rest);
        Done(Attr(head.value.0, v.value), v.rest[1..])
  }

  function ParseAttrs(s: string): (r: Parsed<seq<Attr>>)
    ensures r.Done? ==> |r.rest| <= |s|
    decreases |s|
  {
    if !IsAttrNameChar(Peek(s, 0)) then Done([], s)
    else
      var a := ParseAttr(s);
      if a.Fail? then Fail(a.what)
      else
        var more := ParseAttrs(SkipSpace(a.rest));
        if more.Fail? then more else Done([a.value] + more.value, more.rest)
  }

  /** parse_node, after the '<'. Declarations, instructions, comments and document types are
      read over and yield no node. */
  function ParseNode(s: string): (r: Parsed<Option<Node>>)
    ensures r.Done? ==> |r.rest| < |s|
    decreases |s|, 1
  {
    if Peek(s, 0) == '?' then
      if IsXmlDeclaration(s[1..]) then NoNode(After(s[5..], "?>")) else NoNode(After(s[1..], "?>"))
    else if Peek(s, 0) == '!' then
      if Peek(s, 1) == '-' && Peek(s, 2) == '-' then NoNode(After(s[3..], "-->"))
      else if "![CDATA[" <= s then
        var r := After(s[8..], "]]>");
        if r.Done? then Done(Some(CData(r.value)), r.rest) else Fail(r.what)
      else if "!DOCTYPE" <= s && IsSpace(Peek(s, 8)) then
        var r := AfterDoctype(s[9..], 0);
        if r.Done? then Done(None, r.rest) else Fail(r.what)
      else NoNode(After(s[1..], ">"))
    else
      var r := ParseElement(s);
      if r.Done? then Done(Some(r.value), r.rest) else Fail(r.what)
  }

  predicate IsXmlDeclaration(s: string) {
    && (Peek(s, 0) == 'x' || Peek(s, 0) == 'X') && (Peek(s, 1) == 'm' || Peek(s, 1) == 'M')
    && (Peek(s, 2) == 'l' || Peek(s, 2) == 'L') && IsSpace(Peek(s, 3))
  }

  function NoNode(r: Parsed<string>): Parsed<Option<Node>> {
    if r.Done? then Done(None, r.rest) else Fail(r.what)
  }

  function ParseElement(s: string): (r: Parsed<Node>)
    ensures r.Done? ==> |r.rest| < |s|
    decreases |s|, 0
  {
    var n := SpanLen(IsNameChar, s);
    if n == 0 then Fail("expected element name")
    else
      var attrs := ParseAttrs(SkipSpace(s[n..]));
      if attrs.Fail? then Fail(attrs.what)
      else if Peek(attrs.rest, 0) == '>' then
        var kids := ParseContents(attrs.rest[1..]);
        if kids.Fail? then Fail(kids.what)
        else Done(Element(s[..n], attrs.value, ElementValue(kids.value, ""), kids.value), kids.rest)
      else if Peek(attrs.rest, 0) == '/' && Peek(attrs.rest, 1) == '>' then
        Done(Element(s[..n], attrs.value, "", []), attrs.rest[2..])
      else Fail("expected >")
  }

  /** The first data of an element doubles as its value. */
  function ElementValue(children: seq<Node>, value: string): string {
    if children == [] then value
    else
      ElementValue(children[1..],
                   if children[0].Data? && Peek(value, 0) == NUL then children[0].value else value)
  }

  /** parse_node_contents: children up to and including the closing tag. */
  function ParseContents(s: string): (r: Parsed<seq<Node>>)
    ensures r.Done? ==> |r.rest| < |s|
    decreases |s|, 2
  {
    var t := SkipSpace(s);
    if Peek(t, 0) == '<' then ParseTag(t)
    else if Peek(t, 0) == NUL then Fail("unexpected end of data")
    else
      var d := Expand(AtTag, s);
      if d.Fail? then Fail(d.what)
      else
        ExpandRest(AtTag, s);
        if Peek(d.rest, 0) == NUL then Fail("unexpected end of data")
        else Following(Data(d.value), ParseTag(d.rest))
  }

  /** A closing tag, or a child and what follows it. */
  function ParseTag(s: string): (r: Parsed<seq<Node>>)
    requires Peek(s, 0) == '<'
    ensures r.Done? ==> |r.rest| < |s|
    decreases |s|, 1
  {
    if Peek(s, 1) == '/' then
      var t := SkipSpace(s[2..][SpanLen(IsNameChar, s[2..])..]);
      if Peek(t, 0) != '>' then Fail("expected >") else Done([], t[1..])
    else
      var child := ParseNode(s[1..]);
      if child.Fail? then Fail(child.what)
      else if child.value.None? then ParseContents(child.rest)
      else Following(child.value.value, ParseContents(child.rest))
  }

  function Following(n: Node, r: Parsed<seq<Node>>): Parsed<seq<Node>> {
    if r.Done? then Done([n] + r.value, r.rest) else r
  }

  /** xml_document::parse */
  function ParseDocument(s: string): Parsed<seq<Node>> {
    ParseTop(if Peek(s, 0) as int == 0xEF && Peek(s, 1) as int == 0xBB && Peek(s, 2) as int == 0xBF then s[3..] else s)
  }

  function ParseTop(s: string): Parsed<seq<Node>>
    decreases |s|
  {
    var t := SkipSpace(s);
    if Peek(t, 0) == NUL then Done([], t)
    else if Peek(t, 0) != '<' then Fail("expected <")
    else
      var child := ParseNode(t[1..]);
      if child.Fail? then Fail(child.what)
      else if child.value.None? then ParseTop(child.rest)
      else Following(child.value.value, ParseTop(child.rest))
  }
}
